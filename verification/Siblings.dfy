/** Nodes that point to their parent, their siblings and their first and last child. */
module Siblings {
  import opened Wrappers
  import opened SiblingModel

  function Id(n: Node?): Option<nat> {
    if n == null then None else Some(n.id)
  }

  ghost predicate Known(w: map<nat, Node>, n: Node?) {
    n != null ==> n.id in w && w[n.id] == n
  }

  /** The world of nodes: all that nodes point to is in it. */
  ghost predicate Valid(w: map<nat, Node>)
    reads w.Values
  {
    forall k | k in w ::
      w[k].id == k && Known(w, w[k].parent) && Known(w, w[k].prev) && Known(w, w[k].next) &&
      Known(w, w[k].firstChild) && Known(w, w[k].lastChild)
  }

  ghost function Model(w: map<nat, Node>): Forest
    reads w.Values
  {
    map k | k in w :: w[k].Pointers()
  }

  class Node {
    const id: nat
    const document: nat
    var parent: Node?
    var prev: Node?
    var next: Node?
    var firstChild: Node?
    var lastChild: Node?

    constructor (id: nat, document: nat)
      ensures this.id == id && this.document == document
      ensures parent == null && prev == null && next == null && firstChild == null && lastChild == null
    {
      this.id, this.document := id, document;
      this.parent, this.prev, this.next, this.firstChild, this.lastChild := null, null, null, null, null;
    }

    ghost function Pointers(): Links
      reads this
    {
      Links(Id(parent), Id(prev), Id(next), Id(firstChild), Id(lastChild))
    }

    /** Only this node has changed, and what it points to is known. */
    twostate lemma OnlyThisChanged(w: map<nat, Node>)
      requires old(Valid(w)) && Known(w, this) && forall k | k in w && w[k] != this :: unchanged(w[k])
      requires Known(w, parent) && Known(w, prev) && Known(w, next) && Known(w, firstChild) && Known(w, lastChild)
      ensures Valid(w) && id in old(Model(w)) && Model(w) == old(Model(w))[id := Pointers()]
    {
      forall k | k in w && k != id ensures w[k] != this && w[k].Pointers() == old(w[k].Pointers()) {
        assert w[k].id == k;
      }
    }

    method AssignNext(ghost w: map<nat, Node>, v: Node?)
      requires Valid(w) && Known(w, this) && Known(w, v)
      modifies this
      ensures Valid(w) && Model(w) == SetNext(old(Model(w)), Some(id), Id(v))
    {
      next := v;
      OnlyThisChanged(w);
    }

    method AssignPrev(ghost w: map<nat, Node>, v: Node?)
      requires Valid(w) && Known(w, this) && Known(w, v)
      modifies this
      ensures Valid(w) && Model(w) == SetPrev(old(Model(w)), Some(id), Id(v))
    {
      prev := v;
      OnlyThisChanged(w);
    }

    method AssignParent(ghost w: map<nat, Node>, v: Node?)
      requires Valid(w) && Known(w, this) && Known(w, v)
      modifies this
      ensures Valid(w) && Model(w) == SetParent(old(Model(w)), id, Id(v))
    {
      parent := v;
      OnlyThisChanged(w);
    }

    method AssignFirst(ghost w: map<nat, Node>, v: Node?)
      requires Valid(w) && Known(w, this) && Known(w, v)
      modifies this
      ensures Valid(w) && Model(w) == SetFirst(old(Model(w)), id, Id(v))
    {
      firstChild := v;
      OnlyThisChanged(w);
    }

    method AssignLast(ghost w: map<nat, Node>, v: Node?)
      requires Valid(w) && Known(w, this) && Known(w, v)
      modifies this
      ensures Valid(w) && Model(w) == SetLast(old(Model(w)), id, Id(v))
    {
      lastChild := v;
      OnlyThisChanged(w);
    }

    /** The parent's part of `Unlink`. */
    method StepOver(ghost w: map<nat, Node>, child: Node)
      requires Valid(w) && Known(w, this) && Known(w, child)
      modifies this
      ensures Valid(w) && Model(w) == SiblingModel.StepOver(old(Model(w)), id, child.id)
    {
      hide SetFirst, SetLast;
      Reads(w, this, child);
      if child == firstChild {
        AssignFirst(w, firstChild.next);
        Reads(w, this, child);
      }
      if child == lastChild {
        AssignLast(w, lastChild.prev);
      }
    }

    /** The siblings' part of `Unlink`, by the child itself. */
    method CutOut(ghost w: map<nat, Node>)
      requires Valid(w) && Known(w, this)
      modifies w.Values
      ensures Valid(w) && Model(w) == SiblingModel.CutOut(old(Model(w)), id)
    {
      hide SetNext, SetPrev, SetParent;
      Reads(w, this, this);
      NoSteps(Model(w), Id(next));
      if prev != null {
        assert prev in w.Values;
        prev.AssignNext(w, next);
      }
      Reads(w, this, this);
      NoSteps(Model(w), Id(prev));
      if next != null {
        assert next in w.Values;
        next.AssignPrev(w, prev);
      }
      assert this in w.Values;
      AssignNext(w, null);
      AssignPrev(w, null);
      AssignParent(w, null);
    }

    /** `Unlink`: the child leaves the list. */
    method Unlink(ghost w: map<nat, Node>, child: Node)
      requires Valid(w) && Known(w, this) && Known(w, child)
      modifies w.Values
      ensures Valid(w) && id in old(Model(w)) && child.id in old(Model(w))
      ensures Model(w) == SiblingModel.Unlink(old(Model(w)), id, child.id)
    {
      hide SiblingModel.StepOver, SiblingModel.CutOut;
      Reads(w, this, child);
      assert this in w.Values;
      StepOver(w, child);
      child.CutOut(w);
    }

    method InsertChildPreamble(ghost w: map<nat, Node>, insertThis: Node)
      requires Valid(w) && Known(w, insertThis)
      modifies w.Values
      ensures Valid(w) && insertThis.id in old(Model(w)) && Model(w) == Preamble(old(Model(w)), insertThis.id)
    {
      hide SiblingModel.Unlink;
      Reads(w, insertThis, insertThis);
      if insertThis.parent != null {
        insertThis.parent.Unlink(w, insertThis);
      }
    }

    /** `InsertEndChild`; a node of another document is refused. */
    method InsertEndChild(ghost w: map<nat, Node>, addThis: Node) returns (r: Node?)
      requires Valid(w) && Known(w, this) && Known(w, addThis)
      modifies w.Values
      ensures Valid(w) && id in old(Model(w)) && addThis.id in old(Model(w)) && ParentIn(old(Model(w)), addThis.id)
      ensures r == if addThis.document == document then addThis else null
      ensures Model(w) ==
              if r == null then old(Model(w)) else SiblingModel.InsertEndChild(old(Model(w)), id, addThis.id)
    {
      hide SiblingModel.Unlink, Preamble, AttachEnd;
      Reads(w, this, addThis);
      ParentsIn(w, addThis);
      if addThis.document != document {
        return null;
      }
      InsertChildPreamble(w, addThis);
      AttachLast(w, addThis);
      r := addThis;
    }

    method AttachLast(ghost w: map<nat, Node>, addThis: Node)
      requires Valid(w) && Known(w, this) && Known(w, addThis)
      modifies w.Values
      ensures Valid(w) && id in old(Model(w)) && addThis.id in old(Model(w))
      ensures Model(w) == AttachEnd(old(Model(w)), id, addThis.id)
    {
      hide SetFirst, SetLast, SetNext, SetPrev, SetParent;
      Reads(w, this, addThis);
      assert this in w.Values && addThis in w.Values;
      if lastChild != null {
        assert lastChild in w.Values;
        var last := lastChild;
        last.AssignNext(w, addThis);
        addThis.AssignPrev(w, last);
        AssignLast(w, addThis);
        addThis.AssignNext(w, null);
      } else {
        AssignFirst(w, addThis);
        AssignLast(w, addThis);
        addThis.AssignPrev(w, null);
        addThis.AssignNext(w, null);
      }
      addThis.AssignParent(w, this);
    }

    /** `InsertFirstChild`. */
    method InsertFirstChild(ghost w: map<nat, Node>, addThis: Node) returns (r: Node?)
      requires Valid(w) && Known(w, this) && Known(w, addThis)
      modifies w.Values
      ensures Valid(w) && id in old(Model(w)) && addThis.id in old(Model(w)) && ParentIn(old(Model(w)), addThis.id)
      ensures r == if addThis.document == document then addThis else null
      ensures Model(w) ==
              if r == null then old(Model(w)) else SiblingModel.InsertFirstChild(old(Model(w)), id, addThis.id)
    {
      hide SiblingModel.Unlink, Preamble, SiblingModel.AttachFirst;
      Reads(w, this, addThis);
      ParentsIn(w, addThis);
      if addThis.document != document {
        return null;
      }
      InsertChildPreamble(w, addThis);
      AttachFirst(w, addThis);
      r := addThis;
    }

    method AttachFirst(ghost w: map<nat, Node>, addThis: Node)
      requires Valid(w) && Known(w, this) && Known(w, addThis)
      modifies w.Values
      ensures Valid(w) && id in old(Model(w)) && addThis.id in old(Model(w))
      ensures Model(w) == SiblingModel.AttachFirst(old(Model(w)), id, addThis.id)
    {
      hide SetFirst, SetLast, SetNext, SetPrev, SetParent;
      Reads(w, this, addThis);
      assert this in w.Values && addThis in w.Values;
      if firstChild != null {
        assert firstChild in w.Values;
        var first := firstChild;
        first.AssignPrev(w, addThis);
        addThis.AssignNext(w, first);
        AssignFirst(w, addThis);
        addThis.AssignPrev(w, null);
      } else {
        AssignFirst(w, addThis);
        AssignLast(w, addThis);
        addThis.AssignPrev(w, null);
        addThis.AssignNext(w, null);
      }
      addThis.AssignParent(w, this);
    }

    /** `InsertAfterChild`. Where the program would go through a null pointer the method stops. */
    method InsertAfterChild(
      ghost w: map<nat, Node>, afterThis: Node, addThis: Node)
      returns (r: Node?, nullAccess: bool)
      requires Valid(w) && Known(w, this) && Known(w, addThis) && Known(w, afterThis)
      modifies w.Values
      ensures Valid(w) && id in old(Model(w)) && addThis.id in old(Model(w)) && afterThis.id in old(Model(w))
      ensures ParentIn(old(Model(w)), addThis.id)
      ensures addThis.document != document ==> r == null && !nullAccess && Model(w) == old(Model(w))
      ensures addThis.document == document ==>
              var after := SiblingModel.InsertAfterChild(old(Model(w)), id, afterThis.id, addThis.id);
              nullAccess == after.Crashed? && r == (if after.Done? then addThis else null) &&
              (after.Done? ==> Model(w) == after.forest) && (after.Refused? ==> Model(w) == old(Model(w)))
    {
      hide SiblingModel.Unlink, Preamble, SiblingModel.AttachAfter, SiblingModel.InsertEndChild;
      Reads(w, this, addThis);
      Reads(w, afterThis, this);
      Reads(w, afterThis, addThis);
      ParentsIn(w, addThis);
      r, nullAccess := null, false;
      if addThis.document != document || afterThis.parent != this {
        return;
      }
      if afterThis == addThis {
        return addThis, false;
      }
      if afterThis.next == null {
        r := InsertEndChild(w, addThis);
        return;
      }
      InsertChildPreamble(w, addThis);
      Reads(w, this, addThis);
      Reads(w, afterThis, addThis);
      if afterThis.next == null {
        nullAccess := true;
        return;
      }
      AttachAfter(w, afterThis, addThis);
      r := addThis;
    }

    method AttachAfter(ghost w: map<nat, Node>, afterThis: Node, addThis: Node)
      requires Valid(w) && Known(w, this) && Known(w, addThis) && Known(w, afterThis) && afterThis.next != null
      requires afterThis != addThis
      modifies w.Values
      ensures Valid(w) && id in old(Model(w)) && addThis.id in old(Model(w)) && afterThis.id in old(Model(w))
      ensures Model(w) == SiblingModel.AttachAfter(old(Model(w)), id, afterThis.id, addThis.id)
    {
      hide SetFirst, SetLast, SetNext, SetPrev, SetParent;
      Reads(w, this, addThis);
      Reads(w, afterThis, addThis);
      assert this in w.Values && addThis in w.Values && afterThis in w.Values && afterThis.next in w.Values;
      var after := afterThis.next;
      addThis.AssignPrev(w, afterThis);
      addThis.AssignNext(w, after);
      after.AssignPrev(w, addThis);
      afterThis.AssignNext(w, addThis);
      addThis.AssignParent(w, this);
    }
  }

  ghost predicate ParentIn(m: Forest, c: nat) {
    c in m && (m[c].parent.Some? ==> m[c].parent.value in m)
  }

  lemma ParentsIn(w: map<nat, Node>, c: Node)
    requires Valid(w) && Known(w, c)
    ensures ParentIn(Model(w), c.id)
  {
  }

  /** What the model says of nodes, and that nodes are the same when their numbers are. */
  lemma Reads(w: map<nat, Node>, n: Node, c: Node)
    requires Valid(w) && Known(w, n) && Known(w, c)
    ensures n.id in Model(w) && Model(w)[n.id] == n.Pointers() && c.id in Model(w) && Model(w)[c.id] == c.Pointers()
    ensures Id(n.firstChild) == Some(c.id) <==> n.firstChild == c
    ensures Id(n.lastChild) == Some(c.id) <==> n.lastChild == c
    ensures Id(n.next) == Some(c.id) <==> n.next == c
    ensures Id(n.parent) == Some(c.id) <==> n.parent == c
    ensures Known(w, n.parent) && Known(w, n.prev) && Known(w, n.next) && Known(w, n.firstChild)
    ensures Known(w, n.lastChild)
  {
  }

  lemma NoSteps(m: Forest, v: Option<nat>)
    ensures SetNext(m, None, v) == m && SetPrev(m, None, v) == m
  {
  }
}
