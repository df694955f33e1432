/** Parents as a relation: an insertion makes a cycle exactly when the node is put below itself. The list
    operations do not look at ancestors, so this is what keeps a document a tree, and it is up to the
    caller. */
module SiblingTrees {
  import opened Wrappers
  import opened SiblingModel

  ghost predicate Closed(m: Forest) {
    forall n | n in m && m[n].parent.Some? :: m[n].parent.value in m
  }

  /** The ancestor `k` steps up; a node is its own ancestor zero steps up. */
  ghost function Up(m: Forest, n: nat, k: nat): (r: Option<nat>)
    requires Closed(m) && n in m
    ensures r.Some? ==> r.value in m
    decreases k
  {
    if k == 0 then Some(n)
    else if m[n].parent.None? then None
    else Up(m, m[n].parent.value, k - 1)
  }

  /** Going up from every node comes to an end. */
  ghost predicate Acyclic(m: Forest)
    requires Closed(m)
  {
    forall n | n in m :: exists k: nat :: Up(m, n, k) == None
  }

  /** Is `a` the node `n` itself or one of its ancestors? */
  ghost predicate Above(m: Forest, a: nat, n: nat)
    requires Closed(m) && n in m
  {
    exists k: nat :: Up(m, n, k) == Some(a)
  }

  /** The node `c` has come below `p`; no other parent has changed. */
  ghost predicate Moved(m: Forest, m': Forest, p: nat, c: nat) {
    && m'.Keys == m.Keys && p in m && c in m && m'[c].parent == Some(p)
    && forall n | n in m && n != c :: m'[n].parent == m[n].parent
  }

  lemma {:induction false} UpFurther(m: Forest, n: nat, j: nat, k: nat)
    requires Closed(m) && n in m && Up(m, n, j).Some?
    ensures Up(m, n, j + k) == Up(m, Up(m, n, j).value, k)
    decreases j
  {
    if j > 0 {
      UpFurther(m, m[n].parent.value, j - 1, k);
    }
  }

  lemma {:induction false} UpEnds(m: Forest, n: nat, j: nat, k: nat)
    requires Closed(m) && n in m && j <= k && Up(m, n, j) == None
    ensures Up(m, n, k) == None
    decreases j
  {
    if j > 0 && m[n].parent.Some? {
      UpEnds(m, m[n].parent.value, j - 1, k - 1);
    }
  }

  /** The way up from a node is as before until it meets the node that was moved. */
  lemma {:induction false} SameWay(m: Forest, m': Forest, p: nat, c: nat, n: nat, k: nat)
    requires Closed(m) && Closed(m') && Moved(m, m', p, c) && n in m
    requires forall j: nat | j < k :: Up(m, n, j) != Some(c)
    ensures Up(m', n, k) == Up(m, n, k)
    decreases k
  {
    if k > 0 {
      assert Up(m, n, 0) == Some(n);
      if m[n].parent.Some? {
        forall j: nat | j < k - 1 ensures Up(m, m[n].parent.value, j) != Some(c) {
          assert Up(m, n, j + 1) == Up(m, m[n].parent.value, j);
        }
        SameWay(m, m', p, c, m[n].parent.value, k - 1);
      }
    }
  }

  /** If the new parent was not below the node, every way up still ends: at `c` it goes on from `p`. */
  lemma {:induction false} WayEnds(m: Forest, m': Forest, p: nat, c: nat, n: nat, k: nat, kp: nat) returns (k': nat)
    requires Closed(m) && Closed(m') && Moved(m, m', p, c) && n in m
    requires Up(m, n, k) == None && Up(m', p, kp) == None
    ensures Up(m', n, k') == None
    decreases k
  {
    if n == c {
      return kp + 1;
    }
    if m[n].parent.None? {
      return 1;
    }
    var rest := WayEnds(m, m', p, c, m[n].parent.value, k - 1, kp);
    k' := rest + 1;
  }

  lemma {:induction false} CycleNeverEnds(m: Forest, n: nat, period: nat, k: nat)
    requires Closed(m) && n in m && period > 0 && Up(m, n, period) == Some(n)
    ensures Up(m, n, k).Some?
    decreases k
  {
    if k >= period {
      UpFurther(m, n, period, k - period);
      CycleNeverEnds(m, n, period, k - period);
    } else if Up(m, n, k) == None {
      UpEnds(m, n, k, period);
    }
  }

  /** The first step up at which a node is met. */
  lemma {:induction false} FirstMet(m: Forest, n: nat, c: nat, k: nat) returns (j: nat)
    requires Closed(m) && n in m && Up(m, n, k) == Some(c)
    ensures j <= k && Up(m, n, j) == Some(c) && forall i: nat | i < j :: Up(m, n, i) != Some(c)
    decreases k
  {
    if n == c {
      return 0;
    }
    j := FirstMet(m, m[n].parent.value, c, k - 1);
    j := j + 1;
    forall i: nat | i < j ensures Up(m, n, i) != Some(c) {
      if i > 0 {
        assert Up(m, n, i) == Up(m, m[n].parent.value, i - 1);
      }
    }
  }

  /** A node that is moved closes a cycle exactly when its new parent is the node itself or below it. */
  lemma MoveIsAcyclic(m: Forest, m': Forest, p: nat, c: nat)
    requires Closed(m) && Closed(m') && Moved(m, m', p, c) && Acyclic(m)
    ensures Acyclic(m') <==> !Above(m, c, p)
  {
    if Above(m, c, p) {
      var k: nat :| Up(m, p, k) == Some(c);
      var j := FirstMet(m, p, c, k);
      SameWay(m, m', p, c, p, j);
      UpFurther(m', p, j, 1);
      assert Up(m', c, 1) == Up(m', p, 0);
      forall i: nat ensures Up(m', p, i).Some? {
        CycleNeverEnds(m', p, j + 1, i);
      }
    } else {
      var kp: nat :| Up(m, p, kp) == None;
      SameWay(m, m', p, c, p, kp);
      forall n | n in m' ensures exists k: nat :: Up(m', n, k) == None {
        var k: nat :| Up(m, n, k) == None;
        var k' := WayEnds(m, m', p, c, n, k, kp);
      }
    }
  }

  // ---------------------------------------------------------------- the three insertions

  lemma ListedIsClosed(m: Forest, l: Lists)
    requires Listed(m, l)
    ensures Closed(m)
  {
  }

  lemma PreambleParents(m: Forest, l: Lists, c: nat)
    requires Listed(m, l) && c in m && (m[c].parent.Some? ==> m[c].parent.value in m)
    ensures var m0 := Preamble(m, c);
            m0.Keys == m.Keys && m0[c].parent == None && forall n | n in m && n != c :: m0[n].parent == m[n].parent
  {
    hide Unlink, Listed;
    PreambleKeeps(m, l, c);
    if m[c].parent.Some? {
      UnlinkKeeps(m, l, m[c].parent.value, c);
    }
  }

  lemma InsertedMoves(m: Forest, m': Forest, p: nat, before: Option<nat>, after: Option<nat>, c: nat)
    requires p in m && c in m && Inserted(m, m', p, before, after, c)
    ensures Moved(m, m', p, c)
  {
  }

  lemma EndMoves(m: Forest, l: Lists, p: nat, c: nat)
    requires Listed(m, l) && p in m && c in m && (m[c].parent.Some? ==> m[c].parent.value in m)
    ensures Moved(m, InsertEndChild(m, p, c), p, c) && Closed(InsertEndChild(m, p, c))
  {
    hide Listed, Preamble, AttachEnd, Freed, Inserted;
    MemberIn(m, l, c);
    PreambleParents(m, l, c);
    PreambleKeeps(m, l, c);
    var m0, l0 := Preamble(m, c), Freed(m, l, c);
    Ends(m0, l0, p);
    LastIsOther(m0, l0, p, c);
    AttachEndIs(m0, p, c);
    InsertedMoves(m0, AttachEnd(m0, p, c), p, m0[p].last, None, c);
    ListedIsClosed(m, l);
  }

  lemma FirstMoves(m: Forest, l: Lists, p: nat, c: nat)
    requires Listed(m, l) && p in m && c in m && (m[c].parent.Some? ==> m[c].parent.value in m)
    ensures Moved(m, InsertFirstChild(m, p, c), p, c) && Closed(InsertFirstChild(m, p, c))
  {
    hide Listed, Preamble, AttachFirst, Freed, Inserted;
    MemberIn(m, l, c);
    PreambleParents(m, l, c);
    PreambleKeeps(m, l, c);
    var m0, l0 := Preamble(m, c), Freed(m, l, c);
    Ends(m0, l0, p);
    LastIsOther(m0, l0, p, c);
    AttachFirstIs(m0, p, c);
    InsertedMoves(m0, AttachFirst(m0, p, c), p, None, m0[p].first, c);
    ListedIsClosed(m, l);
  }

  lemma AfterMoves(m: Forest, l: Lists, p: nat, a: nat, c: nat)
    requires Listed(m, l) && p in m && c in m && a in m && (m[c].parent.Some? ==> m[c].parent.value in m)
    requires InsertAfterChild(m, p, a, c).Done? && a != c
    ensures var r := InsertAfterChild(m, p, a, c).forest; Moved(m, r, p, c) && Closed(r)
  {
    hide Listed, Preamble, AttachAfter, Freed, Inserted, InsertEndChild;
    ListedIsClosed(m, l);
    if m[a].next.None? {
      EndMoves(m, l, p, c);
    } else {
      MemberIn(m, l, c);
      PreambleParents(m, l, c);
      var i := SiblingFreed(m, l, p, a, c);
      var m0, l0 := Preamble(m, c), Freed(m, l, c);
      Neighbours(m0, l0, p, i);
      Neighbours(m0, l0, p, i + 1);
      AttachAfterIs(m0, p, a, c);
      InsertedMoves(m0, AttachAfter(m0, p, a, c), p, Some(a), m0[a].next, c);
    }
  }

  /** Each of the three insertions keeps the nodes a forest exactly when the node that is added is neither
      the new parent nor one of its ancestors. */
  lemma InsertionIsAcyclic(m: Forest, l: Lists, p: nat, c: nat)
    requires Listed(m, l) && Closed(m) && Acyclic(m) && p in m && c in m
    requires (m[c].parent.Some? ==> m[c].parent.value in m)
    ensures Closed(InsertEndChild(m, p, c)) && (Acyclic(InsertEndChild(m, p, c)) <==> !Above(m, c, p))
    ensures Closed(InsertFirstChild(m, p, c)) && (Acyclic(InsertFirstChild(m, p, c)) <==> !Above(m, c, p))
    ensures forall a | a in m && a != c && InsertAfterChild(m, p, a, c).Done? ::
              var r := InsertAfterChild(m, p, a, c).forest; Closed(r) && (Acyclic(r) <==> !Above(m, c, p))
  {
    hide InsertEndChild, InsertFirstChild, InsertAfterChild, Acyclic, Above, Listed;
    EndMoves(m, l, p, c);
    MoveIsAcyclic(m, InsertEndChild(m, p, c), p, c);
    FirstMoves(m, l, p, c);
    MoveIsAcyclic(m, InsertFirstChild(m, p, c), p, c);
    forall a | a in m && a != c && InsertAfterChild(m, p, a, c).Done?
      ensures var r := InsertAfterChild(m, p, a, c).forest; Closed(r) && (Acyclic(r) <==> !Above(m, c, p))
    {
      AfterMoves(m, l, p, a, c);
      MoveIsAcyclic(m, InsertAfterChild(m, p, a, c).forest, p, c);
    }
  }
}
