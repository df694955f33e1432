/** The links between nodes and their children, as values: what the pointer updates do to the lists. A
    node knows its parent, its two neighbours and its first and last child; the lists of children are what
    these fields should amount to, and an operation is right if the links and the lists still agree after
    it. */
module SiblingModel {
  import opened Wrappers

  datatype Links = Links(parent: Option<nat>, prev: Option<nat>, next: Option<nat>, first: Option<nat>,
                         last: Option<nat>)

  type Forest = map<nat, Links>

  /** The children of every node, in order. */
  type Lists = map<nat, seq<nat>>

  function Without(s: seq<nat>, x: nat): seq<nat> {
    if s == [] then [] else if s[0] == x then s[1..] else [s[0]] + Without(s[1..], x)
  }

  // ---------------------------------------------------------------- well-formed lists

  ghost predicate KidOk(m: Forest, p: nat, s: seq<nat>, i: nat)
    requires i < |s|
  {
    s[i] in m && m[s[i]].parent == Some(p) &&
    m[s[i]].prev == (if i == 0 then None else Some(s[i - 1])) &&
    m[s[i]].next == if i + 1 == |s| then None else Some(s[i + 1])
  }

  ghost predicate ListOk(m: Forest, p: nat, s: seq<nat>)
    requires p in m
  {
    && m[p].first == (if s == [] then None else Some(s[0]))
    && m[p].last == (if s == [] then None else Some(s[|s| - 1]))
    && (forall i, j | 0 <= i < j < |s| :: s[i] != s[j])
    && (forall i | 0 <= i < |s| :: KidOk(m, p, s, i))
  }

  /** A node without a parent has no siblings; any other is in its parent's list. */
  ghost predicate MemberOk(m: Forest, l: Lists, n: nat)
    requires n in m
  {
    match m[n].parent
    case None => m[n].prev == None && m[n].next == None
    case Some(p) => p in l && n in l[p]
  }

  ghost predicate Listed(m: Forest, l: Lists) {
    m.Keys == l.Keys && (forall p | p in m :: ListOk(m, p, l[p])) && forall n | n in m :: MemberOk(m, l, n)
  }

  // ---------------------------------------------------------------- pointer updates

  function SetNext(m: Forest, n: Option<nat>, v: Option<nat>): Forest {
    if n.Some? && n.value in m then m[n.value := m[n.value].(next := v)] else m
  }

  function SetPrev(m: Forest, n: Option<nat>, v: Option<nat>): Forest {
    if n.Some? && n.value in m then m[n.value := m[n.value].(prev := v)] else m
  }

  function SetFirst(m: Forest, p: nat, v: Option<nat>): Forest {
    if p in m then m[p := m[p].(first := v)] else m
  }

  function SetLast(m: Forest, p: nat, v: Option<nat>): Forest {
    if p in m then m[p := m[p].(last := v)] else m
  }

  function SetParent(m: Forest, c: nat, v: Option<nat>): Forest {
    if c in m then m[c := m[c].(parent := v)] else m
  }

  /** The parent's pointers to its first and last child step over `c`. */
  function StepOver(m: Forest, p: nat, c: nat): Forest
    requires p in m && c in m
  {
    var m1 := if m[p].first == Some(c) then SetFirst(m, p, m[c].next) else m;
    if m1[p].last == Some(c) then SetLast(m1, p, m1[c].prev) else m1
  }

  /** The siblings' pointers step over `c`, which loses its own. */
  function CutOut(m: Forest, c: nat): Forest
    requires c in m
  {
    var m1 := SetNext(m, m[c].prev, m[c].next);
    var m2 := SetPrev(m1, m1[c].next, m1[c].prev);
    SetParent(SetPrev(SetNext(m2, Some(c), None), Some(c), None), c, None)
  }

  /** `Unlink`, one pointer after the other. */
  function Unlink(m: Forest, p: nat, c: nat): Forest
    requires p in m && c in m
  {
    CutOut(StepOver(m, p, c), c)
  }

  /** `InsertChildPreamble`: a node that has a parent leaves it. */
  function Preamble(m: Forest, c: nat): Forest
    requires c in m && (m[c].parent.Some? ==> m[c].parent.value in m)
  {
    match m[c].parent
    case None => m
    case Some(p) => Unlink(m, p, c)
  }

  function AttachEnd(m: Forest, p: nat, c: nat): Forest
    requires p in m && c in m
  {
    var linked :=
      if m[p].last.Some? then
        SetNext(SetLast(SetPrev(SetNext(m, m[p].last, Some(c)), Some(c), m[p].last), p, Some(c)), Some(c), None)
      else SetNext(SetPrev(SetLast(SetFirst(m, p, Some(c)), p, Some(c)), Some(c), None), Some(c), None);
    SetParent(linked, c, Some(p))
  }

  function AttachFirst(m: Forest, p: nat, c: nat): Forest
    requires p in m && c in m
  {
    var linked :=
      if m[p].first.Some? then
        SetPrev(SetFirst(SetNext(SetPrev(m, m[p].first, Some(c)), Some(c), m[p].first), p, Some(c)), Some(c), None)
      else SetNext(SetPrev(SetLast(SetFirst(m, p, Some(c)), p, Some(c)), Some(c), None), Some(c), None);
    SetParent(linked, c, Some(p))
  }

  /** Behind a sibling `a` that has a next one. */
  function AttachAfter(m: Forest, p: nat, a: nat, c: nat): Forest
    requires p in m && c in m && a in m
  {
    var m1 := SetNext(SetPrev(m, Some(c), Some(a)), Some(c), m[a].next);
    SetParent(SetNext(SetPrev(m1, m[a].next, Some(c)), Some(a), Some(c)), c, Some(p))
  }

  // ---------------------------------------------------------------- removal

  lemma {:induction false} WithoutAt(s: seq<nat>, i: nat)
    requires i < |s| && forall j | 0 <= j < i :: s[j] != s[i]
    ensures Without(s, s[i]) == s[..i] + s[i + 1..]
    decreases i
  {
    if i > 0 {
      WithoutAt(s[1..], i - 1);
      assert s[1..][..i - 1] == s[1..i] && s[1..][i..] == s[i + 1..];
      assert s[..i] == [s[0]] + s[1..i];
    } else {
      assert s[..0] == [];
    }
  }

  /** Nodes of one list are not those of another. */
  lemma ListsApart(m: Forest, l: Lists, p: nat, i: nat, q: nat, j: nat)
    requires Listed(m, l) && p in m && q in m && p != q && i < |l[p]| && j < |l[q]|
    ensures l[p][i] != l[q][j]
  {
    assert KidOk(m, p, l[p], i) && KidOk(m, q, l[q], j);
  }

  /** What `Unlink` makes of one node's links. */
  function UnlinkedAt(m: Forest, p: nat, c: nat, n: nat): Links
    requires p in m && c in m && n in m
  {
    Links(
      if n == c then None else m[n].parent,
      if n == c then None else if m[c].next == Some(n) then m[c].prev else m[n].prev,
      if n == c then None else if m[c].prev == Some(n) then m[c].next else m[n].next,
      if n == p && m[p].first == Some(c) then m[c].next else m[n].first,
      if n == p && m[p].last == Some(c) then m[c].prev else m[n].last)
  }

  lemma StepOverIs(m: Forest, p: nat, c: nat)
    requires p in m && c in m
    ensures StepOver(m, p, c).Keys == m.Keys
    ensures forall n | n in m ::
              StepOver(m, p, c)[n] == m[n].(first := if n == p && m[p].first == Some(c) then m[c].next else m[n].first,
                                            last := if n == p && m[p].last == Some(c) then m[c].prev else m[n].last)
  {
  }

  lemma CutOutIs(m: Forest, c: nat)
    requires c in m && m[c].prev != Some(c) && m[c].next != Some(c)
    ensures CutOut(m, c).Keys == m.Keys
    ensures forall n | n in m ::
              CutOut(m, c)[n] == Links(
                if n == c then None else m[n].parent,
                if n == c then None else if m[c].next == Some(n) then m[c].prev else m[n].prev,
                if n == c then None else if m[c].prev == Some(n) then m[c].next else m[n].next,
                m[n].first, m[n].last)
  {
  }

  lemma UnlinkIs(m: Forest, p: nat, c: nat)
    requires p in m && c in m && m[c].prev != Some(c) && m[c].next != Some(c)
    ensures Unlink(m, p, c).Keys == m.Keys
    ensures forall n | n in m :: Unlink(m, p, c)[n] == UnlinkedAt(m, p, c, n)
  {
    hide StepOver, CutOut;
    StepOverIs(m, p, c);
    CutOutIs(StepOver(m, p, c), c);
  }

  /** A child's neighbours in its list. */
  lemma Neighbours(m: Forest, l: Lists, p: nat, i: nat)
    requires Listed(m, l) && p in m && i < |l[p]|
    ensures var c := l[p][i];
            c in m && m[c].parent == Some(p) && m[c].prev != Some(c) && m[c].next != Some(c) &&
            m[c].prev == (if i == 0 then None else Some(l[p][i - 1])) &&
            m[c].next == if i + 1 == |l[p]| then None else Some(l[p][i + 1])
  {
    assert KidOk(m, p, l[p], i);
  }

  lemma UnlinkedList(m: Forest, l: Lists, p: nat, i: nat)
    requires Listed(m, l) && p in m && p in l && i < |l[p]| && l[p][i] in m
    ensures p in Unlink(m, p, l[p][i]) && ListOk(Unlink(m, p, l[p][i]), p, l[p][..i] + l[p][i + 1..])
  {
    hide Unlink, Listed, MemberOk;
    var c, s := l[p][i], l[p][..i] + l[p][i + 1..];
    Ends(m, l, p);
    Neighbours(m, l, p, i);
    UnlinkIs(m, p, c);
    forall j: nat | j < |s| ensures KidOk(Unlink(m, p, c), p, s, j) {
      Neighbours(m, l, p, if j < i then j else j + 1);
    }
  }

  lemma OtherList(m: Forest, l: Lists, p: nat, i: nat, q: nat)
    requires Listed(m, l) && p in m && q in m && p in l && q in l && p != q && i < |l[p]| && l[p][i] in m
    ensures q in Unlink(m, p, l[p][i]) && ListOk(Unlink(m, p, l[p][i]), q, l[q])
  {
    hide Unlink, Listed, MemberOk;
    var c := l[p][i];
    Ends(m, l, q);
    Neighbours(m, l, p, i);
    UnlinkIs(m, p, c);
    forall j: nat | j < |l[q]| ensures KidOk(Unlink(m, p, c), q, l[q], j) {
      Neighbours(m, l, q, j);
      ListsApart(m, l, p, i, q, j);
      if i > 0 {
        ListsApart(m, l, p, i - 1, q, j);
      }
      if i + 1 < |l[p]| {
        ListsApart(m, l, p, i + 1, q, j);
      }
    }
  }

  lemma UnlinkedMembers(m: Forest, l: Lists, p: nat, i: nat, n: nat)
    requires Listed(m, l) && p in m && p in l && i < |l[p]| && l[p][i] in m && n in m
    ensures n in Unlink(m, p, l[p][i]) && MemberOk(Unlink(m, p, l[p][i]), l[p := l[p][..i] + l[p][i + 1..]], n)
  {
    hide Unlink, Listed;
    var c, s := l[p][i], l[p][..i] + l[p][i + 1..];
    Neighbours(m, l, p, i);
    UnlinkIs(m, p, c);
    MemberIn(m, l, n);
    if n != c && m[n].parent == Some(p) {
      var k :| 0 <= k < |l[p]| && l[p][k] == n;
      assert s[if k < i then k else k - 1] == n;
    } else if n != c && m[n].parent.None? {
      if i > 0 {
        Neighbours(m, l, p, i - 1);
      }
      if i + 1 < |l[p]| {
        Neighbours(m, l, p, i + 1);
      }
    }
  }

  lemma MemberIn(m: Forest, l: Lists, n: nat)
    requires Listed(m, l) && n in m
    ensures MemberOk(m, l, n) && m.Keys == l.Keys
  {
  }

  /** A node that is unlinked leaves its list, and nothing else changes. */
  lemma UnlinkKeeps(m: Forest, l: Lists, p: nat, c: nat)
    requires Listed(m, l) && p in m && c in m && m[c].parent == Some(p)
    ensures Listed(Unlink(m, p, c), l[p := Without(l[p], c)]) && Unlink(m, p, c)[c].parent == None
    ensures forall n | n in m && n != c :: n in Unlink(m, p, c) && Unlink(m, p, c)[n].parent == m[n].parent
  {
    hide Unlink, ListOk, KidOk, UnlinkedAt, Without, Listed;
    MemberIn(m, l, c);
    var i :| 0 <= i < |l[p]| && l[p][i] == c;
    Ends(m, l, p);
    WithoutAt(l[p], i);
    Neighbours(m, l, p, i);
    UnlinkedParents(m, p, c);
    var m' := Unlink(m, p, c);
    UnlinkedList(m, l, p, i);
    forall q | q in m' && q != p ensures ListOk(m', q, l[q]) {
      OtherList(m, l, p, i, q);
    }
    forall n | n in m' ensures MemberOk(m', l[p := l[p][..i] + l[p][i + 1..]], n) {
      UnlinkedMembers(m, l, p, i, n);
    }
    AllListed(m', l[p := l[p][..i] + l[p][i + 1..]]);
  }

  lemma AllListed(m: Forest, l: Lists)
    requires m.Keys == l.Keys && (forall p | p in m :: ListOk(m, p, l[p])) && forall n | n in m :: MemberOk(m, l, n)
    ensures Listed(m, l)
  {
  }

  lemma UnlinkedParents(m: Forest, p: nat, c: nat)
    requires p in m && c in m && m[c].prev != Some(c) && m[c].next != Some(c)
    ensures var m' := Unlink(m, p, c);
            m'.Keys == m.Keys && forall n | n in m :: m'[n].parent == if n == c then None else m[n].parent
  {
    hide Unlink;
    UnlinkIs(m, p, c);
  }

  lemma Ends(m: Forest, l: Lists, p: nat)
    requires Listed(m, l) && p in m
    ensures m.Keys == l.Keys && forall i, j | 0 <= i < j < |l[p]| :: l[p][i] != l[p][j]
    ensures m[p].first == (if l[p] == [] then None else Some(l[p][0]))
    ensures m[p].last == (if l[p] == [] then None else Some(l[p][|l[p]| - 1]))
  {
  }

  // ---------------------------------------------------------------- insertion

  /** What putting `c` between two neighbours makes of one node's links. */
  function InsertedAt(m: Forest, p: nat, before: Option<nat>, after: Option<nat>, c: nat, n: nat): Links
    requires n in m
  {
    Links(
      if n == c then Some(p) else m[n].parent,
      if n == c then before else if after == Some(n) then Some(c) else m[n].prev,
      if n == c then after else if before == Some(n) then Some(c) else m[n].next,
      if n == p && before.None? then Some(c) else m[n].first,
      if n == p && after.None? then Some(c) else m[n].last)
  }

  ghost predicate Inserted(m: Forest, m': Forest, p: nat, before: Option<nat>, after: Option<nat>, c: nat) {
    m'.Keys == m.Keys && forall n | n in m :: m'[n] == InsertedAt(m, p, before, after, c, n)
  }

  lemma AttachEndIs(m: Forest, p: nat, c: nat)
    requires p in m && c in m && m[p].last != Some(c) && (m[p].last.Some? ==> m[p].first.Some? && m[p].last.value in m)
    requires m[p].last.None? ==> m[p].first.None?
    ensures Inserted(m, AttachEnd(m, p, c), p, m[p].last, None, c)
  {
  }

  lemma AttachFirstIs(m: Forest, p: nat, c: nat)
    requires p in m && c in m && m[p].first != Some(c)
    requires (m[p].first.Some? ==> m[p].last.Some? && m[p].first.value in m)
    requires m[p].first.None? ==> m[p].last.None?
    ensures Inserted(m, AttachFirst(m, p, c), p, None, m[p].first, c)
  {
  }

  lemma AttachAfterIs(m: Forest, p: nat, a: nat, c: nat)
    requires p in m && c in m && a in m && a != c && m[a].next.Some? && m[a].next.value in m && m[a].next != Some(c)
    requires m[a].next != Some(a)
    ensures Inserted(m, AttachAfter(m, p, a, c), p, Some(a), m[a].next, c)
  {
  }

  function PutAt(s: seq<nat>, k: nat, c: nat): seq<nat>
    requires k <= |s|
  {
    s[..k] + [c] + s[k..]
  }

  /** A node without a parent is in no list. */
  lemma Outside(m: Forest, l: Lists, c: nat, q: nat, j: nat)
    requires Listed(m, l) && c in m && m[c].parent == None && q in m && q in l && j < |l[q]|
    ensures l[q][j] != c
  {
    Neighbours(m, l, q, j);
  }

  lemma InsertedList(m: Forest, l: Lists, m': Forest, p: nat, k: nat, c: nat)
    requires Listed(m, l) && p in m && p in l && c in m && m[c].parent == None && k <= |l[p]|
    requires Inserted(m, m', p, if k == 0 then None else Some(l[p][k - 1]), if k == |l[p]| then None else Some(l[p][k]),
                      c)
    ensures p in m' && ListOk(m', p, PutAt(l[p], k, c))
  {
    hide Listed, MemberOk;
    var s := PutAt(l[p], k, c);
    Ends(m, l, p);
    forall j: nat | j < |l[p]| ensures l[p][j] != c {
      Outside(m, l, c, p, j);
    }
    forall j: nat | j < |s| ensures KidOk(m', p, s, j) {
      if j != k {
        Neighbours(m, l, p, if j < k then j else j - 1);
      }
    }
  }

  lemma InsertedOther(m: Forest, l: Lists, m': Forest, p: nat, k: nat, c: nat, q: nat)
    requires Listed(m, l) && p in m && p in l && c in m && m[c].parent == None && k <= |l[p]| && q in m && q in l
    requires q != p
    requires Inserted(m, m', p, if k == 0 then None else Some(l[p][k - 1]), if k == |l[p]| then None else Some(l[p][k]),
                      c)
    ensures q in m' && ListOk(m', q, l[q])
  {
    hide Listed, MemberOk;
    Ends(m, l, q);
    forall j: nat | j < |l[q]| ensures KidOk(m', q, l[q], j) {
      Neighbours(m, l, q, j);
      Outside(m, l, c, q, j);
      if k > 0 {
        ListsApart(m, l, p, k - 1, q, j);
      }
      if k < |l[p]| {
        ListsApart(m, l, p, k, q, j);
      }
    }
  }

  lemma InsertedMember(m: Forest, l: Lists, m': Forest, p: nat, k: nat, c: nat, n: nat)
    requires Listed(m, l) && p in m && p in l && c in m && m[c].parent == None && k <= |l[p]| && n in m
    requires Inserted(m, m', p, if k == 0 then None else Some(l[p][k - 1]), if k == |l[p]| then None else Some(l[p][k]),
                      c)
    ensures n in m' && MemberOk(m', l[p := PutAt(l[p], k, c)], n)
  {
    hide Listed;
    var s := PutAt(l[p], k, c);
    MemberIn(m, l, n);
    if n == c {
      assert s[k] == c;
    } else if m[n].parent == Some(p) {
      var j :| 0 <= j < |l[p]| && l[p][j] == n;
      assert s[if j < k then j else j + 1] == n;
    } else if m[n].parent.None? {
      if k > 0 {
        Outside(m, l, n, p, k - 1);
      }
      if k < |l[p]| {
        Outside(m, l, n, p, k);
      }
    }
  }

  /** A node without a parent that is put between two neighbours is in their list there, and nothing else
      changes. */
  lemma InsertKeeps(m: Forest, l: Lists, m': Forest, p: nat, k: nat, c: nat)
    requires Listed(m, l) && p in m && p in l && c in m && m[c].parent == None && k <= |l[p]|
    requires Inserted(m, m', p, if k == 0 then None else Some(l[p][k - 1]), if k == |l[p]| then None else Some(l[p][k]),
                      c)
    ensures Listed(m', l[p := PutAt(l[p], k, c)])
  {
    hide Listed, MemberOk, ListOk, InsertedAt;
    MemberIn(m, l, c);
    InsertedList(m, l, m', p, k, c);
    forall q | q in m' && q != p ensures ListOk(m', q, l[q]) {
      InsertedOther(m, l, m', p, k, c, q);
    }
    forall n | n in m' ensures MemberOk(m', l[p := PutAt(l[p], k, c)], n) {
      InsertedMember(m, l, m', p, k, c, n);
    }
    AllListed(m', l[p := PutAt(l[p], k, c)]);
  }

  // ---------------------------------------------------------------- the operations

  /** The lists after a node has left its parent, if it has one. */
  function Freed(m: Forest, l: Lists, c: nat): Lists
    requires c in m && (m[c].parent.Some? ==> m[c].parent.value in l)
  {
    match m[c].parent
    case None => l
    case Some(q) => l[q := Without(l[q], c)]
  }

  lemma {:induction false} PreambleKeeps(m: Forest, l: Lists, c: nat)
    requires Listed(m, l) && c in m
    ensures m[c].parent.Some? ==> m[c].parent.value in m
    ensures Listed(Preamble(m, c), Freed(m, l, c)) && c in Preamble(m, c) && Preamble(m, c)[c].parent == None
    ensures Preamble(m, c).Keys == m.Keys == Freed(m, l, c).Keys
  {
    hide Unlink;
    MemberIn(m, l, c);
    if m[c].parent.Some? {
      UnlinkKeeps(m, l, m[c].parent.value, c);
    }
  }

  function InsertEndChild(m: Forest, p: nat, c: nat): Forest
    requires p in m && c in m && (m[c].parent.Some? ==> m[c].parent.value in m)
  {
    var m0 := Preamble(m, c);
    if p in m0 && c in m0 then AttachEnd(m0, p, c) else m0
  }

  function InsertFirstChild(m: Forest, p: nat, c: nat): Forest
    requires p in m && c in m && (m[c].parent.Some? ==> m[c].parent.value in m)
  {
    var m0 := Preamble(m, c);
    if p in m0 && c in m0 then AttachFirst(m0, p, c) else m0
  }

  /** Refused stands for the null result, and Crashed for the access through a null pointer. */
  datatype Outcome = Refused | Crashed | Done(forest: Forest)

  function InsertAfterChild(m: Forest, p: nat, a: nat, c: nat): Outcome
    requires p in m && c in m && a in m && (m[c].parent.Some? ==> m[c].parent.value in m)
  {
    if m[a].parent != Some(p) then Refused
    else if a == c then Done(m)
    else if m[a].next.None? then Done(InsertEndChild(m, p, c))
    else
      var m0 := Preamble(m, c);
      if p !in m0 || c !in m0 || a !in m0 || m0[a].next.None? then Crashed else Done(AttachAfter(m0, p, a, c))
  }

  /** `InsertEndChild` moves the node from wherever it was to the end of the list. */
  lemma InsertEndIsAppend(m: Forest, l: Lists, p: nat, c: nat)
    requires Listed(m, l) && p in m && c in m && (m[c].parent.Some? ==> m[c].parent.value in m)
    ensures var l0 := Freed(m, l, c); p in l0 && Listed(InsertEndChild(m, p, c), l0[p := l0[p] + [c]])
  {
    hide Listed, Preamble, AttachEnd, Freed;
    MemberIn(m, l, c);
    PreambleKeeps(m, l, c);
    var m0, l0 := Preamble(m, c), Freed(m, l, c);
    Ends(m0, l0, p);
    LastIsOther(m0, l0, p, c);
    AttachEndIs(m0, p, c);
    InsertKeeps(m0, l0, AttachEnd(m0, p, c), p, |l0[p]|, c);
    assert PutAt(l0[p], |l0[p]|, c) == l0[p] + [c];
  }

  /** `InsertFirstChild` moves it to the front. */
  lemma InsertFirstIsPrepend(m: Forest, l: Lists, p: nat, c: nat)
    requires Listed(m, l) && p in m && c in m && (m[c].parent.Some? ==> m[c].parent.value in m)
    ensures var l0 := Freed(m, l, c); p in l0 && Listed(InsertFirstChild(m, p, c), l0[p := [c] + l0[p]])
  {
    hide Listed, Preamble, AttachFirst, Freed;
    MemberIn(m, l, c);
    PreambleKeeps(m, l, c);
    var m0, l0 := Preamble(m, c), Freed(m, l, c);
    Ends(m0, l0, p);
    LastIsOther(m0, l0, p, c);
    AttachFirstIs(m0, p, c);
    InsertKeeps(m0, l0, AttachFirst(m0, p, c), p, 0, c);
    assert PutAt(l0[p], 0, c) == [c] + l0[p];
  }

  /** The sequence with `c` behind `a`. */
  function After(s: seq<nat>, a: nat, c: nat): seq<nat> {
    if s == [] then [] else if s[0] == a then [a, c] + s[1..] else [s[0]] + After(s[1..], a, c)
  }

  lemma {:induction false} AfterAt(s: seq<nat>, i: nat, c: nat)
    requires i < |s| && forall j | 0 <= j < i :: s[j] != s[i]
    ensures After(s, s[i], c) == PutAt(s, i + 1, c)
    decreases i
  {
    if i > 0 {
      AfterAt(s[1..], i - 1, c);
      assert s[1..][..i] == s[1..i + 1] && s[1..][i..] == s[i + 1..];
      assert s[..i + 1] == [s[0]] + s[1..i + 1];
    } else {
      assert s[..1] == [s[0]];
    }
  }

  /** Where the sibling stands once the node has been freed. */
  lemma SiblingFreed(m: Forest, l: Lists, p: nat, a: nat, c: nat) returns (i: nat)
    requires Listed(m, l) && p in m && c in m && a in m && m[a].parent == Some(p) && a != c
    requires m[c].parent.Some? ==> m[c].parent.value in m
    ensures var m0, l0 := Preamble(m, c), Freed(m, l, c);
            m0.Keys == m.Keys == l0.Keys && Listed(m0, l0) && m0[c].parent == None && i < |l0[p]| && l0[p][i] == a &&
            m0[a].next == if m[a].next == Some(c) then m[c].next else m[a].next
  {
    hide Unlink, Listed, Preamble;
    MemberIn(m, l, c);
    PreambleKeeps(m, l, c);
    var m0, l0 := Preamble(m, c), Freed(m, l, c);
    NextFreed(m, l, p, a, c);
    MemberIn(m0, l0, a);
    i :| 0 <= i < |l0[p]| && l0[p][i] == a;
  }

  lemma NextFreed(m: Forest, l: Lists, p: nat, a: nat, c: nat)
    requires Listed(m, l) && p in m && c in m && a in m && m[a].parent == Some(p) && a != c
    requires m[c].parent.Some? ==> m[c].parent.value in m
    ensures a in Preamble(m, c) && Preamble(m, c)[a].parent == Some(p)
    ensures Preamble(m, c)[a].next == if m[a].next == Some(c) then m[c].next else m[a].next
  {
    hide Unlink, Listed, ListOk, KidOk;
    MemberIn(m, l, a);
    var i :| 0 <= i < |l[p]| && l[p][i] == a;
    Neighbours(m, l, p, i);
    if i + 1 < |l[p]| {
      Neighbours(m, l, p, i + 1);
    }
    MemberIn(m, l, c);
    if m[c].parent.Some? {
      var q := m[c].parent.value;
      var j :| 0 <= j < |l[q]| && l[q][j] == c;
      Neighbours(m, l, q, j);
      if j > 0 {
        Neighbours(m, l, q, j - 1);
      }
      UnlinkIs(m, q, c);
    }
  }

  lemma {:induction false} MovedBehind(m: Forest, l: Lists, p: nat, a: nat, c: nat)
    requires Listed(m, l) && p in m && c in m && a in m && m[a].parent == Some(p) && a != c
    requires m[c].parent.Some? ==> m[c].parent.value in m && m[c].parent.value in l
    requires a in Preamble(m, c) && p in Preamble(m, c) && c in Preamble(m, c) && Preamble(m, c)[a].next.Some?
    ensures var l0 := Freed(m, l, c);
            p in l0 && Listed(AttachAfter(Preamble(m, c), p, a, c), l0[p := After(l0[p], a, c)])
  {
    hide Listed, Preamble, AttachAfter, Freed, After, Inserted;
    var i := SiblingFreed(m, l, p, a, c);
    var m0, l0 := Preamble(m, c), Freed(m, l, c);
    Ends(m0, l0, p);
    Neighbours(m0, l0, p, i);
    Neighbours(m0, l0, p, i + 1);
    AfterAt(l0[p], i, c);
    AttachAfterIs(m0, p, a, c);
    InsertKeeps(m0, l0, AttachAfter(m0, p, a, c), p, i + 1, c);
  }

  lemma MovedToEnd(m: Forest, l: Lists, p: nat, a: nat, c: nat)
    requires Listed(m, l) && p in m && c in m && a in m && m[a].parent == Some(p) && a != c && m[a].next == None
    requires m[c].parent.Some? ==> m[c].parent.value in m && m[c].parent.value in l
    ensures var l0 := Freed(m, l, c); p in l0 && Listed(InsertEndChild(m, p, c), l0[p := After(l0[p], a, c)])
  {
    hide Listed, Preamble, Freed, After, InsertEndChild;
    var i := SiblingFreed(m, l, p, a, c);
    var m0, l0 := Preamble(m, c), Freed(m, l, c);
    Ends(m0, l0, p);
    Neighbours(m0, l0, p, i);
    AfterAt(l0[p], i, c);
    InsertEndIsAppend(m, l, p, c);
    assert PutAt(l0[p], i + 1, c) == l0[p] + [c];
  }

  /** `InsertAfterChild` moves the node behind its new sibling, unless it is that sibling's next one and
      the last: then, and only then, the sibling has no next one when the code looks again. */
  lemma InsertAfterIsInsert(m: Forest, l: Lists, p: nat, a: nat, c: nat)
    requires Listed(m, l) && p in m && c in m && a in m
    requires (m[c].parent.Some? ==> m[c].parent.value in m && m[c].parent.value in l)
    ensures var r := InsertAfterChild(m, p, a, c);
            (r == Refused <==> m[a].parent != Some(p)) &&
            (r == Crashed <==> m[a].parent == Some(p) && a != c && m[a].next == Some(c) && m[c].next == None) &&
            (r.Done? && a == c ==> r.forest == m)
    ensures var r, l0 := InsertAfterChild(m, p, a, c), Freed(m, l, c);
            r.Done? && a != c ==> p in l0 && Listed(r.forest, l0[p := After(l0[p], a, c)])
  {
    hide Listed, Preamble, AttachAfter, Freed, InsertEndChild, After;
    if m[a].parent == Some(p) && a != c {
      var i := SiblingFreed(m, l, p, a, c);
      if m[a].next.None? {
        MovedToEnd(m, l, p, a, c);
      } else if Preamble(m, c)[a].next.Some? {
        MovedBehind(m, l, p, a, c);
      }
    }
  }

  lemma LastIsOther(m: Forest, l: Lists, p: nat, c: nat)
    requires Listed(m, l) && p in m && c in m && m[c].parent == None
    ensures l[p] != [] ==> l[p][0] != c && l[p][0] in m && l[p][|l[p]| - 1] != c && l[p][|l[p]| - 1] in m
  {
    if l[p] != [] {
      Neighbours(m, l, p, 0);
      Neighbours(m, l, p, |l[p]| - 1);
    }
  }
}
