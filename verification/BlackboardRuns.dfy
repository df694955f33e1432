/** Sequences of edits of the blackboards of a tree, their backup, and the action that watches an entry.
    The methods are proved to do what the functions of `EditModel` say; for an entry that an edit makes,
    the new object is its name. */
module BlackboardRuns {
  import opened Wrappers
  import opened BlackboardModel
  import opened Blackboards
  import opened EditModel

  /** Distinct blackboards that hold all their ancestors. */
  ghost predicate World(bs: seq<Blackboard>) {
    (forall i, j | 0 <= i < j < |bs| :: bs[i] != bs[j]) && forall i | 0 <= i < |bs| :: Rooted(bs, bs[i])
  }

  ghost predicate Rooted(bs: seq<Blackboard>, b: Blackboard) {
    b.WellFormed() && forall l | 0 <= l < |b.scope| :: b.scope[l] in bs
  }

  ghost function IndexOf(bs: seq<Blackboard>, b: Blackboard): (i: nat)
    requires b in bs
    ensures i < |bs| && bs[i] == b
  {
    var i :| 0 <= i < |bs| && bs[i] == b;
    i
  }

  /** The wiring of a world. */
  ghost function Paths(bs: seq<Blackboard>): (r: seq<seq<nat>>)
    requires World(bs)
    ensures |r| == |bs| && Shaped(r) && forall i | 0 <= i < |bs| :: PathOf(bs, bs[i], r[i])
  {
    var r := seq(|bs|, i requires 0 <= i < |bs| => Path(bs, bs[i]));
    PathsAreShaped(bs, r);
    r
  }

  ghost function Path(bs: seq<Blackboard>, b: Blackboard): (r: seq<nat>)
    requires World(bs) && b in bs
    ensures PathOf(bs, b, r)
  {
    seq(|b.scope|, l requires 0 <= l < |b.scope| => IndexOf(bs, b.scope[l]))
  }

  ghost predicate PathOf(bs: seq<Blackboard>, b: Blackboard, path: seq<nat>) {
    |path| == |b.scope| && forall l | 0 <= l < |path| :: path[l] < |bs| && bs[path[l]] == b.scope[l]
  }

  lemma PathsAreShaped(bs: seq<Blackboard>, paths: seq<seq<nat>>)
    requires World(bs) && |paths| == |bs| && forall i | 0 <= i < |bs| :: PathOf(bs, bs[i], paths[i])
    ensures Shaped(paths)
  {
    forall i, l, m | 0 <= i < |bs| && 0 <= l < m < |paths[i]| ensures paths[i][l] != paths[i][m] {
      bs[i].ScopeDiffers(l, m);
    }
  }

  ghost function Entries(bs: seq<Blackboard>): set<Entry>
    reads bs
  {
    set i, k | 0 <= i < |bs| && k in bs[i].storage :: bs[i].storage[k]
  }

  /** What entries hold. */
  ghost function Cells(entries: set<Entry>): map<Entry, Cell>
    reads entries
  {
    map x | x in entries :: CellOf(x)
  }

  ghost function CellOf(x: Entry): Cell
    reads x
  {
    Cell(x.value, x.info, x.sequenceId)
  }

  /** The boards of a world and what the entries known hold. */
  ghost function Snapshot(bs: seq<Blackboard>, known: set<Entry>): (r: Store<Entry>)
    reads bs, known
    ensures |r.boards| == |bs|
  {
    Store(Blackboard.Boards(bs), Cells(known))
  }

  function Named(made: Option<Entry>): set<Entry> {
    if made.Some? then {made.value} else {}
  }

  ghost function AllNamed(made: seq<Option<Entry>>): set<Entry> {
    set i | 0 <= i < |made| && made[i].Some? :: made[i].value
  }

  lemma ModelIsChain(bs: seq<Blackboard>, at: nat)
    requires World(bs) && at < |bs|
    ensures bs[at].WellFormed() && bs[at].Model() == Chain(Paths(bs), Blackboard.Boards(bs), at)
  {
    assert bs[at].WellFormed();
    ChainOf(bs, at);
  }

  lemma ChainOf(bs: seq<Blackboard>, at: nat)
    requires World(bs) && at < |bs| && bs[at].WellFormed()
    ensures bs[at].Model() == Chain(Paths(bs), Blackboard.Boards(bs), at)
  {
    hide World, Paths, Shaped, Blackboard.WellFormed, Blackboard.Model, Blackboard.Boards;
    assert PathOf(bs, bs[at], Paths(bs)[at]);
  }

  lemma PlaceIsGoal(bs: seq<Blackboard>, at: nat, key: string)
    requires World(bs) && at < |bs|
    ensures SetPlace(bs[at].Model(), key) == Goal(Paths(bs), Blackboard.Boards(bs), at, key)
  {
    ModelIsChain(bs, at);
  }

  lemma PathIsScope(bs: seq<Blackboard>, at: nat, i: nat)
    requires World(bs) && at < |bs| && i < |bs|
    ensures i in Paths(bs)[at] <==> bs[i] in bs[at].scope
  {
    assert PathOf(bs, bs[at], Paths(bs)[at]);
    if bs[i] in bs[at].scope {
      var l :| 0 <= l < |bs[at].scope| && bs[at].scope[l] == bs[i];
      assert Paths(bs)[at][l] == i;
    }
  }

  /** What happens to the boards a blackboard sees happens to the world. */
  lemma WorldFollows(
    bs: seq<Blackboard>, boards: seq<Board<Entry>>, at: nat, before: seq<Board<Entry>>, p: Place<Entry>, e: Entry?)
    requires World(bs) && at < |bs| == |boards| && before == Chain(Paths(bs), boards, at)
    requires forall i | 0 <= i < |bs| && bs[i] !in bs[at].scope :: Blackboard.Boards(bs)[i] == boards[i]
    requires bs[at].WellFormed() && bs[at].Model() == Blackboard.After(before, p, e)
    requires p.Vacant? ==> p.level < |bs[at].scope|
    ensures Blackboard.Boards(bs) ==
            if p.Vacant? && e != null then Insert(boards, Paths(bs)[at][p.level], p.key, e) else boards
  {
    hide Insert, Shaped, Chain, World, Paths, Blackboard.Boards, Blackboard.Model, Blackboard.WellFormed;
    ModelIsChain(bs, at);
    forall i | 0 <= i < |bs| && i !in Paths(bs)[at] ensures Blackboard.Boards(bs)[i] == boards[i] {
      PathIsScope(bs, at, i);
    }
    if p.Vacant? && e != null {
      ChainDecidesInsert(Paths(bs), boards, Blackboard.Boards(bs), at, p.level, p.key, e);
    } else {
      ChainDecides(Paths(bs), boards, Blackboard.Boards(bs), at);
    }
  }

  /** `set` and what it leaves in the entry found or made. */
  method SetCell(b: Blackboard, casts: Casts, edit: Edit) returns (ghost e: Entry?)
    requires b.WellFormed() && edit.SetKey?
    modifies b.scope, b.Written(edit.key)
    ensures var p := SetPlace(old(b.Model()), edit.key);
            && b.Model() == Blackboard.After(old(b.Model()), p, e)
            && (p.Found? ==>
                  CellOf(p.entry) == Rewritten(casts, edit, Own(|b.scope|, edit.key, p.level), old(CellOf(p.entry))))
            && (p.Vacant? ==> e != null && fresh(e) && CellOf(e) == NewCell(edit))
  {
    hide Owner, SetPlace, Blackboard.WellFormed, Blackboard.After, Blackboard.Model, Blackboard.Boards, Lookup,
         PlainTargets, Blackboard.GetEntry, Blackboard.Outcome, Insert, Blackboard.Written;
    OwnIsOwner(b.Model(), edit.key);
    var ok;
    ok, e := b.Set(casts, edit.key, edit.t, edit.value);
  }

  /** The boards of a world after an edit that found or made `e`. */
  ghost function BoardsAfter(
    bs: seq<Blackboard>, boards: seq<Board<Entry>>, at: nat, p: Place<Entry>, e: Entry?): seq<Board<Entry>>
    requires World(bs) && at < |bs| == |boards| && (p.Vacant? ==> p.level < |Paths(bs)[at]|)
  {
    if p.Vacant? && e != null then Insert(boards, Paths(bs)[at][p.level], p.key, e) else boards
  }

  /** `set` and what becomes of the world's boards. */
  method SetBoards(bs: seq<Blackboard>, casts: Casts, edit: Edit, ghost known: set<Entry>) returns (ghost e: Entry?)
    requires World(bs) && edit.at < |bs| && edit.SetKey?
    modifies bs, Entries(bs)
    ensures var p := Goal(Paths(bs), old(Blackboard.Boards(bs)), edit.at, edit.key);
            && Blackboard.Boards(bs) == BoardsAfter(bs, old(Blackboard.Boards(bs)), edit.at, p, e)
            && (p.Found? ==> p.entry in old(Entries(bs)))
            && (p.Found? ==>
                  var own := Own(|Paths(bs)[edit.at]|, edit.key, p.level);
                  CellOf(p.entry) == Rewritten(casts, edit, own, old(CellOf(p.entry))))
            && (p.Vacant? ==> e != null && fresh(e) && CellOf(e) == NewCell(edit))
            && (forall x | x in known && (p.Found? ==> x != p.entry) :: CellOf(x) == old(CellOf(x)))
  {
    hide World, Owner, SetPlace, Paths, Blackboard.WellFormed, Blackboard.After, Blackboard.Model, Blackboard.Boards,
         Lookup, PlainTargets, Blackboard.GetEntry, Shaped, Chain, Entries, Insert, Blackboard.Written, Rewritten,
         NewCell, Own, Goal;
    ghost var b, boards := bs[edit.at], Blackboard.Boards(bs);
    ModelIsChain(bs, edit.at);
    PlaceIsGoal(bs, edit.at, edit.key);
    WrittenInWorld(bs, edit.at, edit.key);
    ghost var p, before := SetPlace(b.Model(), edit.key), b.Model();
    e := SetCell(bs[edit.at], casts, edit);
    WorldFollows(bs, boards, edit.at, before, p, e);
  }

  /** `set` in a world. */
  method SetInWorld(bs: seq<Blackboard>, casts: Casts, edit: Edit, ghost known: set<Entry>)
    returns (ghost made: Option<Entry>)
    requires World(bs) && edit.at < |bs| && edit.SetKey? && Entries(bs) <= known
    modifies bs, Entries(bs)
    ensures made.Some? ==> fresh(made.value)
    ensures NamesOne(Paths(bs), old(Snapshot(bs, known)), edit, made)
    ensures Snapshot(bs, known + Named(made)) == Next(Paths(bs), casts, old(Snapshot(bs, known)), edit, made)
  {
    hide World, Paths, Blackboard.Boards, Shaped, Next, Entries, Insert, Rewritten, NewCell, Own, Goal, NamesOne,
         CellOf;
    ghost var s := Snapshot(bs, known);
    ghost var p := Goal(Paths(bs), s.boards, edit.at, edit.key);
    ghost var e := SetBoards(bs, casts, edit, known);
    made := if p.Vacant? then Option<Entry>.Some(e) else None;
    NextParts(Paths(bs), casts, s, edit, made, Blackboard.Boards(bs), Cells(known + Named(made)));
  }

  /** `createEntry` and what it leaves in the entry made. */
  method CreateCell(b: Blackboard, edit: Edit) returns (ghost e: Entry?)
    requires b.WellFormed() && edit.CreateKey?
    modifies b.scope
    ensures var p := if DoubleMark(edit) then NoParent else SetPlace(old(b.Model()), edit.key);
            && b.Model() == Blackboard.After(old(b.Model()), p, e)
            && (p.Vacant? ==> e != null && fresh(e) && CellOf(e) == NewCell(edit))
  {
    hide Owner, SetPlace, Blackboard.WellFormed, Blackboard.Model, Blackboard.Boards, Lookup, PlainTargets,
         Blackboard.GetEntry, Insert;
    PlaceInScope(b, edit.key);
    var r := b.CreateEntry(edit.key, edit.info);
    e := if r.Created? then r.entry else null;
  }

  lemma PlaceInScope(b: Blackboard, key: string)
    requires b.WellFormed()
    ensures var p := SetPlace(b.Model(), key); p.Vacant? ==> p.level < |b.Model()|
  {
  }

  /** `createEntry` and what becomes of the world's boards. */
  method CreateBoards(bs: seq<Blackboard>, edit: Edit, ghost known: set<Entry>) returns (ghost e: Entry?)
    requires World(bs) && edit.at < |bs| && edit.CreateKey?
    modifies bs
    ensures var boards := old(Blackboard.Boards(bs));
            var p := if DoubleMark(edit) then NoParent else Goal(Paths(bs), boards, edit.at, edit.key);
            && Blackboard.Boards(bs) == BoardsAfter(bs, boards, edit.at, p, e)
            && (p.Vacant? ==> e != null && fresh(e) && CellOf(e) == NewCell(edit))
    ensures forall x | x in known :: CellOf(x) == old(CellOf(x))
  {
    hide World, Owner, SetPlace, Paths, Blackboard.WellFormed, Blackboard.After, Blackboard.Model, Blackboard.Boards,
         Lookup, PlainTargets, Blackboard.GetEntry, Shaped, Chain, Insert, Goal, DoubleMark, NewCell, CellOf,
         Blackboard.Root, PlaceOf;
    ghost var b, boards := bs[edit.at], Blackboard.Boards(bs);
    ModelIsChain(bs, edit.at);
    PlaceIsGoal(bs, edit.at, edit.key);
    WrittenInWorld(bs, edit.at, edit.key);
    ghost var p, before := SetPlace(b.Model(), edit.key), b.Model();
    e := CreateCell(bs[edit.at], edit);
    WorldFollows(bs, boards, edit.at, before, if DoubleMark(edit) then NoParent else p, e);
  }

  /** `createEntry` in a world. */
  method CreateInWorld(bs: seq<Blackboard>, casts: Casts, edit: Edit, ghost known: set<Entry>)
    returns (ghost made: Option<Entry>)
    requires World(bs) && edit.at < |bs| && edit.CreateKey? && Entries(bs) <= known
    modifies bs
    ensures made.Some? ==> fresh(made.value)
    ensures NamesOne(Paths(bs), old(Snapshot(bs, known)), edit, made)
    ensures Snapshot(bs, known + Named(made)) == Next(Paths(bs), casts, old(Snapshot(bs, known)), edit, made)
  {
    hide World, Paths, Blackboard.Boards, Shaped, Entries, Insert, NewCell, Goal, CellOf;
    ghost var s := Snapshot(bs, known);
    ghost var p := Goal(Paths(bs), s.boards, edit.at, edit.key);
    FoundInWorld(bs, edit.at, edit.key);
    ghost var e := CreateBoards(bs, edit, known);
    made := if p.Vacant? && !DoubleMark(edit) then Option<Entry>.Some(e) else None;
    if !DoubleMark(edit) {
      NextParts(Paths(bs), casts, s, edit, made, Blackboard.Boards(bs), Cells(known + Named(made)));
    }
  }

  lemma FoundInWorld(bs: seq<Blackboard>, at: nat, key: string)
    requires World(bs) && at < |bs|
    ensures var p := Goal(Paths(bs), Blackboard.Boards(bs), at, key); p.Found? ==> p.entry in Entries(bs)
  {
    ModelIsChain(bs, at);
    WrittenInWorld(bs, at, key);
  }

  method UnsetInWorld(bs: seq<Blackboard>, casts: Casts, edit: Edit, ghost known: set<Entry>)
    requires World(bs) && edit.at < |bs| && edit.UnsetKey?
    modifies bs
    ensures Snapshot(bs, known) == Next(Paths(bs), casts, old(Snapshot(bs, known)), edit, None)
  {
    hide World, Paths, Shaped, Cells;
    WorldIsDistinct(bs);
    bs[edit.at].Unset(edit.key);
  }

  /** One edit of one blackboard of the world. */
  method Step(
    bs: seq<Blackboard>, casts: Casts, edit: Edit, ghost known: set<Entry>)
    returns (ghost made: Option<Entry>)
    requires World(bs) && edit.at < |bs| && Entries(bs) <= known
    modifies bs, Entries(bs)
    ensures made.Some? ==> fresh(made.value)
    ensures NamesOne(Paths(bs), old(Snapshot(bs, known)), edit, made)
    ensures Snapshot(bs, known + Named(made)) == Next(Paths(bs), casts, old(Snapshot(bs, known)), edit, made)
  {
    hide World, Paths, Shaped, Entries, Goal, Next, Snapshot;
    if edit.SetKey? {
      made := SetInWorld(bs, casts, edit, known);
    } else if edit.CreateKey? {
      made := CreateInWorld(bs, casts, edit, known);
    } else {
      UnsetInWorld(bs, casts, edit, known);
      made := None;
      assert known + Named(made) == known;
    }
  }

  lemma OwnIsOwner<E>(chain: seq<Board<E>>, key: string)
    requires chain != []
    ensures Owner(chain, key).0 == if RootKey(key) then |chain| - 1 else 0
  {
  }

  lemma WrittenInWorld(bs: seq<Blackboard>, at: nat, key: string)
    requires World(bs) && at < |bs|
    ensures bs[at].WellFormed() && bs[at].Written(key) <= Entries(bs)
    ensures var p := SetPlace(bs[at].Model(), key);
            bs[at].Written(key) == (if p.Found? then {p.entry} else {}) && (p.Found? ==> p.entry in Entries(bs))
    ensures forall i | 0 <= i < |bs[at].scope| :: bs[at].scope[i] in bs
  {
    var b := bs[at];
    var p := SetPlace(b.Model(), key);
    if p.Found? {
      var i := IndexOf(bs, b.scope[p.level]);
      assert p.entry == bs[i].storage[p.key];
    }
  }

  // ---------------------------------------------------------------- runs

  lemma HeldIsEntries(bs: seq<Blackboard>, known: set<Entry>)
    ensures Held(Snapshot(bs, known)) <==> Entries(bs) <= known
  {
    if Held(Snapshot(bs, known)) {
      forall x | x in Entries(bs) ensures x in known {
        var i, k :| 0 <= i < |bs| && k in bs[i].storage && bs[i].storage[k] == x;
        assert Snapshot(bs, known).boards[i].storage[k] == x;
      }
    }
  }

  /** Any sequence of edits does to the world what the model of edits says: every blackboard and every
      entry `known` holds what the edits determine, up to the names of the entries made. None of these is
      one of `others`. */
  method RunEdits(
    bs: seq<Blackboard>, casts: Casts, edits: seq<Edit>, ghost known: set<Entry>, ghost others: set<Entry>)
    returns (ghost made: seq<Option<Entry>>)
    requires World(bs) && InTree(Paths(bs), edits) && Entries(bs) <= known
    modifies bs, Entries(bs)
    ensures Names(Paths(bs), casts, old(Snapshot(bs, known)), edits, made)
    ensures forall x | x in AllNamed(made) :: fresh(x) && x !in others
    ensures Snapshot(bs, known + AllNamed(made)) == Run(Paths(bs), casts, old(Snapshot(bs, known)), edits, made)
    ensures Entries(bs) <= known + AllNamed(made) && forall x | x in Entries(bs) ::
            x in old(Entries(bs)) || x in AllNamed(made)
  {
    hide World, Paths, Shaped, Entries, Next, Snapshot, Owned, Held, Names, NamesOne, Run, AllNamed, EntriesOf;
    ghost var paths, s := Paths(bs), Snapshot(bs, known);
    made := [];
    var i := 0;
    RunStarts(bs, casts, known);
    HeldIsEntries(bs, known);
    EntriesAreOf(bs, known);
    while i < |edits|
      invariant i == |made| <= |edits| && (forall x | x in AllNamed(made) :: fresh(x) && x !in others)
      invariant Names(paths, casts, s, edits[..i], made)
      invariant Snapshot(bs, known + AllNamed(made)) == Run(paths, casts, s, edits[..i], made)
      invariant Entries(bs) <= known + AllNamed(made)
      invariant forall x | x in Entries(bs) :: x in old(Entries(bs)) || x in AllNamed(made)
    {
      ghost var before := Snapshot(bs, known + AllNamed(made));
      EntriesAreOf(bs, known + AllNamed(made));
      ghost var m := Step(bs, casts, edits[i], known + AllNamed(made));
      NextEntries(paths, casts, before, edits[i], m);
      RunStep(paths, casts, s, edits, i, made, m);
      AllNamedStep(known, made, m);
      made := made + [m];
      i := i + 1;
      RunHolds(paths, casts, s, edits[..i], made);
      HeldIsEntries(bs, known + AllNamed(made));
      EntriesAreOf(bs, known + AllNamed(made));
    }
    assert edits[..i] == edits;
  }

  lemma EntriesAreOf(bs: seq<Blackboard>, known: set<Entry>)
    ensures Snapshot(bs, known).boards == Blackboard.Boards(bs) && EntriesOf(Blackboard.Boards(bs)) == Entries(bs)
  {
    var boards := Snapshot(bs, known).boards;
    forall i, k | 0 <= i < |bs| && k in bs[i].storage ensures bs[i].storage[k] in EntriesOf(boards) {
      assert boards[i].storage[k] == bs[i].storage[k];
    }
  }

  lemma RunStarts(bs: seq<Blackboard>, casts: Casts, known: set<Entry>)
    requires World(bs)
    ensures AllNamed([]) == {} && Names(Paths(bs), casts, Snapshot(bs, known), [], [])
    ensures Snapshot(bs, known + AllNamed([])) == Run(Paths(bs), casts, Snapshot(bs, known), [], [])
  {
    assert known + AllNamed([]) == known;
  }

  lemma AllNamedStep(known: set<Entry>, made: seq<Option<Entry>>, m: Option<Entry>)
    ensures AllNamed(made + [m]) == AllNamed(made) + Named(m)
    ensures known + AllNamed(made) + Named(m) == known + AllNamed(made + [m])
  {
    forall x | x in AllNamed(made) + Named(m) ensures x in AllNamed(made + [m]) {
      if x in AllNamed(made) {
        var i :| 0 <= i < |made| && made[i] == Option<Entry>.Some(x);
        assert (made + [m])[i] == made[i];
      } else {
        assert (made + [m])[|made|] == m;
      }
    }
  }

  // ---------------------------------------------------------------- watching an entry

  lemma LookupIsGetEntry(bs: seq<Blackboard>, at: nat, key: string)
    requires World(bs) && at < |bs|
    ensures bs[at].WellFormed()
    ensures var e := bs[at].GetEntry(key);
            Lookup(Chain(Paths(bs), Blackboard.Boards(bs), at), key) == if e == null then None else Some(e)
  {
    ModelIsChain(bs, at);
    bs[at].GetEntryIsLookup(key);
  }

  lemma {:induction false} FoundInChain(chain: seq<Board<Entry>>, key: string)
    requires chain != [] && Lookup(chain, key).Some?
    ensures Lookup(chain, key).value in EntriesOf(chain)
    decreases |chain|, |key|
  {
    LookupStep(chain, key);
    if RootKey(key) {
      FoundInChain([chain[|chain| - 1]], key[1..]);
    } else if key !in chain[0].storage {
      FoundInChain(chain[1..], Target(chain[0], key).value);
    }
  }

  lemma ReadIsEntry(bs: seq<Blackboard>, at: nat, key: string)
    requires World(bs) && at < |bs| && bs[at].WellFormed() && bs[at].GetEntry(key) != null
    ensures bs[at].GetEntry(key) in Entries(bs)
  {
    hide Lookup, Blackboard.GetEntry;
    var b, e := bs[at], bs[at].GetEntry(key);
    b.GetEntryIsLookup(key);
    FoundInChain(b.Model(), key);
    var l, k :| 0 <= l < |b.Model()| && k in b.Model()[l].storage && b.Model()[l].storage[k] == e;
    assert bs[IndexOf(bs, b.scope[l])].storage[k] == e;
  }

  lemma CellsAre(bs: seq<Blackboard>, known: set<Entry>, x: Entry)
    requires x in known
    ensures x in Snapshot(bs, known).cells && Snapshot(bs, known).cells[x] == CellOf(x)
  {
  }

  /** How many of the edits write an entry: they are sets, their key leads to it, and they are accepted. */
  ghost function Writes(bs: seq<Blackboard>, casts: Casts, edits: seq<Edit>, e: Entry): nat
    requires World(bs) && InTree(Paths(bs), edits)
    reads bs, e
  {
    Replay(Paths(bs), casts, Blackboard.Boards(bs), edits, e, CellOf(e)).writes
  }

  /** Any sets and creations, with an eye on the entry of one key. */
  method EditWatched(bs: seq<Blackboard>, casts: Casts, edits: seq<Edit>, ghost at: nat, ghost key: string)
    requires World(bs) && at < |bs| && NoUnset(edits) && InTree(Paths(bs), edits)
    requires bs[at].WellFormed() && bs[at].GetEntry(key) != null && bs[at].GetEntry(key).sequenceId < WRAP
    modifies bs, Entries(bs)
    ensures var e := old(bs[at].GetEntry(key));
            && bs[at].GetEntry(key) == e
            && (e.sequenceId != old(e.sequenceId) <==> old(Writes(bs, casts, edits, e)) % WRAP != 0)
    ensures old(Writes(bs, casts, edits, bs[at].GetEntry(key))) <= |edits|
  {
    hide World, Paths, Chain, Entries, Snapshot, Lookup, Replay, Names, Run, Blackboard.GetEntry, Blackboard.Boards,
         Blackboard.WellFormed, NoUnset, InTree, Shaped, AllNamed;
    ghost var e, known := bs[at].GetEntry(key), Entries(bs);
    ghost var s := Snapshot(bs, known);
    LookupIsGetEntry(bs, at, key);
    ReadIsEntry(bs, at, key);
    CellsAre(bs, known, e);
    EntriesAreOf(bs, known);
    ghost var made := RunEdits(bs, casts, edits, known, {});
    LookupIsGetEntry(bs, at, key);
    CellsAre(bs, known + AllNamed(made), e);
    EntriesAreOf(bs, known + AllNamed(made));
    WatchedEntry(Paths(bs), casts, s, edits, made, at, key, e);
    ReplayCounts(Paths(bs), casts, s.boards, edits, e, s.cells[e]);
  }

  class EntryUpdatedAction {
    const blackboard: Blackboard
    const key: string
    var sequenceId: nat

    constructor (blackboard: Blackboard, key: string)
      ensures this.blackboard == blackboard && this.key == key && sequenceId == 0
    {
      this.blackboard, this.key, this.sequenceId := blackboard, key, 0;
    }

    /** Succeeds if the entry's counter is not the one seen last, and remembers it. */
    method Tick() returns (success: bool)
      requires blackboard.WellFormed()
      modifies this
      ensures var e := blackboard.GetEntry(key);
              success == (e != null && e.sequenceId != old(sequenceId)) &&
              sequenceId == if e != null then e.sequenceId else old(sequenceId)
    {
      var entry := blackboard.GetEntry(key);
      if entry == null {
        return false;
      }
      var currentId, previousId := entry.sequenceId, sequenceId;
      sequenceId := currentId;
      success := previousId != currentId;
    }

    /** A tick leaves the blackboards alone. */
    method TickAmong(bs: seq<Blackboard>, casts: Casts, edits: seq<Edit>, ghost e: Entry) returns (success: bool)
      requires World(bs) && blackboard in bs && InTree(Paths(bs), edits)
      requires blackboard.WellFormed() && blackboard.GetEntry(key) == e
      modifies this
      ensures blackboard.GetEntry(key) == e && Writes(bs, casts, edits, e) == old(Writes(bs, casts, edits, e))
      ensures e.sequenceId == old(e.sequenceId) && Entries(bs) == old(Entries(bs))
      ensures success == (e.sequenceId != old(sequenceId)) && sequenceId == e.sequenceId
    {
      hide World, Paths, Entries, Writes, Blackboard.GetEntry, Blackboard.WellFormed, InTree;
      success := Tick();
    }

    /** Between two ticks any sets and creations may happen: the second tick succeeds exactly when they
        write the entry, but for whole rounds of its counter. */
    method TickTwice(bs: seq<Blackboard>, casts: Casts, edits: seq<Edit>) returns (success: bool)
      requires World(bs) && blackboard in bs && NoUnset(edits) && InTree(Paths(bs), edits)
      requires blackboard.WellFormed() && blackboard.GetEntry(key) != null && blackboard.GetEntry(key).sequenceId < WRAP
      modifies this, bs, Entries(bs)
      ensures var e := old(blackboard.GetEntry(key));
              blackboard.GetEntry(key) == e && (success <==> old(Writes(bs, casts, edits, e)) % WRAP != 0)
      ensures old(Writes(bs, casts, edits, blackboard.GetEntry(key))) <= |edits|
    {
      hide World, Paths, Entries, Writes, Blackboard.GetEntry, Blackboard.WellFormed, NoUnset, InTree;
      ghost var at, e := IndexOf(bs, blackboard), blackboard.GetEntry(key);
      ReadIsEntry(bs, at, key);
      var first := TickAmong(bs, casts, edits, e);
      ghost var seen, n := sequenceId, Writes(bs, casts, edits, e);
      EditWatched(bs, casts, edits, at, key);
      assert e.sequenceId != seen <==> n % WRAP != 0;
      success := Tick();
    }
  }

  // ---------------------------------------------------------------- backup and restore

  /** The same keys with the same values and types. */
  ghost predicate SameValues(x: map<string, Holding>, y: map<string, Holding>) {
    x.Keys == y.Keys && forall k | k in x :: y[k].value == x[k].value && y[k].info == x[k].info
  }

  /** What was `was` has been overwritten with `src`. */
  ghost predicate Overwritten(src: map<string, Holding>, was: map<string, Holding>, now: map<string, Holding>) {
    now.Keys == src.Keys && forall k | k in src :: Cloned(src[k], was, k, now[k])
  }

  /** Under keys that are still there the entries are the same and have counted a step; entries under
      other keys are new and have counted none. */
  ghost predicate Resumed(was: map<string, Holding>, now: map<string, Holding>) {
    forall k | k in now ::
      if k in was then now[k].entry == was[k].entry && now[k].sequenceId == (was[k].sequenceId + 1) % WRAP
      else now[k].sequenceId == 0
  }

  /** What a blackboard holds in a store. */
  ghost function Holdings(s: Store<Entry>, i: nat): map<string, Holding>
    requires i < |s.boards|
  {
    map k | k in s.boards[i].storage && s.boards[i].storage[k] in s.cells :: HoldingOf(s, s.boards[i].storage[k])
  }

  ghost function HoldingOf(s: Store<Entry>, e: Entry): Holding
    requires e in s.cells
  {
    Holding(e, s.cells[e].value, s.cells[e].info, s.cells[e].steps)
  }

  lemma HoldingsAre(bs: seq<Blackboard>, known: set<Entry>, i: nat)
    requires i < |bs| && Entries(bs) <= known
    ensures Holdings(Snapshot(bs, known), i) == bs[i].Contents()
  {
    assert forall k | k in bs[i].storage :: bs[i].storage[k] in Entries(bs);
  }

  /** A copy of every blackboard of a tree, none of which holds anything that existed before. */
  method BlackboardBackup(bs: seq<Blackboard>) returns (backup: seq<Blackboard>)
    ensures |backup| == |bs|
    ensures forall i | 0 <= i < |bs| :: fresh(backup[i]) && SameValues(bs[i].Contents(), backup[i].Contents())
    ensures forall i, k | 0 <= i < |bs| && k in backup[i].storage ::
            fresh(backup[i].storage[k]) && backup[i].storage[k] !in Entries(bs)
  {
    ghost var entries := Entries(bs);
    backup := [];
    while |backup| < |bs|
      invariant |backup| <= |bs|
      invariant forall i | 0 <= i < |backup| :: fresh(backup[i]) && SameValues(bs[i].Contents(), backup[i].Contents())
      invariant forall i, k | 0 <= i < |backup| && k in backup[i].storage ::
                fresh(backup[i].storage[k]) && backup[i].storage[k] !in entries
    {
      var bb := BackupOne(bs[|backup|], entries);
      backup := backup + [bb];
    }
  }

  method BackupOne(b: Blackboard, ghost older: set<Entry>) returns (bb: Blackboard)
    ensures fresh(bb) && SameValues(b.Contents(), bb.Contents())
    ensures forall k | k in bb.storage :: fresh(bb.storage[k]) && bb.storage[k] !in older
  {
    bb := new Blackboard(null);
    b.CloneInto(bb);
    bb.ContentsHold();
  }

  /** Blackboards and the copies to restore them from share nothing. */
  ghost predicate Separate(backup: seq<Blackboard>, bs: seq<Blackboard>)
    requires |backup| == |bs|
    reads backup, bs
  {
    && (forall i, j | 0 <= i < j < |bs| :: bs[i] != bs[j])
    && (forall i, j | 0 <= i < |bs| && 0 <= j < |bs| :: backup[i] != bs[j] && backup[i].Apart(bs[j]))
  }

  method BlackboardRestore(backup: seq<Blackboard>, bs: seq<Blackboard>)
    requires |backup| == |bs| && Separate(backup, bs) && Owned(Blackboard.Boards(bs))
    modifies bs, Entries(bs)
    ensures forall i | 0 <= i < |bs| :: Overwritten(backup[i].Contents(), old(bs[i].Contents()), bs[i].Contents())
    ensures forall i | 0 <= i < |bs| :: backup[i].Contents() == old(backup[i].Contents())
  {
    hide Owned, Overwritten, Blackboard.Boards;
    ghost var entries := Entries(bs);
    var i := 0;
    while i < |bs|
      invariant i <= |bs| && Separate(backup, bs) && Owned(Blackboard.Boards(bs))
      invariant forall x | x in Entries(bs) :: x in entries || fresh(x)
      invariant forall j | 0 <= j < |bs| :: backup[j].Contents() == old(backup[j].Contents())
      invariant forall j | 0 <= j < i :: Overwritten(backup[j].Contents(), old(bs[j].Contents()), bs[j].Contents())
      invariant forall j | i <= j < |bs| :: bs[j].Contents() == old(bs[j].Contents())
    {
      RestoreOne(backup, bs, i);
      i := i + 1;
    }
  }

  /** Restoring one blackboard leaves the others and all copies alone. */
  method RestoreOne(backup: seq<Blackboard>, bs: seq<Blackboard>, i: nat)
    requires i < |bs| == |backup| && Separate(backup, bs) && Owned(Blackboard.Boards(bs))
    modifies bs[i], bs[i].storage.Values
    ensures Overwritten(backup[i].Contents(), old(bs[i].Contents()), bs[i].Contents())
    ensures forall j | 0 <= j < |bs| && j != i :: bs[j].Contents() == old(bs[j].Contents())
    ensures forall j | 0 <= j < |bs| :: backup[j].Contents() == old(backup[j].Contents())
    ensures Separate(backup, bs) && Owned(Blackboard.Boards(bs))
    ensures forall x | x in Entries(bs) :: x in old(Entries(bs)) || fresh(x)
  {
    hide Owned, Overwritten, Blackboard.Boards, Cloned, Storages, Separate, Disjoint, Entries, Blackboard.Apart,
         Blackboard.Contents, Blackboard.OwnsEntries;
    ghost var were, copies, older := Storages(bs), Storages(backup), Entries(bs) + Entries(backup);
    OwnedApart(backup, bs, i);
    DisjointNow(backup, bs);
    StoragesAre(bs);
    EntriesNow(bs);
    CloneOne(backup[i], bs[i], older);
    StoragesAre(bs);
    assert Storages(bs) == were[i := bs[i].storage];
    OwnedNow(bs[i]);
    DisjointReplaced(were, copies, older, i, bs[i].storage);
    DisjointWorld(backup, bs, older + bs[i].storage.Values);
    EntriesInStorages(bs, were, i, old(Entries(bs)));
  }

  lemma OwnedNow(b: Blackboard)
    requires b.OwnsEntries()
    ensures forall j, k | j in b.storage && k in b.storage && j != k :: b.storage[j] != b.storage[k]
    ensures forall k | k in b.storage :: b.storage[k] in b.storage.Values
  {
  }

  ghost function Storages(bs: seq<Blackboard>): (r: seq<map<string, Entry>>)
    reads bs
    ensures |r| == |bs|
  {
    if bs == [] then [] else [bs[0].storage] + Storages(bs[1..])
  }

  lemma {:induction false} StoragesAre(bs: seq<Blackboard>)
    ensures forall i | 0 <= i < |bs| :: Storages(bs)[i] == bs[i].storage
  {
    if bs != [] {
      StoragesAre(bs[1..]);
      assert bs == [bs[0]] + bs[1..];
    }
  }

  /** No entry is held twice, neither by a blackboard nor by a copy, and all of them are `older`. */
  ghost predicate Disjoint(were: seq<map<string, Entry>>, copies: seq<map<string, Entry>>, older: set<Entry>) {
    && (forall i, j, k, l | 0 <= i < |were| && 0 <= j < |were| && k in were[i] && l in were[j] && (i != j || k != l) ::
        were[i][k] != were[j][l])
    && (forall i, j, k, l | 0 <= i < |were| && 0 <= j < |copies| && k in were[i] && l in copies[j] ::
        were[i][k] != copies[j][l])
    && (forall i, k | 0 <= i < |were| && k in were[i] :: were[i][k] in older)
    && (forall i, k | 0 <= i < |copies| && k in copies[i] :: copies[i][k] in older)
  }

  lemma {:induction false} DisjointNow(backup: seq<Blackboard>, bs: seq<Blackboard>)
    requires |backup| == |bs| && Separate(backup, bs) && Owned(Blackboard.Boards(bs))
    ensures Disjoint(Storages(bs), Storages(backup), Entries(bs) + Entries(backup))
    ensures forall i, j | 0 <= i < j < |bs| :: bs[i] != bs[j]
    ensures forall i, j | 0 <= i < |bs| && 0 <= j < |bs| :: backup[i] != bs[j]
  {
    StoragesAre(bs);
    StoragesAre(backup);
    assert forall i | 0 <= i < |bs| :: Blackboard.Boards(bs)[i].storage == bs[i].storage;
  }

  /** One blackboard's entries have been kept or made anew: nothing is held twice still. */
  lemma DisjointReplaced(
    were: seq<map<string, Entry>>, copies: seq<map<string, Entry>>, older: set<Entry>, i: nat, m: map<string, Entry>)
    requires i < |were| && Disjoint(were, copies, older)
    requires forall j, k | j in m && k in m && j != k :: m[j] != m[k]
    requires forall k | k in m :: m[k] in were[i].Values || m[k] !in older
    ensures Disjoint(were[i := m], copies, older + m.Values)
  {
    var now := were[i := m];
    forall a, b, k, l | 0 <= a < |now| && 0 <= b < |now| && k in now[a] && l in now[b] && (a != b || k != l)
      ensures now[a][k] != now[b][l]
    {
      if a != b && (a == i || b == i) {
        var (x, y) := if a == i then (k, l) else (l, k);
        NotTaken(were, older, i, m, x, if a == i then b else a, y);
      }
    }
    forall a, b, k, l | 0 <= a < |now| && 0 <= b < |copies| && k in now[a] && l in copies[b]
      ensures now[a][k] != copies[b][l]
    {
      assert copies[b][l] in older;
    }
  }

  /** A new or kept entry of one blackboard is not one of another. */
  lemma NotTaken(
    were: seq<map<string, Entry>>, older: set<Entry>, i: nat, m: map<string, Entry>, x: string, j: nat, y: string)
    requires i < |were| && j < |were| && i != j && x in m && y in were[j] && were[j][y] in older
    requires forall k | k in were[i] :: were[i][k] != were[j][y]
    requires m[x] in were[i].Values || m[x] !in older
    ensures m[x] != were[j][y]
  {
  }

  lemma {:induction false} DisjointWorld(backup: seq<Blackboard>, bs: seq<Blackboard>, older: set<Entry>)
    requires |backup| == |bs| && Disjoint(Storages(bs), Storages(backup), older)
    requires forall j, l | 0 <= j < l < |bs| :: bs[j] != bs[l]
    requires forall j, l | 0 <= j < |bs| && 0 <= l < |bs| :: backup[j] != bs[l]
    ensures Separate(backup, bs) && Owned(Blackboard.Boards(bs))
  {
    StoragesAre(bs);
    StoragesAre(backup);
    assert forall j | 0 <= j < |bs| :: Blackboard.Boards(bs)[j].storage == bs[j].storage;
  }

  lemma EntriesInStorages(bs: seq<Blackboard>, were: seq<map<string, Entry>>, i: nat, entries: set<Entry>)
    requires i < |bs| == |were| && (forall j | 0 <= j < |bs| && j != i :: bs[j].storage == were[j])
    requires forall j, k | 0 <= j < |were| && k in were[j] :: were[j][k] in entries
    ensures forall x | x in Entries(bs) :: x in entries || x in bs[i].storage.Values
  {
    forall x | x in Entries(bs) ensures x in entries || x in bs[i].storage.Values {
      var j, k :| 0 <= j < |bs| && k in bs[j].storage && bs[j].storage[k] == x;
    }
  }

  lemma EntriesNow(bs: seq<Blackboard>)
    ensures forall j, k | 0 <= j < |bs| && k in Storages(bs)[j] :: Storages(bs)[j][k] in Entries(bs)
  {
    StoragesAre(bs);
  }

  method CloneOne(src: Blackboard, dst: Blackboard, ghost older: set<Entry>)
    requires src != dst && src.Apart(dst) && dst.OwnsEntries()
    modifies dst`storage, dst.storage.Values
    ensures src.Contents() == old(src.Contents()) && dst.OwnsEntries()
    ensures Overwritten(src.Contents(), old(dst.Contents()), dst.Contents())
    ensures forall x | x in dst.storage.Values :: x in old(dst.storage.Values) || (fresh(x) && x !in older)
  {
    ghost var was := dst.storage;
    src.CloneInto(dst);
    dst.ContentsHold();
    forall k | k in dst.storage ensures dst.storage[k] in old(dst.storage.Values) || fresh(dst.storage[k]) {
      if k in was {
        assert was[k] in was.Values;
      }
    }
  }

  /** Blackboards that share nothing are out of each other's way. */
  lemma OwnedApart(backup: seq<Blackboard>, bs: seq<Blackboard>, i: nat)
    requires i < |bs| == |backup| && Separate(backup, bs) && Owned(Blackboard.Boards(bs))
    ensures bs[i].OwnsEntries() && backup[i] != bs[i] && backup[i].Apart(bs[i])
    ensures forall j | 0 <= j < |bs| && j != i :: bs[j] != bs[i] && bs[j].storage.Values !! bs[i].storage.Values
    ensures forall j | 0 <= j < |bs| :: backup[j] != bs[i] && backup[j].storage.Values !! bs[i].storage.Values
  {
    forall j, k | 0 <= j < |bs| && k in bs[j].storage ensures Blackboard.Boards(bs)[j].storage[k] == bs[j].storage[k] {
    }
  }

  /** A run takes no entry of the copies into the world. */
  method RunApart(bs: seq<Blackboard>, casts: Casts, edits: seq<Edit>, ghost backup: seq<Blackboard>)
    returns (ghost made: seq<Option<Entry>>)
    requires World(bs) && InTree(Paths(bs), edits) && Owned(Blackboard.Boards(bs))
    requires |backup| == |bs| && Separate(backup, bs)
    modifies bs, Entries(bs)
    ensures Separate(backup, bs) && Owned(Blackboard.Boards(bs))
    ensures forall x | x in Entries(bs) :: x in old(Entries(bs)) || fresh(x)
    ensures forall i | 0 <= i < |bs| :: backup[i].Contents() == old(backup[i].Contents())
    ensures Names(Paths(bs), casts, old(Snapshot(bs, Entries(bs))), edits, made)
    ensures var r := Run(Paths(bs), casts, old(Snapshot(bs, Entries(bs))), edits, made);
            forall i | 0 <= i < |bs| :: Holdings(r, i) == bs[i].Contents()
  {
    hide World, Owned, Blackboard.Boards, Separate, Blackboard.Contents, Entries, Blackboard.Apart, Paths, Names, Run,
         AllNamed, Snapshot, Holdings, InTree, Held;
    ghost var others, entries := Entries(backup), Entries(bs);
    ghost var s := Snapshot(bs, entries);
    SeparateEntries(backup, bs);
    EntriesNow(backup);
    StoragesAre(backup);
    EntriesAreOf(bs, entries);
    HeldIsEntries(bs, entries);
    made := RunEdits(bs, casts, edits, entries, others);
    EntriesSeparate(backup, bs);
    RunOwns(Paths(bs), casts, s, edits, made);
    EntriesAreOf(bs, entries + AllNamed(made));
    forall i | 0 <= i < |bs| ensures Holdings(Snapshot(bs, entries + AllNamed(made)), i) == bs[i].Contents() {
      HoldingsAre(bs, entries + AllNamed(made), i);
    }
  }

  lemma SeparateEntries(backup: seq<Blackboard>, bs: seq<Blackboard>)
    requires |backup| == |bs| && Separate(backup, bs)
    ensures Entries(backup) !! Entries(bs)
    ensures forall i, j | 0 <= i < |bs| && 0 <= j < |bs| :: backup[i] != bs[j]
    ensures forall i, j | 0 <= i < j < |bs| :: bs[i] != bs[j]
    ensures forall i | 0 <= i < |bs| :: backup[i].storage.Values !! Entries(bs)
  {
  }

  lemma EntriesSeparate(backup: seq<Blackboard>, bs: seq<Blackboard>)
    requires |backup| == |bs| && Entries(backup) !! Entries(bs)
    requires forall i, j | 0 <= i < |bs| && 0 <= j < |bs| :: backup[i] != bs[j]
    requires forall i, j | 0 <= i < j < |bs| :: bs[i] != bs[j]
    ensures Separate(backup, bs)
  {
    forall i, j, k, l | 0 <= i < |bs| && 0 <= j < |bs| && k in backup[i].storage && l in bs[j].storage
      ensures backup[i].storage[k] != bs[j].storage[l]
    {
      assert backup[i].storage[k] in Entries(backup) && bs[j].storage[l] in Entries(bs);
    }
  }

  /** Whatever happens between backup and restore, every blackboard has its old keys again, with the old
      values and types; under keys that the edits leave there the entries keep their identity and count a
      step. Without removals that is every entry, and what it counts are the writes to it and one more. */
  method BackupEditRestore(bs: seq<Blackboard>, casts: Casts, edits: seq<Edit>) returns (ghost made: seq<Option<Entry>>)
    requires World(bs) && InTree(Paths(bs), edits) && Owned(Blackboard.Boards(bs))
    modifies bs, Entries(bs)
    ensures forall i | 0 <= i < |bs| :: SameValues(old(bs[i].Contents()), bs[i].Contents())
    ensures Names(Paths(bs), casts, old(Snapshot(bs, Entries(bs))), edits, made)
    ensures var r := Run(Paths(bs), casts, old(Snapshot(bs, Entries(bs))), edits, made);
            forall i | 0 <= i < |bs| :: Resumed(Holdings(r, i), bs[i].Contents())
    ensures NoUnset(edits) ==>
              forall i | 0 <= i < |bs| ::
                Persisted(bs, casts, edits, old(Snapshot(bs, Entries(bs))), i, bs[i].Contents())
  {
    hide *;
    WorldIsDistinct(bs);
    ghost var entries, start := Entries(bs), AllContents(bs);
    ghost var s := Snapshot(bs, entries);
    HeldIsEntries(bs, entries);
    forall i | 0 <= i < |bs| ensures Holdings(s, i) == start[i] {
      HoldingsAre(bs, entries, i);
    }
    var backup := BlackboardBackup(bs);
    BackupApart(backup, bs, entries);
    EntriesSeparate(backup, bs);
    made := RunApart(bs, casts, edits, backup);
    ghost var edited := AllContents(bs);
    BlackboardRestore(backup, bs);
    forall i | 0 <= i < |bs| ensures SameValues(start[i], bs[i].Contents()) && Resumed(edited[i], bs[i].Contents()) {
      OverwrittenSame(start[i], backup[i].Contents(), edited[i], bs[i].Contents());
    }
    if NoUnset(edits) {
      forall i | 0 <= i < |bs| ensures Persisted(bs, casts, edits, s, i, bs[i].Contents()) {
        ResumedPersists(bs, casts, edits, s, made, i, bs[i].Contents());
      }
    }
  }

  /** Every key of a blackboard still leads it to the entry of the store `s`, whose counter has moved by
      the writes to it and one step. */
  ghost predicate Persisted(
    bs: seq<Blackboard>, casts: Casts, edits: seq<Edit>, s: Store<Entry>, i: nat, now: map<string, Holding>)
    requires World(bs) && InTree(Paths(bs), edits) && |s.boards| == |bs| && i < |bs|
  {
    forall k | k in s.boards[i].storage && s.boards[i].storage[k] in s.cells ::
      var e := s.boards[i].storage[k];
      && k in now && now[k].entry == e
      && now[k].sequenceId ==
           (s.cells[e].steps + Replay(Paths(bs), casts, s.boards, edits, e, s.cells[e]).writes + 1) % WRAP
  }

  lemma ResumedPersists(
    bs: seq<Blackboard>, casts: Casts, edits: seq<Edit>, s: Store<Entry>, made: seq<Option<Entry>>, i: nat,
    now: map<string, Holding>)
    requires World(bs) && InTree(Paths(bs), edits) && |s.boards| == |bs| && i < |bs| && NoUnset(edits)
    requires Names(Paths(bs), casts, s, edits, made) && Resumed(Holdings(Run(Paths(bs), casts, s, edits, made), i), now)
    requires SameValues(Holdings(s, i), now)
    ensures Persisted(bs, casts, edits, s, i, now)
  {
    hide World, Paths, InTree, Names, Run, Replay, NoUnset;
    var paths := Paths(bs);
    NamesAll(paths, casts, s, edits, made);
    var r := Run(paths, casts, s, edits, made);
    RunKeeps(paths, casts, s, edits, made);
    forall k | k in s.boards[i].storage && s.boards[i].storage[k] in s.cells
      ensures var e := s.boards[i].storage[k];
              now[k].entry == e && now[k].sequenceId ==
                (s.cells[e].steps + Replay(paths, casts, s.boards, edits, e, s.cells[e]).writes + 1) % WRAP
    {
      var e := s.boards[i].storage[k];
      RunIsReplay(paths, casts, s, edits, made, e);
      ReplayCounts(paths, casts, s.boards, edits, e, s.cells[e]);
      assert k in Holdings(r, i) && k in Holdings(s, i);
      StepWraps(r.cells[e].steps);
      StepWraps(s.cells[e].steps + Replay(paths, casts, s.boards, edits, e, s.cells[e]).writes);
    }
  }

  ghost function AllContents(bs: seq<Blackboard>): (r: seq<map<string, Holding>>)
    reads bs, Entries(bs)
    ensures |r| == |bs| && forall i | 0 <= i < |bs| :: r[i] == bs[i].Contents()
  {
    if bs == [] then []
    else
      var n := |bs| - 1;
      assert Entries(bs[..n]) <= Entries(bs) && bs[n].storage.Values <= Entries(bs);
      AllContents(bs[..n]) + [bs[n].Contents()]
  }

  lemma OverwrittenSame(
    start: map<string, Holding>, src: map<string, Holding>, was: map<string, Holding>, now: map<string, Holding>)
    requires SameValues(start, src) && Overwritten(src, was, now)
    ensures SameValues(start, now) && Resumed(was, now)
  {
  }

  lemma BackupApart(backup: seq<Blackboard>, bs: seq<Blackboard>, entries: set<Entry>)
    requires |backup| == |bs| && entries == Entries(bs)
    requires forall i, k | 0 <= i < |bs| && k in backup[i].storage :: backup[i].storage[k] !in entries
    ensures Entries(backup) !! Entries(bs)
  {
  }

  lemma WorldIsDistinct(bs: seq<Blackboard>)
    requires World(bs)
    ensures forall i, j | 0 <= i < j < |bs| :: bs[i] != bs[j]
  {
  }
}
