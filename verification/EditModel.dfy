/** What edits of the blackboards of a tree come to, as values: a sequence of edits determines the final
    blackboards, up to the names of new entries. */
module EditModel {
  import opened Wrappers
  import opened BlackboardModel
  import opened Blackboards

  datatype Edit =
    | SetKey(at: nat, key: string, t: TypeId, value: Any)
    | CreateKey(at: nat, key: string, info: TypeId)
    | UnsetKey(at: nat, key: string)

  /** What an entry holds. */
  datatype Cell = Cell(value: Any, info: TypeId, steps: nat)

  /** All blackboards of a tree, and what the entries hold. */
  datatype Store<E> = Store(boards: seq<Board<E>>, cells: map<E, Cell>)

  /** The wiring of a tree: for each blackboard the numbers of itself and its ancestors up to the root. */
  predicate Shaped(paths: seq<seq<nat>>) {
    forall i | 0 <= i < |paths| ::
      && paths[i] != []
      && (forall l | 0 <= l < |paths[i]| :: paths[i][l] < |paths|)
      && (forall l, m | 0 <= l < m < |paths[i]| :: paths[i][l] != paths[i][m])
  }

  /** The blackboards that the blackboard `at` sees. */
  function Chain<E>(paths: seq<seq<nat>>, boards: seq<Board<E>>, at: nat): (r: seq<Board<E>>)
    requires Shaped(paths) && |boards| == |paths| && at < |paths|
    ensures |r| == |paths[at]|
  {
    seq(|paths[at]|, l requires 0 <= l < |paths[at]| => boards[paths[at][l]])
  }

  /** Where a key leads a set or a creation. */
  function Goal<E>(paths: seq<seq<nat>>, boards: seq<Board<E>>, at: nat, key: string): (r: Place<E>)
    requires Shaped(paths) && |boards| == |paths| && at < |paths|
    ensures r.Found? || r.Vacant? ==> r.level < |paths[at]|
  {
    SetPlace(Chain(paths, boards, at), key)
  }

  /** `createEntry` refuses a second mark of the root. */
  predicate DoubleMark(edit: Edit) {
    edit.CreateKey? && RootKey(edit.key) && '@' in edit.key[1..]
  }

  /** Whether the entry at a level of a chain is judged as the blackboard's own. */
  predicate Own(length: nat, key: string, level: nat) {
    level == if RootKey(key) then length - 1 else 0
  }

  /** What a set of an entry makes of it, if it is accepted. */
  function Judged(casts: Casts, edit: Edit, own: bool, c: Cell): Verdict
    requires edit.SetKey?
  {
    Blackboard.Outcome(casts, own, c.info, c.value, edit.t, edit.value)
  }

  /** An accepted set counts a step; one that is refused changes nothing. */
  function Rewritten(casts: Casts, edit: Edit, own: bool, c: Cell): (r: Cell)
    requires edit.SetKey?
    ensures StronglyTyped(c.info) ==> r.info == c.info
  {
    var v := Judged(casts, edit, own, c);
    if v.Stored? then Cell(v.value, v.info, (c.steps + 1) % WRAP) else c
  }

  /** What an edit puts in the entry it makes. */
  function NewCell(edit: Edit): Cell
    requires !edit.UnsetKey?
  {
    if edit.SetKey? then Cell(edit.value, Blackboard.NewType(edit.t, edit.value), 1)
    else Cell(Any(edit.info, None), edit.info, 0)
  }

  /** The edits that make an entry. */
  predicate Makes<E>(paths: seq<seq<nat>>, boards: seq<Board<E>>, edit: Edit)
    requires Shaped(paths) && |boards| == |paths| && edit.at < |paths|
  {
    !edit.UnsetKey? && !DoubleMark(edit) && Goal(paths, boards, edit.at, edit.key).Vacant?
  }

  /** One edit; an entry it makes is called `made`. */
  function Next<E(==)>(paths: seq<seq<nat>>, casts: Casts, s: Store<E>, edit: Edit, made: Option<E>): (r: Store<E>)
    requires Shaped(paths) && |s.boards| == |paths| && edit.at < |paths|
    ensures |r.boards| == |paths|
  {
    if edit.UnsetKey? then s.(boards := Remove(s.boards, edit.at, edit.key))
    else if DoubleMark(edit) then s
    else
      match Goal(paths, s.boards, edit.at, edit.key)
      case NoParent => s
      case Found(level, _, e) =>
        if edit.SetKey? && e in s.cells
        then s.(cells := s.cells[e := Rewritten(casts, edit, Own(|paths[edit.at]|, edit.key, level), s.cells[e])])
        else s
      case Vacant(level, key) =>
        if made.None? then s
        else Store(Insert(s.boards, paths[edit.at][level], key, made.value), s.cells[made.value := NewCell(edit)])
  }

  function Remove<E>(boards: seq<Board<E>>, at: nat, key: string): seq<Board<E>>
    requires at < |boards|
  {
    boards[at := boards[at].(storage := boards[at].storage - {key})]
  }

  predicate InTree(paths: seq<seq<nat>>, edits: seq<Edit>) {
    forall i | 0 <= i < |edits| :: edits[i].at < |paths|
  }

  predicate NoUnset(edits: seq<Edit>) {
    forall i | 0 <= i < |edits| :: !edits[i].UnsetKey?
  }

  /** A sequence of edits. */
  function Run<E(==)>(
    paths: seq<seq<nat>>, casts: Casts, s: Store<E>, edits: seq<Edit>, made: seq<Option<E>>): (r: Store<E>)
    requires Shaped(paths) && |s.boards| == |paths| && InTree(paths, edits) && |made| == |edits|
    ensures |r.boards| == |paths|
  {
    if edits == [] then s
    else
      var n := |edits| - 1;
      Next(paths, casts, Run(paths, casts, s, edits[..n], made[..n]), edits[n], made[n])
  }

  /** `made` names the entries that the edits make, and each of them is new. */
  predicate Names<E(==)>(paths: seq<seq<nat>>, casts: Casts, s: Store<E>, edits: seq<Edit>, made: seq<Option<E>>)
    requires Shaped(paths) && |s.boards| == |paths| && InTree(paths, edits)
  {
    |made| == |edits| &&
    (edits == [] ||
     var n := |edits| - 1;
     Names(paths, casts, s, edits[..n], made[..n]) &&
     NamesOne(paths, Run(paths, casts, s, edits[..n], made[..n]), edits[n], made[n]))
  }

  predicate NamesOne<E(==)>(paths: seq<seq<nat>>, s: Store<E>, edit: Edit, made: Option<E>)
    requires Shaped(paths) && |s.boards| == |paths| && edit.at < |paths|
  {
    (made.Some? <==> Makes(paths, s.boards, edit)) && (made.Some? ==> made.value !in s.cells)
  }

  /** One edit more. */
  lemma RunStep<E>(
    paths: seq<seq<nat>>, casts: Casts, s: Store<E>, edits: seq<Edit>, i: nat, made: seq<Option<E>>, m: Option<E>)
    requires Shaped(paths) && |s.boards| == |paths| && InTree(paths, edits) && i < |edits|
    requires Names(paths, casts, s, edits[..i], made)
    requires NamesOne(paths, Run(paths, casts, s, edits[..i], made), edits[i], m)
    ensures Names(paths, casts, s, edits[..i + 1], made + [m])
    ensures Run(paths, casts, s, edits[..i + 1], made + [m]) ==
            Next(paths, casts, Run(paths, casts, s, edits[..i], made), edits[i], m)
  {
    assert edits[..i + 1][..i] == edits[..i] && (made + [m])[..i] == made;
  }

  lemma NamesAll<E>(paths: seq<seq<nat>>, casts: Casts, s: Store<E>, edits: seq<Edit>, made: seq<Option<E>>)
    requires Shaped(paths) && |s.boards| == |paths| && InTree(paths, edits) && Names(paths, casts, s, edits, made)
    ensures |made| == |edits|
  {
  }

  /** The parts of one edit that is not a removal: the boards, the entry it found or made, all others. */
  lemma NextParts<E>(
    paths: seq<seq<nat>>, casts: Casts, s: Store<E>, edit: Edit, made: Option<E>, boards: seq<Board<E>>,
    cells: map<E, Cell>)
    requires Shaped(paths) && |s.boards| == |paths| && edit.at < |paths| && !edit.UnsetKey? && !DoubleMark(edit)
    requires var p := Goal(paths, s.boards, edit.at, edit.key);
             && (p.Vacant? <==> made.Some?) && (made.Some? ==> made.value !in s.cells)
             && boards == (if p.Vacant? then Insert(s.boards, paths[edit.at][p.level], p.key, made.value) else s.boards)
             && cells.Keys == s.cells.Keys + (if made.Some? then {made.value} else {})
             && (made.Some? ==> cells[made.value] == NewCell(edit))
             && (p.Found? ==> p.entry in s.cells)
             && (p.Found? ==>
                   var own := Own(|paths[edit.at]|, edit.key, p.level);
                   cells[p.entry] == if edit.SetKey? then Rewritten(casts, edit, own, s.cells[p.entry])
                     else s.cells[p.entry])
             && (forall x | x in s.cells && (p.Found? ==> x != p.entry) && (made.Some? ==> x != made.value) ::
                   cells[x] == s.cells[x])
    ensures NamesOne(paths, s, edit, made) && Store(boards, cells) == Next(paths, casts, s, edit, made)
  {
    assert Store(boards, cells).cells == Next(paths, casts, s, edit, made).cells;
  }

  // ---------------------------------------------------------------- what a run keeps

  /** No entry is held twice. */
  ghost predicate Owned<E>(boards: seq<Board<E>>) {
    forall i, j, k, l | 0 <= i < |boards| && 0 <= j < |boards| && k in boards[i].storage && l in boards[j].storage &&
      (i != j || k != l) ::
      boards[i].storage[k] != boards[j].storage[l]
  }

  /** It is known what every entry holds. */
  ghost predicate Held<E>(s: Store<E>) {
    forall i, k | 0 <= i < |s.boards| && k in s.boards[i].storage :: s.boards[i].storage[k] in s.cells
  }

  ghost predicate Typed<E>(s: Store<E>, r: Store<E>) {
    forall x | x in s.cells :: x in r.cells && (StronglyTyped(s.cells[x].info) ==> r.cells[x].info == s.cells[x].info)
  }

  lemma {:induction false} RunTypes<E>(
    paths: seq<seq<nat>>, casts: Casts, s: Store<E>, edits: seq<Edit>, made: seq<Option<E>>)
    requires Shaped(paths) && |s.boards| == |paths| && InTree(paths, edits) && Names(paths, casts, s, edits, made)
    ensures Typed(s, Run(paths, casts, s, edits, made))
    decreases |edits|
  {
    if edits != [] {
      var n := |edits| - 1;
      RunTypes(paths, casts, s, edits[..n], made[..n]);
    }
  }

  /** What every entry holds stays known. */
  lemma {:induction false} RunHolds<E>(
    paths: seq<seq<nat>>, casts: Casts, s: Store<E>, edits: seq<Edit>, made: seq<Option<E>>)
    requires Shaped(paths) && |s.boards| == |paths| && InTree(paths, edits) && Names(paths, casts, s, edits, made)
    requires Held(s)
    ensures Held(Run(paths, casts, s, edits, made))
    decreases |edits|
  {
    hide Goal, SetPlace;
    if edits != [] {
      var n := |edits| - 1;
      RunHolds(paths, casts, s, edits[..n], made[..n]);
    }
  }

  /** No entry comes to be held twice. */
  lemma {:induction false} RunOwns<E>(
    paths: seq<seq<nat>>, casts: Casts, s: Store<E>, edits: seq<Edit>, made: seq<Option<E>>)
    requires Shaped(paths) && |s.boards| == |paths| && InTree(paths, edits) && Names(paths, casts, s, edits, made)
    requires Owned(s.boards) && Held(s)
    ensures Owned(Run(paths, casts, s, edits, made).boards)
    decreases |edits|
  {
    if edits != [] {
      var n := |edits| - 1;
      RunOwns(paths, casts, s, edits[..n], made[..n]);
      RunHolds(paths, casts, s, edits[..n], made[..n]);
      NextOwns(paths, casts, Run(paths, casts, s, edits[..n], made[..n]), edits[n], made[n]);
    }
  }

  lemma NextOwns<E>(paths: seq<seq<nat>>, casts: Casts, s: Store<E>, edit: Edit, made: Option<E>)
    requires Shaped(paths) && |s.boards| == |paths| && edit.at < |paths| && NamesOne(paths, s, edit, made)
    requires Owned(s.boards) && Held(s)
    ensures Owned(Next(paths, casts, s, edit, made).boards)
  {
    hide Goal, SetPlace, Owned;
    if made.Some? {
      var p := Goal(paths, s.boards, edit.at, edit.key);
      InsertOwns(s.boards, paths[edit.at][p.level], p.key, made.value);
    } else if edit.UnsetKey? {
      RemoveOwns(s.boards, edit.at, edit.key);
    }
  }

  ghost function EntriesOf<E>(boards: seq<Board<E>>): set<E> {
    set i, k | 0 <= i < |boards| && k in boards[i].storage :: boards[i].storage[k]
  }

  lemma NextEntries<E>(paths: seq<seq<nat>>, casts: Casts, s: Store<E>, edit: Edit, made: Option<E>)
    requires Shaped(paths) && |s.boards| == |paths| && edit.at < |paths|
    ensures EntriesOf(Next(paths, casts, s, edit, made).boards) <=
            EntriesOf(s.boards) + if made.Some? then {made.value} else {}
  {
    hide Goal, SetPlace;
    var r := Next(paths, casts, s, edit, made);
    forall i, k | 0 <= i < |r.boards| && k in r.boards[i].storage
      ensures r.boards[i].storage[k] in EntriesOf(s.boards) || (made.Some? && r.boards[i].storage[k] == made.value)
    {
      if k in s.boards[i].storage {
        assert s.boards[i].storage[k] in EntriesOf(s.boards);
      }
    }
  }

  lemma InsertOwns<E>(boards: seq<Board<E>>, j: nat, key: string, entry: E)
    requires j < |boards| && Owned(boards)
    requires forall i, k | 0 <= i < |boards| && k in boards[i].storage :: boards[i].storage[k] != entry
    ensures Owned(Insert(boards, j, key, entry))
  {
  }

  lemma RemoveOwns<E>(boards: seq<Board<E>>, j: nat, key: string)
    requires j < |boards| && Owned(boards)
    ensures Owned(Remove(boards, j, key))
  {
  }

  // ---------------------------------------------------------------- keys lead where they led

  /** A new entry at an unclaimed place is found by the keys that lead there, and changes where no other
      key leads. */
  lemma {:induction false} PlaceAfter<E>(chain: seq<Board<E>>, level: nat, key: string, entry: E, other: string)
    requires level < |chain| && Unclaimed(chain[level], key)
    ensures PlaceOf(Insert(chain, level, key, entry), other) ==
            if PlaceOf(chain, other) == Vacant(level, key) then Found(level, key, entry) else PlaceOf(chain, other)
    decreases |chain|
  {
    var after := Insert(chain, level, key, entry);
    InsertBelow(chain, level, key, entry, 1);
    if other !in chain[0].storage && Target(chain[0], other).Some? && |chain| > 1 {
      var up := Target(chain[0], other).value;
      if level > 0 {
        PlaceAfter(chain[1..], level - 1, key, entry, up);
      }
    }
  }

  lemma SetPlaceAfter<E>(chain: seq<Board<E>>, level: nat, key: string, entry: E, other: string)
    requires level < |chain| && Unclaimed(chain[level], key)
    ensures SetPlace(Insert(chain, level, key, entry), other) ==
            if SetPlace(chain, other) == Vacant(level, key) then Found(level, key, entry) else SetPlace(chain, other)
  {
    var after, from := Insert(chain, level, key, entry), Owner(chain, other).0;
    OwnerOfSame(chain, after, other);
    InsertBelow(chain, level, key, entry, from);
    if level >= from {
      PlaceAfter(chain[from..], level - from, key, entry, Owner(chain, other).1);
    }
  }

  lemma ChainAfter<E>(paths: seq<seq<nat>>, boards: seq<Board<E>>, j: nat, key: string, entry: E, at: nat)
    requires Shaped(paths) && |boards| == |paths| && at < |paths| && j < |boards|
    ensures j !in paths[at] ==> Chain(paths, Insert(boards, j, key, entry), at) == Chain(paths, boards, at)
    ensures forall l | 0 <= l < |paths[at]| && paths[at][l] == j ::
              Chain(paths, Insert(boards, j, key, entry), at) == Insert(Chain(paths, boards, at), l, key, entry)
  {
  }

  /** What a blackboard sees, and the rest of the tree, are the whole tree. */
  lemma ChainDecides<E>(paths: seq<seq<nat>>, boards: seq<Board<E>>, now: seq<Board<E>>, at: nat)
    requires Shaped(paths) && |boards| == |paths| == |now| && at < |paths|
    requires Chain(paths, now, at) == Chain(paths, boards, at)
    requires forall i | 0 <= i < |paths| && i !in paths[at] :: now[i] == boards[i]
    ensures now == boards
  {
    forall i | 0 <= i < |now| ensures now[i] == boards[i] {
      if i in paths[at] {
        var l :| 0 <= l < |paths[at]| && paths[at][l] == i;
        assert Chain(paths, now, at)[l] == Chain(paths, boards, at)[l];
      }
    }
  }

  lemma ChainDecidesInsert<E>(
    paths: seq<seq<nat>>, boards: seq<Board<E>>, now: seq<Board<E>>, at: nat, level: nat, key: string, entry: E)
    requires Shaped(paths) && |boards| == |paths| == |now| && at < |paths| && level < |paths[at]|
    requires Chain(paths, now, at) == Insert(Chain(paths, boards, at), level, key, entry)
    requires forall i | 0 <= i < |paths| && i !in paths[at] :: now[i] == boards[i]
    ensures now == Insert(boards, paths[at][level], key, entry)
  {
    hide Insert;
    var after := Insert(boards, paths[at][level], key, entry);
    ChainAfter(paths, boards, paths[at][level], key, entry, at);
    InsertOthers(boards, paths[at][level], key, entry);
    ChainDecides(paths, after, now, at);
  }

  lemma InsertOthers<E>(boards: seq<Board<E>>, j: nat, key: string, entry: E)
    requires j < |boards|
    ensures |Insert(boards, j, key, entry)| == |boards|
    ensures forall i | 0 <= i < |boards| && i != j :: Insert(boards, j, key, entry)[i] == boards[i]
  {
  }

  /** Every key that led to an entry leads to it still, and the other keys lead to none of the old ones. */
  ghost predicate Extends<E>(paths: seq<seq<nat>>, boards: seq<Board<E>>, now: seq<Board<E>>, known: map<E, Cell>)
    requires Shaped(paths) && |boards| == |paths| == |now|
  {
    forall at, key | 0 <= at < |paths| :: Still(Goal(paths, boards, at, key), Goal(paths, now, at, key), known)
  }

  predicate Still<E(==)>(p: Place<E>, q: Place<E>, known: map<E, Cell>) {
    if p.Found? then q == p else q.Found? ==> q.entry !in known
  }

  /** One edit other than a removal. */
  lemma NextExtends<E>(
    paths: seq<seq<nat>>, casts: Casts, boards: seq<Board<E>>, s: Store<E>, edit: Edit, made: Option<E>,
    known: map<E, Cell>)
    requires Shaped(paths) && |boards| == |s.boards| == |paths| && edit.at < |paths| && !edit.UnsetKey?
    requires Extends(paths, boards, s.boards, known) && NamesOne(paths, s, edit, made) && known.Keys <= s.cells.Keys
    ensures Extends(paths, boards, Next(paths, casts, s, edit, made).boards, known)
  {
    hide Extends;
    if made.Some? {
      var p, r := Goal(paths, s.boards, edit.at, edit.key), Next(paths, casts, s, edit, made);
      forall at, key | 0 <= at < |paths|
        ensures Still(Goal(paths, boards, at, key), Goal(paths, r.boards, at, key), known)
      {
        StillIs(paths, boards, s.boards, known, at, key);
        GoalAfter(paths, s.boards, edit.at, p, made.value, at, key);
      }
      ExtendsIs(paths, boards, r.boards, known);
    }
  }

  lemma StillIs<E>(
    paths: seq<seq<nat>>, boards: seq<Board<E>>, now: seq<Board<E>>, known: map<E, Cell>, at: nat, key: string)
    requires Shaped(paths) && |boards| == |paths| == |now| && Extends(paths, boards, now, known) && at < |paths|
    ensures Still(Goal(paths, boards, at, key), Goal(paths, now, at, key), known)
  {
  }

  lemma ExtendsIs<E>(paths: seq<seq<nat>>, boards: seq<Board<E>>, now: seq<Board<E>>, known: map<E, Cell>)
    requires Shaped(paths) && |boards| == |paths| == |now|
    requires forall at, key | 0 <= at < |paths| :: Still(Goal(paths, boards, at, key), Goal(paths, now, at, key), known)
    ensures Extends(paths, boards, now, known)
  {
  }

  /** A key leads to the new entry or where it led before. */
  lemma GoalAfter<E>(
    paths: seq<seq<nat>>, boards: seq<Board<E>>, from: nat, p: Place<E>, entry: E, at: nat, key: string)
    requires Shaped(paths) && |boards| == |paths| && at < |paths| && from < |paths|
    requires p.Vacant? && p.level < |paths[from]| && Unclaimed(boards[paths[from][p.level]], p.key)
    ensures var after := Insert(boards, paths[from][p.level], p.key, entry);
            var was, now := Goal(paths, boards, at, key), Goal(paths, after, at, key);
            now == was || (was.Vacant? && now.Found? && now.entry == entry)
  {
    var j := paths[from][p.level];
    ChainAfter(paths, boards, j, p.key, entry, at);
    if j in paths[at] {
      var l :| 0 <= l < |paths[at]| && paths[at][l] == j;
      SetPlaceAfter(Chain(paths, boards, at), l, p.key, entry, key);
    }
  }

  /** Without removals every key goes on leading to the entry it led to. */
  lemma {:induction false} RunExtends<E>(
    paths: seq<seq<nat>>, casts: Casts, s: Store<E>, edits: seq<Edit>, made: seq<Option<E>>)
    requires Shaped(paths) && |s.boards| == |paths| && InTree(paths, edits) && Names(paths, casts, s, edits, made)
    requires NoUnset(edits)
    ensures Extends(paths, s.boards, Run(paths, casts, s, edits, made).boards, s.cells)
    decreases |edits|
  {
    if edits != [] {
      var n := |edits| - 1;
      RunExtends(paths, casts, s, edits[..n], made[..n]);
      RunTypes(paths, casts, s, edits[..n], made[..n]);
      NextExtends(paths, casts, s.boards, Run(paths, casts, s, edits[..n], made[..n]), edits[n], made[n], s.cells);
    }
  }

  /** Without removals lookups that found something find it still, and blackboards keep their keys. */
  lemma {:induction false} RunKeeps<E>(
    paths: seq<seq<nat>>, casts: Casts, s: Store<E>, edits: seq<Edit>, made: seq<Option<E>>)
    requires Shaped(paths) && |s.boards| == |paths| && InTree(paths, edits) && Names(paths, casts, s, edits, made)
    requires NoUnset(edits)
    ensures Kept(paths, s.boards, Run(paths, casts, s, edits, made).boards)
    decreases |edits|
  {
    hide Kept;
    if edits != [] {
      var n := |edits| - 1;
      var before := Run(paths, casts, s, edits[..n], made[..n]);
      RunKeeps(paths, casts, s, edits[..n], made[..n]);
      NextKeeps(paths, casts, before, edits[n], made[n]);
      KeptOn(paths, s.boards, before.boards, Next(paths, casts, before, edits[n], made[n]).boards);
    } else {
      KeptAll(paths, s.boards);
    }
  }

  ghost predicate Kept<E>(paths: seq<seq<nat>>, boards: seq<Board<E>>, now: seq<Board<E>>)
    requires Shaped(paths) && |boards| == |paths| == |now|
  {
    && (forall at, key | 0 <= at < |paths| && Lookup(Chain(paths, boards, at), key).Some? ::
          Lookup(Chain(paths, now, at), key) == Lookup(Chain(paths, boards, at), key))
    && (forall at, key | 0 <= at < |paths| && key in boards[at].storage ::
          key in now[at].storage && now[at].storage[key] == boards[at].storage[key])
  }

  lemma KeptAll<E>(paths: seq<seq<nat>>, boards: seq<Board<E>>)
    requires Shaped(paths) && |boards| == |paths|
    ensures Kept(paths, boards, boards)
  {
  }

  lemma KeptOn<E>(paths: seq<seq<nat>>, boards: seq<Board<E>>, before: seq<Board<E>>, now: seq<Board<E>>)
    requires Shaped(paths) && |boards| == |paths| == |before| == |now|
    requires Kept(paths, boards, before) && Kept(paths, before, now)
    ensures Kept(paths, boards, now)
  {
  }

  lemma NextKeeps<E>(paths: seq<seq<nat>>, casts: Casts, s: Store<E>, edit: Edit, made: Option<E>)
    requires Shaped(paths) && |s.boards| == |paths| && edit.at < |paths| && !edit.UnsetKey?
    requires NamesOne(paths, s, edit, made)
    ensures Kept(paths, s.boards, Next(paths, casts, s, edit, made).boards)
  {
    if made.Some? {
      var p := Goal(paths, s.boards, edit.at, edit.key);
      var j, now := paths[edit.at][p.level], Next(paths, casts, s, edit, made).boards;
      forall at, key | 0 <= at < |paths| && Lookup(Chain(paths, s.boards, at), key).Some?
        ensures Lookup(Chain(paths, now, at), key) == Lookup(Chain(paths, s.boards, at), key)
      {
        ChainAfter(paths, s.boards, j, p.key, made.value, at);
        if j in paths[at] {
          var l :| 0 <= l < |paths[at]| && paths[at][l] == j;
          LookupsStay(Chain(paths, s.boards, at), l, p.key, made.value, key);
        }
      }
    }
  }

  // ---------------------------------------------------------------- what a set leaves in an entry

  /** The first edits of a run. */
  function Upto<E(==)>(
    paths: seq<seq<nat>>, casts: Casts, s: Store<E>, edits: seq<Edit>, made: seq<Option<E>>, j: nat): (r: Store<E>)
    requires Shaped(paths) && |s.boards| == |paths| && InTree(paths, edits) && |made| == |edits| && j <= |edits|
    ensures |r.boards| == |paths|
  {
    Run(paths, casts, s, edits[..j], made[..j])
  }

  lemma {:induction false} UptoNext<E>(
    paths: seq<seq<nat>>, casts: Casts, s: Store<E>, edits: seq<Edit>, made: seq<Option<E>>, j: nat)
    requires Shaped(paths) && |s.boards| == |paths| && InTree(paths, edits) && Names(paths, casts, s, edits, made)
    requires |made| == |edits| && j < |edits|
    ensures NamesOne(paths, Upto(paths, casts, s, edits, made, j), edits[j], made[j])
    ensures Upto(paths, casts, s, edits, made, j + 1) ==
            Next(paths, casts, Upto(paths, casts, s, edits, made, j), edits[j], made[j])
    decreases |edits|
  {
    hide Next, NamesOne;
    var n := |edits| - 1;
    if j < n {
      assert edits[..n][..j] == edits[..j] && made[..n][..j] == made[..j];
      assert edits[..n][..j + 1] == edits[..j + 1] && made[..n][..j + 1] == made[..j + 1];
      UptoNext(paths, casts, s, edits[..n], made[..n], j);
    } else {
      assert edits[..n + 1] == edits && made[..n + 1] == made;
    }
  }

  /** The edit is a set whose key leads to `x`, and `x` accepts it. */
  predicate WrittenBy<E(==)>(paths: seq<seq<nat>>, casts: Casts, s: Store<E>, edit: Edit, x: E)
    requires Shaped(paths) && |s.boards| == |paths| && edit.at < |paths|
  {
    edit.SetKey? && x in s.cells &&
    var p := Goal(paths, s.boards, edit.at, edit.key);
    p.Found? && p.entry == x &&
    Accepts(casts, Own(|paths[edit.at]|, edit.key, p.level), s.cells[x].info, s.cells[x].value, edit.t, edit.value)
  }

  /** What the set leaves there; the source may be asked for a copy, and a faithful one has the same payload. */
  lemma NextWrites<E>(paths: seq<seq<nat>>, casts: Casts, s: Store<E>, edit: Edit, made: Option<E>, x: E)
    requires Shaped(paths) && |s.boards| == |paths| && edit.at < |paths| && NamesOne(paths, s, edit, made)
    requires x in s.cells
    ensures var r := Next(paths, casts, s, edit, made);
            && x in r.cells
            && (!WrittenBy(paths, casts, s, edit, x) ==> r.cells[x] == s.cells[x])
            && (WrittenBy(paths, casts, s, edit, x) ==>
                  var own := Own(|paths[edit.at]|, edit.key, Goal(paths, s.boards, edit.at, edit.key).level);
                  SetHolds(casts, own, s.cells[x].info, s.cells[x].value, edit.t, edit.value, true,
                           r.cells[x].info, r.cells[x].value))
  {
    hide Goal, Blackboard.Outcome, Taken;
    var p := Goal(paths, s.boards, edit.at, edit.key);
    if edit.SetKey? && p.Found? && p.entry == x {
      var own := Own(|paths[edit.at]|, edit.key, p.level);
      Blackboard.OutcomeHolds(casts, own, s.cells[x].info, s.cells[x].value, edit.t, edit.value);
    }
  }

  /** Only an accepted set changes what an entry holds. */
  lemma {:induction false} UnwrittenStays<E>(
    paths: seq<seq<nat>>, casts: Casts, s: Store<E>, edits: seq<Edit>, made: seq<Option<E>>, lo: nat, hi: nat, x: E)
    requires Shaped(paths) && |s.boards| == |paths| && InTree(paths, edits) && Names(paths, casts, s, edits, made)
    requires |made| == |edits| && lo <= hi <= |edits| && x in Upto(paths, casts, s, edits, made, lo).cells
    requires forall j | lo <= j < hi :: !WrittenBy(paths, casts, Upto(paths, casts, s, edits, made, j), edits[j], x)
    ensures var r := Upto(paths, casts, s, edits, made, hi);
            x in r.cells && r.cells[x] == Upto(paths, casts, s, edits, made, lo).cells[x]
    decreases hi
  {
    hide Upto, WrittenBy, Next, NamesOne, Names;
    if lo < hi {
      UnwrittenStays(paths, casts, s, edits, made, lo, hi - 1, x);
      UptoNext(paths, casts, s, edits, made, hi - 1);
      NextWrites(paths, casts, Upto(paths, casts, s, edits, made, hi - 1), edits[hi - 1], made[hi - 1], x);
    }
  }

  /** Copies that keep what is copied. */
  ghost predicate Faithful(casts: Casts) {
    forall v, previous | casts.copy(v, previous).Some? :: casts.copy(v, previous).value.payload == v.payload
  }

  /** After any run of edits, removals among them, an entry holds what the last accepted set with a key that
      led to it says: the value as given, or made to fit the declared type of a blackboard's own entry. */
  lemma LastSetDecides<E>(
    paths: seq<seq<nat>>, casts: Casts, s: Store<E>, edits: seq<Edit>, made: seq<Option<E>>, i: nat, x: E)
    requires Shaped(paths) && |s.boards| == |paths| && InTree(paths, edits) && Names(paths, casts, s, edits, made)
    requires |made| == |edits| && i < |edits|
    requires WrittenBy(paths, casts, Upto(paths, casts, s, edits, made, i), edits[i], x)
    requires forall j | i < j < |edits| :: !WrittenBy(paths, casts, Upto(paths, casts, s, edits, made, j), edits[j], x)
    ensures var before, r, edit := Upto(paths, casts, s, edits, made, i), Run(paths, casts, s, edits, made), edits[i];
            var own := Own(|paths[edit.at]|, edit.key, Goal(paths, before.boards, edit.at, edit.key).level);
            var info := before.cells[x].info;
            && x in r.cells
            && SetHolds(casts, own, info, before.cells[x].value, edit.t, edit.value, true,
                        r.cells[x].info, r.cells[x].value)
            && (Faithful(casts) ==>
                  if own && StronglyTyped(info)
                  then var v := Fitting(casts, info, edit.t, edit.value);
                       v.Some? && r.cells[x].value.payload == v.value.payload
                  else r.cells[x].value == edit.value)
  {
    hide Upto, Goal, Next, NamesOne, Names, Fitting;
    var before := Upto(paths, casts, s, edits, made, i);
    UptoNext(paths, casts, s, edits, made, i);
    NextWrites(paths, casts, before, edits[i], made[i], x);
    UnwrittenStays(paths, casts, s, edits, made, i + 1, |edits|, x);
    UptoAll(paths, casts, s, edits, made);
  }

  lemma UptoAll<E>(paths: seq<seq<nat>>, casts: Casts, s: Store<E>, edits: seq<Edit>, made: seq<Option<E>>)
    requires Shaped(paths) && |s.boards| == |paths| && InTree(paths, edits) && |made| == |edits|
    ensures Upto(paths, casts, s, edits, made, |edits|) == Run(paths, casts, s, edits, made)
  {
    assert edits[..|edits|] == edits && made[..|edits|] == made;
  }

  // ---------------------------------------------------------------- counting the writes to an entry

  /** What an entry has come to, and how many edits have written it. */
  datatype Tally = Tally(cell: Cell, writes: nat)

  /** The edits that lead to `x`, as the blackboards are before any of them, taken one after the other:
      each is judged by what the ones before it left in `x`. */
  function Replay<E(==)>(
    paths: seq<seq<nat>>, casts: Casts, boards: seq<Board<E>>, edits: seq<Edit>, x: E, c: Cell): Tally
    requires Shaped(paths) && |boards| == |paths| && InTree(paths, edits)
  {
    if edits == [] then Tally(c, 0)
    else
      var n := |edits| - 1;
      Replayed(paths, casts, boards, edits[n], x, Replay(paths, casts, boards, edits[..n], x, c))
  }

  function Replayed<E(==)>(
    paths: seq<seq<nat>>, casts: Casts, boards: seq<Board<E>>, edit: Edit, x: E, before: Tally): Tally
    requires Shaped(paths) && |boards| == |paths| && edit.at < |paths|
  {
    var p := Goal(paths, boards, edit.at, edit.key);
    if edit.SetKey? && p.Found? && p.entry == x then
      var own := Own(|paths[edit.at]|, edit.key, p.level);
      if Judged(casts, edit, own, before.cell).Stored?
      then Tally(Rewritten(casts, edit, own, before.cell), before.writes + 1)
      else before
    else before
  }

  /** A run without removals leaves in every entry what the edits that lead to it do by themselves. */
  lemma {:induction false} RunIsReplay<E>(
    paths: seq<seq<nat>>, casts: Casts, s: Store<E>, edits: seq<Edit>, made: seq<Option<E>>, x: E)
    requires Shaped(paths) && |s.boards| == |paths| && InTree(paths, edits) && Names(paths, casts, s, edits, made)
    requires NoUnset(edits) && x in s.cells
    ensures var r := Run(paths, casts, s, edits, made);
            x in r.cells && r.cells[x] == Replay(paths, casts, s.boards, edits, x, s.cells[x]).cell
    decreases |edits|
  {
    if edits != [] {
      var n := |edits| - 1;
      var before := Run(paths, casts, s, edits[..n], made[..n]);
      RunIsReplay(paths, casts, s, edits[..n], made[..n], x);
      RunExtends(paths, casts, s, edits[..n], made[..n]);
      StillIs(paths, s.boards, before.boards, s.cells, edits[n].at, edits[n].key);
    }
  }

  /** The counter of an entry shows how many edits have written it, up to whole rounds of its 64 bits. */
  lemma {:induction false} ReplayCounts<E>(
    paths: seq<seq<nat>>, casts: Casts, boards: seq<Board<E>>, edits: seq<Edit>, x: E, c: Cell)
    requires Shaped(paths) && |boards| == |paths| && InTree(paths, edits)
    ensures var r := Replay(paths, casts, boards, edits, x, c);
            r.writes <= |edits| && r.cell.steps % WRAP == (c.steps + r.writes) % WRAP
    ensures c.steps < WRAP ==>
              var r := Replay(paths, casts, boards, edits, x, c);
              r.cell.steps < WRAP && (r.cell.steps != c.steps <==> r.writes % WRAP != 0)
  {
    hide Replayed;
    if edits != [] {
      var n := |edits| - 1;
      ReplayCounts(paths, casts, boards, edits[..n], x, c);
      var before := Replay(paths, casts, boards, edits[..n], x, c);
      ReplayedCounts(paths, casts, boards, edits[n], x, before);
      OneMore(before.cell.steps, c.steps, before.writes);
    }
    CounterMoves(c.steps, Replay(paths, casts, boards, edits, x, c).writes);
  }

  lemma ReplayedCounts<E>(paths: seq<seq<nat>>, casts: Casts, boards: seq<Board<E>>, edit: Edit, x: E, before: Tally)
    requires Shaped(paths) && |boards| == |paths| && edit.at < |paths|
    ensures var r := Replayed(paths, casts, boards, edit, x, before);
            r == before || (r.writes == before.writes + 1 && r.cell.steps == (before.cell.steps + 1) % WRAP)
  {
  }

  lemma OneMore(steps: nat, start: nat, writes: nat)
    requires steps % WRAP == (start + writes) % WRAP
    ensures (steps + 1) % WRAP == (start + writes + 1) % WRAP && ((steps + 1) % WRAP) % WRAP == (steps + 1) % WRAP
  {
    StepWraps(steps);
    StepWraps(start + writes);
  }

  lemma StepWraps(s: nat)
    ensures (s % WRAP + 1) % WRAP == (s + 1) % WRAP
  {
  }

  /** A counter shows how often it was stepped, but for whole rounds of its 64 bits. */
  lemma CounterMoves(s: nat, n: nat)
    ensures s < WRAP ==> ((s + n) % WRAP != s <==> n % WRAP != 0)
  {
    var q, r := n / WRAP, n % WRAP;
    assert s + n == (s + r) + q * WRAP;
    assert (s + n) % WRAP == (s + r) % WRAP;
  }

  /** A key goes on leading to its entry, and the entry's counter has moved exactly when edits have
      written it, but for whole rounds. */
  lemma WatchedEntry<E>(
    paths: seq<seq<nat>>, casts: Casts, s: Store<E>, edits: seq<Edit>, made: seq<Option<E>>, at: nat, key: string, x: E)
    requires Shaped(paths) && |s.boards| == |paths| && InTree(paths, edits) && Names(paths, casts, s, edits, made)
    requires NoUnset(edits) && at < |paths| && Lookup(Chain(paths, s.boards, at), key) == Some(x)
    requires x in s.cells && s.cells[x].steps < WRAP
    ensures var r := Run(paths, casts, s, edits, made);
            && Lookup(Chain(paths, r.boards, at), key) == Some(x) && x in r.cells
            && (r.cells[x].steps != s.cells[x].steps <==>
                  Replay(paths, casts, s.boards, edits, x, s.cells[x]).writes % WRAP != 0)
  {
    RunKeeps(paths, casts, s, edits, made);
    RunIsReplay(paths, casts, s, edits, made, x);
    ReplayCounts(paths, casts, s.boards, edits, x, s.cells[x]);
  }

  /** Where manual remappings do not go to the root, the entry that an edit writes is the one that a
      lookup of its key finds. */
  lemma GoalIsLookup<E>(paths: seq<seq<nat>>, boards: seq<Board<E>>, at: nat, key: string)
    requires Shaped(paths) && |boards| == |paths| && at < |paths| && PlainTargets(Chain(paths, boards, at))
    ensures var p := Goal(paths, boards, at, key);
            Lookup(Chain(paths, boards, at), key) == if p.Found? then Some(p.entry) else None
  {
    var chain := Chain(paths, boards, at);
    var p := SetPlace(chain, key);
    var (board, plain) := Owner(chain, key);
    TailKeepsPlain(chain, board);
    PlainTargetsArePlain(chain[board..], plain);
    LookupOfOwner(chain, key);
    PlaceIsLookup(chain[board..], plain);
  }
}
