/** How keys resolve in a chain of blackboards, the first being the one asked and the last the root: what a
    lookup finds, where a creation puts a new entry, and when the two agree. Entries are values of any type
    here. */
module BlackboardModel {
  import opened Wrappers

  /** What a blackboard holds: its entries, its manual remappings to keys of its parent, and whether it
      remaps other keys by itself. */
  datatype Board<E> = Board(storage: map<string, E>, remap: map<string, string>, auto: bool)

  predicate RootKey(key: string) {
    key != "" && key[0] == '@'
  }

  predicate PrivateKey(key: string) {
    key != "" && key[0] == '_'
  }

  /** The key under which the parent is asked for `key`. */
  function Target<E>(board: Board<E>, key: string): Option<string> {
    if key in board.remap then Some(board.remap[key])
    else if board.auto && !PrivateKey(key) then Some(key)
    else None
  }

  /** `getEntry`. */
  function Lookup<E>(chain: seq<Board<E>>, key: string): Option<E>
    requires chain != []
    decreases |chain|, |key|
  {
    if RootKey(key) then Lookup([chain[|chain| - 1]], key[1..])
    else if key in chain[0].storage then Some(chain[0].storage[key])
    else if |chain| > 1 && Target(chain[0], key).Some? then Lookup(chain[1..], Target(chain[0], key).value)
    else None
  }

  /** Where `createEntryImpl` ends: at an entry that exists, at a place for a new one, or without a parent
      to go to. */
  datatype Place<E> = Found(level: nat, key: string, entry: E) | Vacant(level: nat, key: string) | NoParent

  function Above<E>(place: Place<E>): Place<E> {
    match place
    case Found(level, key, entry) => Found(level + 1, key, entry)
    case Vacant(level, key) => Vacant(level + 1, key)
    case NoParent => NoParent
  }

  function PlaceOf<E>(chain: seq<Board<E>>, key: string): (r: Place<E>)
    requires chain != []
    ensures r.Found? ==>
            r.level < |chain| && r.key in chain[r.level].storage && chain[r.level].storage[r.key] == r.entry
    ensures r.Vacant? ==> r.level < |chain| && Unclaimed(chain[r.level], r.key)
    decreases |chain|
  {
    if key in chain[0].storage then Found(0, key, chain[0].storage[key])
    else if Target(chain[0], key).None? then Vacant(0, key)
    else if |chain| == 1 then NoParent
    else Above(PlaceOf(chain[1..], Target(chain[0], key).value))
  }

  /** A board that neither has the key nor asks its parent for it. */
  predicate Unclaimed<E>(board: Board<E>, key: string) {
    key !in board.storage && Target(board, key).None?
  }

  function Insert<E>(chain: seq<Board<E>>, level: nat, key: string, entry: E): (r: seq<Board<E>>)
    requires level < |chain|
    ensures |r| == |chain|
  {
    chain[level := chain[level].(storage := chain[level].storage[key := entry])]
  }

  // ---------------------------------------------------------------- lookup and creation

  /** No key on the way of a creation sends a lookup to the root. */
  predicate PlainPath<E>(chain: seq<Board<E>>, key: string)
    requires chain != []
    decreases |chain|
  {
    !RootKey(key) &&
    (key !in chain[0].storage && Target(chain[0], key).Some? && |chain| > 1 ==>
     PlainPath(chain[1..], Target(chain[0], key).value))
  }

  /** No manual remapping of a board that has a parent leads to a key of the root. */
  ghost predicate PlainTargets<E>(chain: seq<Board<E>>) {
    forall l, k | 0 <= l < |chain| - 1 && k in chain[l].remap && !RootKey(k) :: !RootKey(chain[l].remap[k])
  }

  lemma {:induction false} PlainTargetsArePlain<E>(chain: seq<Board<E>>, key: string)
    requires chain != [] && PlainTargets(chain) && !RootKey(key)
    ensures PlainPath(chain, key)
    decreases |chain|
  {
    if |chain| > 1 && Target(chain[0], key).Some? {
      forall l, k | 0 <= l < |chain[1..]| - 1 && k in chain[1..][l].remap && !RootKey(k)
        ensures !RootKey(chain[1..][l].remap[k])
      {
        assert chain[1..][l] == chain[l + 1];
      }
      PlainTargetsArePlain(chain[1..], Target(chain[0], key).value);
    }
  }

  /** Creation finds the entry that a lookup finds, and goes on to create one exactly where a lookup would
      find nothing. */
  lemma {:induction false} PlaceIsLookup<E>(chain: seq<Board<E>>, key: string)
    requires chain != [] && PlainPath(chain, key)
    ensures Lookup(chain, key) == if PlaceOf(chain, key).Found? then Some(PlaceOf(chain, key).entry) else None
    decreases |chain|
  {
    if key !in chain[0].storage && Target(chain[0], key).Some? && |chain| > 1 {
      PlaceIsLookup(chain[1..], Target(chain[0], key).value);
    }
  }

  /** An entry created for a key is what the key leads to from then on. */
  lemma {:induction false} CreatedIsFound<E>(chain: seq<Board<E>>, key: string, entry: E)
    requires chain != [] && PlainPath(chain, key) && PlaceOf(chain, key).Vacant?
    ensures var p := PlaceOf(chain, key); Lookup(Insert(chain, p.level, p.key, entry), key) == Some(entry)
    decreases |chain|
  {
    if Target(chain[0], key).Some? {
      var up, p := Target(chain[0], key).value, PlaceOf(chain, key);
      CreatedIsFound(chain[1..], up, entry);
      assert Insert(chain, p.level, p.key, entry)[1..] == Insert(chain[1..], p.level - 1, p.key, entry);
    }
  }

  lemma InsertBelow<E>(chain: seq<Board<E>>, level: nat, key: string, entry: E, from: nat)
    requires level < |chain| && from <= |chain|
    ensures Insert(chain, level, key, entry)[from..] ==
            if level < from then chain[from..] else Insert(chain[from..], level - from, key, entry)
  {
  }

  /** One step of a lookup. */
  lemma LookupStep<E>(chain: seq<Board<E>>, key: string)
    requires chain != []
    ensures RootKey(key) ==> Lookup(chain, key) == Lookup([chain[|chain| - 1]], key[1..])
    ensures !RootKey(key) && key in chain[0].storage ==> Lookup(chain, key) == Some(chain[0].storage[key])
    ensures !RootKey(key) && key !in chain[0].storage && |chain| > 1 && Target(chain[0], key).Some? ==>
            Lookup(chain, key) == Lookup(chain[1..], Target(chain[0], key).value)
    ensures !RootKey(key) && key !in chain[0].storage && Lookup(chain, key).Some? ==>
            |chain| > 1 && Target(chain[0], key).Some?
  {
  }

  /** An entry put where nothing was claimed changes no lookup that found something, whatever the
      remappings are. */
  lemma {:induction false} LookupsStay<E>(chain: seq<Board<E>>, level: nat, key: string, entry: E, other: string)
    requires level < |chain| && Unclaimed(chain[level], key) && Lookup(chain, other).Some?
    ensures Lookup(Insert(chain, level, key, entry), other) == Lookup(chain, other)
    decreases |chain|, |other|
  {
    hide Lookup;
    var after, root := Insert(chain, level, key, entry), |chain| - 1;
    LookupStep(chain, other);
    LookupStep(after, other);
    if RootKey(other) {
      if level == root {
        LookupsStay([chain[root]], 0, key, entry, other[1..]);
        assert Insert([chain[root]], 0, key, entry) == [after[root]];
      }
    } else if other !in chain[0].storage {
      InsertBelow(chain, level, key, entry, 1);
      if level > 0 {
        LookupsStay(chain[1..], level - 1, key, entry, Target(chain[0], other).value);
      }
    }
  }

  /** The board that a key is put to, and the key without the characters that lead to the root. */
  function Owner<E>(chain: seq<Board<E>>, key: string): (r: (nat, string))
    requires chain != []
    ensures r.0 < |chain| && !RootKey(r.1) && (!RootKey(key) ==> r == (0, key))
    decreases |key|
  {
    if RootKey(key) then (|chain| - 1, Owner(chain, key[1..]).1) else (0, key)
  }

  /** Where a `set` writes. */
  function SetPlace<E>(chain: seq<Board<E>>, key: string): (r: Place<E>)
    requires chain != []
    ensures r.Found? ==>
            r.level < |chain| && r.key in chain[r.level].storage && chain[r.level].storage[r.key] == r.entry
    ensures r.Vacant? ==> r.level < |chain| && Unclaimed(chain[r.level], r.key)
  {
    var (board, plain) := Owner(chain, key);
    match PlaceOf(chain[board..], plain)
    case Found(level, k, entry) => Found(board + level, k, entry)
    case Vacant(level, k) => Vacant(board + level, k)
    case NoParent => NoParent
  }

  lemma {:induction false} LookupOfOwner<E>(chain: seq<Board<E>>, key: string)
    requires chain != []
    ensures Lookup(chain, key) == Lookup(chain[Owner(chain, key).0..], Owner(chain, key).1)
    decreases |key|
  {
    if RootKey(key) {
      var root := [chain[|chain| - 1]];
      LookupOfOwner(root, key[1..]);
      OwnerOfRoot(chain, root, key[1..]);
      assert chain[|chain| - 1..] == root[0..] == root;
    } else {
      assert chain[0..] == chain;
    }
  }

  lemma {:induction false} OwnerOfRoot<E>(chain: seq<Board<E>>, root: seq<Board<E>>, key: string)
    requires chain != [] && |root| == 1
    ensures Owner(root, key) == (0, Owner(chain, key).1)
    decreases |key|
  {
    if RootKey(key) {
      OwnerOfRoot(chain, root, key[1..]);
    }
  }

  /** A `set` writes where the key leads, and otherwise creates what the key leads to from then on. */
  lemma SetPlaceIsLookup<E>(chain: seq<Board<E>>, key: string, entry: E)
    requires chain != [] && PlainTargets(chain)
    ensures var p := SetPlace(chain, key);
            Lookup(chain, key) == (if p.Found? then Some(p.entry) else None) &&
            (p.Vacant? ==> Lookup(Insert(chain, p.level, p.key, entry), key) == Some(entry))
  {
    var p := SetPlace(chain, key);
    var (board, plain) := Owner(chain, key);
    var own := chain[board..];
    TailKeepsPlain(chain, board);
    PlainTargetsArePlain(own, plain);
    LookupOfOwner(chain, key);
    PlaceIsLookup(own, plain);
    if p.Vacant? {
      CreatedIsFound(own, plain, entry);
      var after := Insert(chain, p.level, p.key, entry);
      InsertBelow(chain, p.level, p.key, entry, board);
      LookupOfOwner(after, key);
      OwnerOfSame(chain, after, key);
    }
  }

  lemma {:induction false} OwnerOfSame<E>(chain: seq<Board<E>>, after: seq<Board<E>>, key: string)
    requires |chain| == |after| > 0
    ensures Owner(chain, key) == Owner(after, key)
    decreases |key|
  {
    if RootKey(key) {
      OwnerOfSame(chain, after, key[1..]);
    }
  }

  lemma TailKeepsPlain<E>(chain: seq<Board<E>>, from: nat)
    requires from <= |chain| && PlainTargets(chain)
    ensures PlainTargets(chain[from..])
  {
    forall l, k | 0 <= l < |chain[from..]| - 1 && k in chain[from..][l].remap && !RootKey(k)
      ensures !RootKey(chain[from..][l].remap[k])
    {
      assert chain[from..][l] == chain[from + l];
    }
  }

  /** When creation and lookup agree on an entry that exists. */
  ghost predicate Agree<E>(chain: seq<Board<E>>, key: string)
    requires chain != []
  {
    PlaceOf(chain, key).Found? ==> Lookup(chain, key) == Some(PlaceOf(chain, key).entry)
  }

  /** Boards that differ in their entries only. */
  predicate SameWiring<E, F>(chain: seq<Board<E>>, other: seq<Board<F>>) {
    |chain| == |other| &&
    forall l | 0 <= l < |chain| :: chain[l].remap == other[l].remap && chain[l].auto == other[l].auto
  }

  /** One remapping to a key of the root is enough for the two to disagree: creation takes the target
      literally. */
  lemma RootTargetsDisagree<E>(chain: seq<Board<E>>, l: nat, k: string, entry: E) returns (other: seq<Board<E>>)
    requires l + 1 < |chain| && k in chain[l].remap && !RootKey(k) && RootKey(chain[l].remap[k])
    ensures SameWiring(chain[l..], other) && !Agree(other, k)
  {
    var target := chain[l].remap[k];
    var n := |chain| - l;
    other := seq(n, i requires 0 <= i < n =>
      Board(if i == 1 then map[target := entry] else map[], chain[l + i].remap, chain[l + i].auto));
    assert other[1..][0].storage == map[target := entry];
    assert PlaceOf(other[1..], target) == Found(0, target, entry);
    RootFindsNothing([other[n - 1]], target, target[1..], entry);
    assert Lookup(other[1..], target) == None;
  }

  /** Stripping a key does not lead back to it. */
  lemma {:induction false} RootFindsNothing<E>(root: seq<Board<E>>, target: string, key: string, entry: E)
    requires |root| == 1 && root[0].storage.Keys <= {target} && |key| < |target|
    ensures Lookup(root, key) == None
    decreases |key|
  {
    if RootKey(key) {
      assert [root[0]] == root;
      RootFindsNothing(root, target, key[1..], entry);
    }
  }

  /** Creation and lookup agree for a way of remapping, whatever entries there are, exactly when no
      remapping leads to a key of the root. */
  lemma AgreementIsPlainTargets(chain: seq<Board<int>>)
    requires chain != []
    ensures PlainTargets(chain) <==>
            forall l, other: seq<Board<int>>, key |
              0 <= l < |chain| && SameWiring(chain[l..], other) && !RootKey(key) :: Agree(other, key)
  {
    if PlainTargets(chain) {
      forall l, other: seq<Board<int>>, key | 0 <= l < |chain| && SameWiring(chain[l..], other) && !RootKey(key)
        ensures Agree(other, key)
      {
        WiringKeepsPlain(chain, l, other);
        PlainTargetsArePlain(other, key);
        PlaceIsLookup(other, key);
      }
    } else {
      var l, k :| 0 <= l < |chain| - 1 && k in chain[l].remap && !RootKey(k) && RootKey(chain[l].remap[k]);
      var other := RootTargetsDisagree(chain, l, k, 0);
    }
  }

  lemma WiringKeepsPlain<E>(chain: seq<Board<E>>, l: nat, other: seq<Board<E>>)
    requires l < |chain| && PlainTargets(chain) && SameWiring(chain[l..], other)
    ensures PlainTargets(other)
  {
    forall i, k | 0 <= i < |other| - 1 && k in other[i].remap && !RootKey(k) ensures !RootKey(other[i].remap[k]) {
      assert chain[l..][i] == chain[l + i];
    }
  }
}
