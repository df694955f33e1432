/** Blackboards as objects: entries that are shared by reference, keys that resolve along the parents,
    and copies that keep the identity of entries. Every method is proved to do what the functions of
    `BlackboardModel` say. */
module Blackboards {
  import opened Wrappers
  import opened BlackboardModel

  type TypeId = nat
  const ANY_TYPE_ALLOWED: TypeId := 0
  const ANY: TypeId := 1
  const STRING: TypeId := 2

  const WRAP: nat := 0x1_0000_0000_0000_0000

  /** A value with its original type; the payload is None while it is empty. */
  datatype Any = Any(typ: TypeId, payload: Option<int>)

  predicate StronglyTyped(info: TypeId) {
    info != ANY_TYPE_ALLOWED && info != ANY
  }

  /** Two declarations that cannot both hold. */
  predicate Clash(previous: TypeId, info: TypeId) {
    previous != info && StronglyTyped(previous) && StronglyTyped(info)
  }

  /** The conversions of values, which are not part of this model: parsing a string for a type, whether a
      number can be cast to a type without loss, and the copy of one value into another. */
  datatype Casts = Casts(
    parse: (TypeId, TypeId, Any) -> Option<Any>,
    safe: (TypeId, TypeId, Any) -> bool,
    copy: (Any, Any) -> Option<Any>)

  datatype Verdict = Refused | Stored(info: TypeId, value: Any)

  /** What setting a value of type `t` makes of an entry of the blackboard's own. */
  function Judge(casts: Casts, info: TypeId, previous: Any, t: TypeId, value: Any): (r: Verdict)
    ensures r.Stored? && StronglyTyped(info) ==> r.info == info
  {
    if !StronglyTyped(info) then Stored(t, value)
    else if info == t || info == value.typ then Copied(casts, info, previous, t, value)
    else if casts.parse(info, t, value).Some? then Copied(casts, info, previous, t, casts.parse(info, t, value).value)
    else if casts.safe(info, t, value) then Copied(casts, info, previous, t, value)
    else Refused
  }

  function Copied(casts: Casts, info: TypeId, previous: Any, t: TypeId, value: Any): Verdict {
    if t == ANY then Stored(info, value)
    else
      match casts.copy(value, previous)
      case Some(copy) => Stored(info, copy)
      case None => Refused
  }

  /** A value for an entry of type `info`: the value itself if it has that type, what parsing makes of it
      otherwise, or itself again if it can be cast without loss; None if nothing helps. */
  function Fitting(casts: Casts, info: TypeId, t: TypeId, value: Any): Option<Any> {
    var parsed := casts.parse(info, t, value);
    if t == info || value.typ == info then Some(value)
    else if parsed.Some? then parsed
    else if casts.safe(info, t, value) then Some(value)
    else None
  }

  /** What a typed entry holds once the value has been set: a copy of the fitting one, or that itself when the
      value came as one of any type; None if there is no fitting one or no copy of it. */
  function Taken(casts: Casts, info: TypeId, previous: Any, t: TypeId, value: Any): Option<Any> {
    var fitting := Fitting(casts, info, t, value);
    if fitting.None? || t == ANY then fitting else casts.copy(fitting.value, previous)
  }

  /** The sets that an entry accepts, `own` being whether it is the blackboard's own and not one that a
      remapping leads to: an own entry must be without a type or have a value made for it; elsewhere it is
      enough that one of the types is open or both are the same. */
  predicate Accepts(casts: Casts, own: bool, info: TypeId, previous: Any, t: TypeId, value: Any) {
    if own then !StronglyTyped(info) || Taken(casts, info, previous, t, value).Some?
    else t == STRING || !StronglyTyped(value.typ) || !StronglyTyped(info) || info == value.typ
  }

  /** What a `set` promises about an entry that exists. A refused set changes nothing. An own entry without
      a type takes the value and its type, one with a type keeps that and holds what the value becomes for
      it; a remapped one holds the value as given. */
  predicate SetHolds(
    casts: Casts, own: bool, info: TypeId, previous: Any, t: TypeId, value: Any, ok: bool, info1: TypeId, value1: Any)
  {
    && (ok <==> Accepts(casts, own, info, previous, t, value))
    && (!ok ==> info1 == info && value1 == previous)
    && (ok && own && !StronglyTyped(info) ==> info1 == t && value1 == value)
    && (ok && own && StronglyTyped(info) ==>
          info1 == info && Taken(casts, info, previous, t, value) == Some(value1))
    && (ok && !own ==> info1 == info && value1 == value)
  }

  class Entry {
    var value: Any
    var info: TypeId
    var sequenceId: nat

    /** An entry starts empty, with a default value of its type. */
    constructor (info: TypeId)
      ensures this.info == info && value == Any(info, None) && sequenceId == 0
    {
      this.info, this.value, this.sequenceId := info, Any(info, None), 0;
    }

    method Store(info: TypeId, value: Any)
      modifies this
      ensures this.info == info && this.value == value && sequenceId == (old(sequenceId) + 1) % WRAP
    {
      this.info, this.value, this.sequenceId := info, value, (sequenceId + 1) % WRAP;
    }
  }

  /** An entry and what it holds. */
  datatype Holding = Holding(entry: Entry, value: Any, info: TypeId, sequenceId: nat)

  /** What a copy of `src` under `key` comes to on a blackboard that held `was`. */
  ghost predicate Cloned(src: Holding, was: map<string, Holding>, key: string, now: Holding) {
    && now.value == src.value && now.info == src.info
    && (key in was ==> now.entry == was[key].entry && now.sequenceId == (was[key].sequenceId + 1) % WRAP)
    && (key !in was ==> now.sequenceId == 0)
  }

  /** The copy of `src` onto what was `was` has come to `now`, with the keys of `pending` to go. */
  ghost predicate Progress(
    src: map<string, Holding>, was: map<string, Holding>, now: map<string, Holding>, pending: set<string>)
  {
    && now.Keys == was.Keys + (src.Keys - pending)
    && (forall k | k in src && k !in pending :: Cloned(src[k], was, k, now[k]))
    && (forall k | k in was && (k in pending || k !in src) :: now[k] == was[k])
  }

  lemma ProgressStarts(src: map<string, Holding>, was: map<string, Holding>)
    ensures Progress(src, was, was, src.Keys)
  {
  }

  lemma ProgressStep(
    src: map<string, Holding>, was: map<string, Holding>, now: map<string, Holding>, pending: set<string>,
    key: string, h: Holding)
    requires Progress(src, was, now, pending) && key in pending && key in src && Cloned(src[key], now, key, h)
    ensures Progress(src, was, now[key := h], pending - {key}) && (key in now <==> key in was)
  {
  }

  lemma ProgressPends(
    src: map<string, Holding>, was: map<string, Holding>, now: map<string, Holding>, pending: set<string>,
    key: string)
    requires Progress(src, was, now, pending) && key in pending
    ensures key in now <==> key in was
    ensures key in was ==> now[key] == was[key]
  {
  }

  lemma ProgressEnds(src: map<string, Holding>, was: map<string, Holding>, now: map<string, Holding>)
    requires Progress(src, was, now, {})
    ensures now.Keys == was.Keys + src.Keys && forall k | k in src :: Cloned(src[k], was, k, now[k])
  {
  }

  datatype Created = Created(entry: Entry) | TypeMismatch | MissingParent | DoubleRoot

  class Blackboard {
    const parent: Blackboard?
    var storage: map<string, Entry>
    var remap: map<string, string>
    var autoremapping: bool
    /** This blackboard and its ancestors up to the root. */
    ghost const scope: seq<Blackboard>

    ghost predicate WellFormed()
      ensures WellFormed() ==> scope != [] && scope[0] == this
      decreases |scope|
    {
      scope != [] && scope[0] == this && this !in scope[1..] &&
      if parent == null then |scope| == 1
      else |scope| > 1 && parent.scope == scope[1..] && parent.WellFormed()
    }

    constructor (parent: Blackboard?)
      requires parent != null ==> parent.WellFormed()
      ensures WellFormed() && this.parent == parent && scope == [this] + (if parent == null then [] else parent.scope)
      ensures storage == map[] && remap == map[] && !autoremapping
    {
      this.parent := parent;
      this.storage, this.remap, this.autoremapping := map[], map[], false;
      this.scope := [this] + if parent == null then [] else parent.scope;
      new;
      assert scope[1..] == if parent == null then [] else parent.scope;
    }

    /** The scope as values. */
    static ghost function Boards(bs: seq<Blackboard>): (r: seq<Board<Entry>>)
      reads bs
      ensures |r| == |bs|
      ensures forall i | 0 <= i < |bs| :: r[i] == Board(bs[i].storage, bs[i].remap, bs[i].autoremapping)
    {
      if bs == [] then [] else [Board(bs[0].storage, bs[0].remap, bs[0].autoremapping)] + Boards(bs[1..])
    }

    ghost function Model(): (r: seq<Board<Entry>>)
      requires WellFormed()
      reads scope
      ensures |r| == |scope| > 0
      ensures forall i | 0 <= i < |scope| :: r[i] == Board(scope[i].storage, scope[i].remap, scope[i].autoremapping)
    {
      Boards(scope)
    }

    function Root(): (r: Blackboard)
      requires WellFormed()
      ensures r.WellFormed() && r.parent == null && r.scope == scope[|scope| - 1..]
      decreases |scope|
    {
      if parent == null then this else parent.Root()
    }

    method RootBlackboard() returns (bb: Blackboard)
      requires WellFormed()
      ensures bb == Root()
    {
      bb := this;
      var prev := parent;
      while prev != null
        invariant bb.WellFormed() && bb.Root() == Root() && prev == bb.parent
        decreases |bb.scope|
      {
        bb := prev;
        prev := bb.parent;
      }
    }

    /** The entry a key leads to, or null. */
    function GetEntry(key: string): Entry?
      requires WellFormed()
      reads scope
      decreases |scope|, |key|
    {
      if RootKey(key) then Root().GetEntry(key[1..])
      else if key in storage then storage[key]
      else if parent == null then null
      else if key in remap then parent.GetEntry(remap[key])
      else if autoremapping && !PrivateKey(key) then parent.GetEntry(key)
      else null
    }

    lemma GetEntryIsLookup(key: string)
      requires WellFormed()
      ensures Lookup(Model(), key) == if GetEntry(key) == null then None else Some(GetEntry(key))
      decreases |scope|, |key|
    {
      LookupStep(Model(), key);
      if RootKey(key) {
        ModelOfTail(Root(), |scope| - 1);
        Root().GetEntryIsLookup(key[1..]);
      } else if key !in storage && parent != null && Target(Model()[0], key).Some? {
        ModelOfTail(parent, 1);
        parent.GetEntryIsLookup(Target(Model()[0], key).value);
      }
    }

    lemma ModelOfTail(b: Blackboard, from: nat)
      requires WellFormed() && b.WellFormed() && from <= |scope| && b.scope == scope[from..]
      ensures b.Model() == Model()[from..]
    {
    }

    /** The scope is a path: its boards differ from one another. */
    lemma ScopeIsPath(i: nat)
      requires WellFormed() && i < |scope|
      ensures scope[i].WellFormed() && scope[i].scope == scope[i..]
      decreases |scope|
    {
      if i > 0 {
        parent.ScopeIsPath(i - 1);
      }
    }

    /** `createEntryImpl`: the entry for a key, found or made where the key leads. */
    method CreateEntryImpl(key: string, info: TypeId) returns (r: Created)
      requires WellFormed()
      modifies scope
      ensures match PlaceOf(old(Model()), key)
              case NoParent => r == MissingParent && Model() == old(Model())
              case Found(_, _, e) => r == (if Clash(old(e.info), info) then TypeMismatch else Created(e)) &&
                Model() == old(Model())
              case Vacant(level, k) =>
                r.Created? && fresh(r.entry) && r.entry.info == info && r.entry.value == Any(info, None) &&
                r.entry.sequenceId == 0 &&
                Model() == Insert(old(Model()), level, k, r.entry)
      decreases |scope|
    {
      hide Boards, Model, Clash, Insert, PrivateKey, RootKey;
      ghost var before := Model();
      if key in storage {
        var previous := storage[key].info;
        return if Clash(previous, info) then TypeMismatch else Created(storage[key]);
      }
      if key in remap || (autoremapping && !PrivateKey(key)) {
        if parent == null {
          return MissingParent;
        }
        ModelOfTail(parent, 1);
        ghost var above := parent.Model();
        r := parent.CreateEntryImpl(if key in remap then remap[key] else key, info);
        ModelOfTail(parent, 1);
        assert Model() == [before[0]] + parent.Model();
        AboveInsert(before, PlaceOf(above, if key in remap then remap[key] else key), r);
        return;
      }
      var entry := MakeHere(key, info);
      r := Created(entry);
    }

    /** A new entry in the blackboard itself. */
    method MakeHere(key: string, info: TypeId) returns (entry: Entry)
      requires WellFormed()
      modifies this`storage
      ensures fresh(entry) && entry.info == info && entry.value == Any(info, None) && entry.sequenceId == 0
      ensures Model() == Insert(old(Model()), 0, key, entry)
    {
      hide Boards, Model, Insert;
      ghost var before := Model();
      entry := new Entry(info);
      storage := storage[key := entry];
      InsertedHere(before, key, entry);
    }

    lemma InsertedHere(before: seq<Board<Entry>>, key: string, entry: Entry)
      requires WellFormed() && |before| == |scope|
      requires Model()[0] == before[0].(storage := before[0].storage[key := entry])
      requires Model()[1..] == before[1..]
      ensures Model() == Insert(before, 0, key, entry)
    {
      assert before == [before[0]] + before[1..] && Model() == [Model()[0]] + Model()[1..];
    }

    static lemma AboveInsert(before: seq<Board<Entry>>, above: Place<Entry>, r: Created)
      requires |before| > 1
      ensures above.Vacant? && above.level < |before| - 1 && r.Created? ==>
              [before[0]] + Insert(before[1..], above.level, above.key, r.entry) ==
                Insert(before, above.level + 1, above.key, r.entry)
      ensures before == [before[0]] + before[1..]
    {
    }

    lemma ScopeDiffers(i: nat, j: nat)
      requires WellFormed() && i < j < |scope|
      ensures scope[i] != scope[j]
    {
      ScopeIsPath(i);
      assert scope[i..][1..][j - i - 1] == scope[j];
    }

    lemma RootIsLast(root: Blackboard)
      requires WellFormed() && root == Root()
      ensures root.Model() == Model()[|scope| - 1..]
      ensures root == scope[|scope| - 1] && forall i | 0 <= i < |scope| - 1 :: scope[i] != root
    {
      var last := |scope| - 1;
      ModelOfTail(root, last);
      assert scope[last..][0] == root;
      forall i | 0 <= i < last ensures scope[i] != root {
        ScopeDiffers(i, last);
      }
    }

    /** The root's `createEntryImpl`, seen from here. */
    method CreateAtRoot(key: string, info: TypeId) returns (r: Created)
      requires WellFormed() && !RootKey(key)
      modifies scope
      ensures var p := PlaceOf(old(Model())[|scope| - 1..], key);
              (p.NoParent? ==> r == MissingParent && Model() == old(Model())) &&
              (p.Found? ==>
                r == (if Clash(old(p.entry.info), info) then TypeMismatch else Created(p.entry)) &&
                Model() == old(Model())) &&
              (p.Vacant? ==>
                r.Created? && fresh(r.entry) && r.entry.info == info && r.entry.value == Any(info, None) &&
                r.entry.sequenceId == 0 &&
                p.level == 0 && Model() == Insert(old(Model()), |scope| - 1, p.key, r.entry))
    {
      hide PlaceOf, Insert, Model, Boards, Root, Clash, WellFormed, FrontIs;
      ghost var before, last := Model(), |scope| - 1;
      FrontStarts();
      var root := RootBlackboard();
      RootIsLast(root);
      r := root.CreateEntryImpl(key, info);
      RootIsLast(root);
      RootSplice(before, PlaceOf(before[last..], key), r);
    }

    /** All boards but the root are as in `before`. */
    ghost predicate FrontIs(before: seq<Board<Entry>>)
      requires WellFormed() && |before| == |scope|
      reads scope[..|scope| - 1]
    {
      forall i | 0 <= i < |scope| - 1 ::
        before[i] == Board(scope[..|scope| - 1][i].storage, scope[..|scope| - 1][i].remap,
                           scope[..|scope| - 1][i].autoremapping)
    }

    lemma FrontStarts()
      requires WellFormed()
      ensures |Model()| == |scope| && FrontIs(Model())
    {
    }

    /** Putting the boards below the root and the root together. */
    lemma RootSplice(before: seq<Board<Entry>>, p: Place<Entry>, r: Created)
      requires WellFormed() && |before| == |scope| && FrontIs(before)
      ensures Root().Model() == before[|scope| - 1..] ==> Model() == before
      ensures p.Vacant? && p.level == 0 && r.Created? &&
              Root().Model() == Insert(before[|scope| - 1..], 0, p.key, r.entry) ==>
              Model() == Insert(before, |scope| - 1, p.key, r.entry)
    {
      ModelOfTail(Root(), |scope| - 1);
    }

    lemma RootPlace(before: seq<Board<Entry>>, key: string)
      requires before != [] && RootKey(key) && '@' !in key[1..]
      ensures !RootKey(key[1..])
      ensures var p, q := SetPlace(before, key), PlaceOf(before[|before| - 1..], key[1..]);
              match q
              case NoParent => p == q
              case Found(_, k, e) => p == Found(|before| - 1, k, e)
              case Vacant(_, k) => p == Vacant(|before| - 1, k)
    {
      assert key[1..] != "" ==> key[1..][0] in key[1..];
    }

    lemma OwnPlace(before: seq<Board<Entry>>, key: string)
      requires before != [] && !RootKey(key)
      ensures SetPlace(before, key) == PlaceOf(before, key)
    {
      assert before[0..] == before;
    }

    /** `createEntry`. An entry that is made is what the key leads to from then on, and no lookup that
        found something changes. */
    method CreateEntry(key: string, info: TypeId) returns (r: Created)
      requires WellFormed()
      modifies scope
      ensures RootKey(key) && '@' in key[1..] ==> r == DoubleRoot && Model() == old(Model())
      ensures !(RootKey(key) && '@' in key[1..]) ==>
              var p := SetPlace(old(Model()), key);
              (p.NoParent? ==> r == MissingParent && Model() == old(Model())) &&
              (p.Found? ==>
                r == (if Clash(old(p.entry.info), info) then TypeMismatch else Created(p.entry)) &&
                Model() == old(Model())) &&
              (p.Vacant? ==>
                r.Created? && fresh(r.entry) && r.entry.info == info && r.entry.value == Any(info, None) &&
                r.entry.sequenceId == 0 &&
                Model() == Insert(old(Model()), p.level, p.key, r.entry))
      ensures r.Created? && PlainTargets(old(Model())) ==> GetEntry(key) == r.entry
      ensures forall other | Lookup(old(Model()), other).Some? :: Lookup(Model(), other) == Lookup(old(Model()), other)
    {
      hide Lookup, PlaceOf, Insert, Owner, SetPlace, PlainTargets, Model, Boards, GetEntry, WellFormed, Clash;
      ghost var before := Model();
      if RootKey(key) {
        if '@' in key[1..] {
          return DoubleRoot;
        }
        r := CreateAtRoot(key[1..], info);
        RootPlace(before, key);
      } else {
        r := CreateEntryImpl(key, info);
        OwnPlace(before, key);
      }
      CreatedAgrees(before, key, r);
    }

    /** What `createEntry` promises, from what it did. */
    lemma CreatedAgrees(before: seq<Board<Entry>>, key: string, r: Created)
      requires WellFormed() && before != []
      requires var p := SetPlace(before, key);
               (p.NoParent? ==> !r.Created? && Model() == before) &&
               (p.Found? ==> (r.Created? ==> r.entry == p.entry) && Model() == before) &&
               (p.Vacant? ==> r.Created? && Model() == Insert(before, p.level, p.key, r.entry))
      ensures r.Created? && PlainTargets(before) ==> GetEntry(key) == r.entry
      ensures forall other | Lookup(before, other).Some? :: Lookup(Model(), other) == Lookup(before, other)
    {
      var p := SetPlace(before, key);
      if r.Created? && PlainTargets(before) {
        SetPlaceIsLookup(before, key, r.entry);
        GetEntryIsLookup(key);
      }
      if p.Vacant? {
        forall other | Lookup(before, other).Some? ensures Lookup(Model(), other) == Lookup(before, other) {
          LookupsStay(before, p.level, p.key, r.entry, other);
        }
      }
    }

    /** The declared type of an entry that a `set` creates: a string leaves it open. */
    static function NewType(t: TypeId, value: Any): TypeId {
      if t == STRING then ANY_TYPE_ALLOWED else value.typ
    }

    /** What a `set` makes of the entry it finds: its own entries are judged; an entry further up is
        overwritten unless the types clash, a string even then. */
    static function Outcome(casts: Casts, own: bool, info: TypeId, previous: Any, t: TypeId, value: Any): (r: Verdict)
      ensures r.Stored? && StronglyTyped(info) ==> r.info == info
    {
      if own then Judge(casts, info, previous, t, value)
      else if Clash(info, NewType(t, value)) then Refused
      else Stored(info, value)
    }

    static lemma OutcomeHolds(casts: Casts, own: bool, info: TypeId, previous: Any, t: TypeId, value: Any)
      ensures var v := Outcome(casts, own, info, previous, t, value);
              SetHolds(casts, own, info, previous, t, value, v.Stored?, if v.Stored? then v.info else info,
                       if v.Stored? then v.value else previous)
    {
    }

    /** The entry that a `set` of the key may write. */
    ghost function Written(key: string): set<Entry>
      requires WellFormed()
      reads scope
    {
      var p := SetPlace(Model(), key);
      if p.Found? then {p.entry} else {}
    }

    /** The entry of a place, if there is one. */
    static function EntryAt(p: Place<Entry>): Entry? {
      if p.Found? then p.entry else null
    }

    /** A `set` that found `x`: it wrote what the outcome says, which is what a set promises, and counted one
        step, or was refused and wrote nothing. If it found none it made `e`, which holds the value and is
        of its type, unless it `lacks` a parent to go to. */
    static twostate predicate Wrote(
      casts: Casts, own: bool, x: Entry?, lacks: bool, t: TypeId, value: Any, ok: bool, new e: Entry?)
      reads x, e
    {
      if x != null then
        var verdict := Outcome(casts, own, old(x.info), old(x.value), t, value);
        e == x && ok == verdict.Stored? &&
        SetHolds(casts, own, old(x.info), old(x.value), t, value, ok, x.info, x.value) &&
        x.info == (if ok then verdict.info else old(x.info)) &&
        x.value == (if ok then verdict.value else old(x.value)) &&
        x.sequenceId == (if ok then (old(x.sequenceId) + 1) % WRAP else old(x.sequenceId))
      else if lacks then !ok && e == null
      else
        ok && e != null && fresh(e) && e.value == value && e.sequenceId == 1 &&
        e.info == if t == STRING then ANY_TYPE_ALLOWED else value.typ
    }

    /** The boards after a `set` that wrote at `p`. */
    static function After(before: seq<Board<Entry>>, p: Place<Entry>, e: Entry?): seq<Board<Entry>> {
      if p.Vacant? && p.level < |before| && e != null then Insert(before, p.level, p.key, e) else before
    }

    /** `set` of a key without the mark of the root. */
    method SetPlain(casts: Casts, key: string, t: TypeId, value: Any) returns (ok: bool, ghost e: Entry?)
      requires WellFormed() && !RootKey(key)
      modifies scope, Written(key)
      ensures var p := SetPlace(old(Model()), key);
              Model() == After(old(Model()), p, e) &&
              Wrote(casts, !p.NoParent? && p.level == 0, EntryAt(p), p.NoParent?, t, value, ok, e)
    {
      hide Boards, Model, Judge, Insert, WellFormed, SetHolds;
      ghost var p := PlaceOf(Model(), key);
      OwnPlace(Model(), key);
      if key in storage {
        var entry := storage[key];
        e := entry;
        var verdict := Judge(casts, entry.info, entry.value, t, value);
        ok := verdict.Stored?;
        OutcomeHolds(casts, true, entry.info, entry.value, t, value);
        if ok {
          entry.Store(verdict.info, verdict.value);
        }
        return;
      }
      if p.Found? {
        OutcomeHolds(casts, false, p.entry.info, p.entry.value, t, value);
      }
      var r := CreateEntryImpl(key, NewType(t, value));
      ok := r.Created?;
      e := if r.Created? then r.entry else if p.Found? then p.entry else null;
      if ok {
        r.entry.Store(r.entry.info, value);
      }
    }

    /** `set`. The key's entry afterwards is the one that was written, and it alone: no other entry is in
        the frame, and no lookup that found something changes. */
    method Set(casts: Casts, key: string, t: TypeId, value: Any) returns (ok: bool, ghost e: Entry?)
      requires WellFormed()
      modifies scope, Written(key)
      ensures var p := SetPlace(old(Model()), key);
              Model() == After(old(Model()), p, e) &&
              Wrote(casts, !p.NoParent? &&
                    p.level == Owner(old(Model()), key).0, EntryAt(p), p.NoParent?, t, value, ok, e)
      ensures ok && PlainTargets(old(Model())) ==> GetEntry(key) == e
      ensures forall other | Lookup(old(Model()), other).Some? :: Lookup(Model(), other) == Lookup(old(Model()), other)
      decreases |key|
    {
      hide Boards, Model, Judge, Copied, Outcome, NewType, Insert, After, Lookup, PlaceOf, SetPlace, Owner,
           PlainTargets, GetEntry, WellFormed, Root, FrontIs, Written, SetHolds;
      ghost var before := Model();
      if RootKey(key) {
        var root := RootBlackboard();
        RootIsLast(root);
        FrontIsModel();
        SetPlaceOfRoot(before, key);
        WrittenOfRoot(root, key);
        ok, e := root.Set(casts, key[1..], t, value);
        RootIsLast(root);
        AfterRoot(before, key, e);
      } else {
        OwnPlace(before, key);
        ok, e := SetPlain(casts, key, t, value);
      }
      SetAgrees(before, key, ok, e);
    }

    lemma FrontIsModel()
      requires WellFormed()
      ensures FrontIs(Model())
    {
    }

    lemma WrittenOfRoot(root: Blackboard, key: string)
      requires WellFormed() && root == Root() && RootKey(key)
      ensures root.Written(key[1..]) == Written(key)
    {
      SetPlaceOfRoot(Model(), key);
      ModelOfTail(root, |scope| - 1);
    }

    /** What the root's boards become, seen from here. */
    lemma AfterRoot(before: seq<Board<Entry>>, key: string, e: Entry?)
      requires WellFormed() && |before| == |scope| && FrontIs(before) && RootKey(key)
      requires var root := before[|scope| - 1..]; Root().Model() == After(root, SetPlace(root, key[1..]), e)
      ensures Model() == After(before, SetPlace(before, key), e)
    {
      SetPlaceOfRoot(before, key);
      RootSplice(before, SetPlace(before[|scope| - 1..], key[1..]), if e == null then MissingParent else Created(e));
    }

    /** What `set` promises about lookups, from what it did. */
    lemma SetAgrees(before: seq<Board<Entry>>, key: string, ok: bool, e: Entry?)
      requires WellFormed() && before != []
      requires var p := SetPlace(before, key);
               Model() == After(before, p, e) && (p.Found? ==> e == p.entry) && (p.NoParent? ==> !ok) &&
               (p.Vacant? ==> ok && e != null)
      ensures ok ==> e != null
      ensures ok && PlainTargets(before) ==> GetEntry(key) == e
      ensures forall other | Lookup(before, other).Some? :: Lookup(Model(), other) == Lookup(before, other)
    {
      CreatedAgrees(before, key, if ok then Created(e) else MissingParent);
    }

    /** What a `set` with the mark of the root comes to at the root. */
    static lemma SetPlaceOfRoot(before: seq<Board<Entry>>, key: string)
      requires before != [] && RootKey(key)
      ensures var last := |before| - 1;
              var p, q := SetPlace(before, key), SetPlace(before[last..], key[1..]);
              Owner(before, key).0 == last && Owner(before[last..], key[1..]).0 == 0 &&
              EntryAt(p) == EntryAt(q) && p.NoParent? == q.NoParent? && p.Vacant? == q.Vacant? &&
              (!p.NoParent? ==> p.level == last && q.level == 0 && p.key == q.key)
    {
      var root := before[|before| - 1..];
      OwnerOfRoot(before, root, key[1..]);
      assert root[0..] == root;
    }

    /** `unset` removes the blackboard's own entry and asks nobody else. */
    method Unset(key: string)
      modifies this`storage
      ensures storage == old(storage) - {key}
    {
      if key !in storage {
        assert storage - {key} == storage;
        return;
      }
      storage := storage - {key};
    }

    /** `enableAutoRemapping` and `addSubtreeRemapping`; a remapping that exists stays. */
    method EnableAutoRemapping(remapping: bool)
      modifies this`autoremapping
      ensures autoremapping == remapping
    {
      autoremapping := remapping;
    }

    method AddSubtreeRemapping(internal: string, external: string)
      modifies this`remap
      ensures remap == map[internal := external] + old(remap)
    {
      if internal !in remap {
        remap := remap[internal := external];
      }
    }

    /** No entry is held under two keys. */
    ghost predicate OwnsEntries()
      reads this
    {
      forall j, k | j in storage && k in storage && j != k :: storage[j] != storage[k]
    }

    /** No entry is shared with the other blackboard. */
    ghost predicate Apart(other: Blackboard)
      reads this, other
    {
      forall j, k | j in storage && k in other.storage :: storage[j] != other.storage[k]
    }

    /** The keys with their entries and what these hold. */
    ghost function Contents(): map<string, Holding>
      reads this, storage.Values
    {
      map k | k in storage :: Holding(storage[k], storage[k].value, storage[k].info, storage[k].sequenceId)
    }

    lemma ContentsHold()
      ensures Contents().Keys == storage.Keys
      ensures forall k | k in storage :: Contents()[k].entry == storage[k]
    {
    }

    /** One round of the copy: an entry that exists is overwritten and counts a step, another one is made. */
    method CloneEntry(dst: Blackboard, key: string)
      requires dst != this && key in storage && Apart(dst) && dst.OwnsEntries()
      modifies dst`storage, if key in dst.storage then {dst.storage[key]} else {}
      ensures key in dst.storage && dst.OwnsEntries() && Apart(dst)
      ensures key in dst.Contents() && Contents() == old(Contents())
      ensures dst.Contents() == old(dst.Contents())[key := dst.Contents()[key]]
      ensures key in Contents() && key in dst.Contents()
      ensures Cloned(Contents()[key], old(dst.Contents()), key, dst.Contents()[key])
      ensures key !in old(dst.storage) ==> fresh(dst.Contents()[key].entry)
    {
      hide Apart, OwnsEntries, Contents, Cloned;
      if key in dst.storage {
        Overwrite(dst, key);
      } else {
        MakeNew(dst, key);
      }
    }

    method Overwrite(dst: Blackboard, key: string)
      requires dst != this && key in storage && key in dst.storage && Apart(dst) && dst.OwnsEntries()
      modifies dst.storage[key]
      ensures dst.OwnsEntries() && Apart(dst)
      ensures key in dst.Contents() && Contents() == old(Contents())
      ensures dst.Contents() == old(dst.Contents())[key := dst.Contents()[key]]
      ensures key in Contents() && Cloned(Contents()[key], old(dst.Contents()), key, dst.Contents()[key])
    {
      assert storage[key] in storage.Values && dst.storage[key] in dst.storage.Values;
      dst.storage[key].Store(storage[key].info, storage[key].value);
    }

    method MakeNew(dst: Blackboard, key: string)
      requires dst != this && key in storage && key !in dst.storage && Apart(dst) && dst.OwnsEntries()
      modifies dst`storage
      ensures key in dst.storage && dst.OwnsEntries() && Apart(dst)
      ensures key in dst.Contents() && Contents() == old(Contents())
      ensures dst.Contents() == old(dst.Contents())[key := dst.Contents()[key]]
      ensures key in Contents() && Cloned(Contents()[key], old(dst.Contents()), key, dst.Contents()[key])
      ensures fresh(dst.Contents()[key].entry)
    {
      assert storage[key] in storage.Values;
      var entry := new Entry(storage[key].info);
      entry.value := storage[key].value;
      ghost var before := dst.storage;
      dst.storage := dst.storage[key := entry];
      assert forall k | k in before :: before[k] in before.Values;
    }

    /** `cloneInto`: the other blackboard gets the same keys with the same values and types. Its entries
        under keys that stay are overwritten and count one step; the others are new or dropped. */
    method CloneInto(dst: Blackboard)
      requires dst != this && dst.OwnsEntries() && Apart(dst)
      modifies dst`storage, dst.storage.Values
      ensures dst.storage.Keys == storage.Keys && dst.OwnsEntries() && Contents() == old(Contents())
      ensures Contents().Keys == dst.Contents().Keys == storage.Keys
      ensures forall k | k in storage :: Cloned(Contents()[k], old(dst.Contents()), k, dst.Contents()[k])
      ensures forall k | k in storage && k !in old(dst.storage) :: fresh(dst.storage[k])
    {
      hide Contents, OwnsEntries, Progress, Cloned, Apart, WellFormed, Boards, Model;
      ContentsHold();
      dst.ContentsHold();
      var toRemove := CopyEntries(dst);
      ProgressEnds(Contents(), old(dst.Contents()), dst.Contents());
      dst.ContentsHold();
      DropKeys(dst, toRemove);
      dst.ContentsHold();
    }

    /** The loop over the entries; what is left are the keys to drop. */
    method CopyEntries(dst: Blackboard) returns (toRemove: set<string>)
      requires dst != this && dst.OwnsEntries() && Apart(dst)
      modifies dst`storage, dst.storage.Values
      ensures dst.OwnsEntries() && Contents() == old(Contents()) && toRemove == old(dst.storage).Keys - storage.Keys
      ensures Progress(Contents(), old(dst.Contents()), dst.Contents(), {})
      ensures forall k | k in dst.Contents() && k !in old(dst.Contents()) :: fresh(dst.Contents()[k].entry)
    {
      hide Contents, OwnsEntries, Progress, Cloned, Apart, WellFormed, Boards, Model;
      ghost var src, was := Contents(), dst.Contents();
      toRemove := dst.storage.Keys;
      var pending := storage.Keys;
      ContentsHold();
      dst.ContentsHold();
      ProgressStarts(src, was);
      while pending != {}
        invariant pending <= storage.Keys && toRemove == was.Keys - (storage.Keys - pending)
        invariant dst.OwnsEntries() && Apart(dst) && Contents() == src
        invariant Progress(src, was, dst.Contents(), pending)
        invariant forall k | k in dst.Contents() && k !in was :: fresh(dst.Contents()[k].entry)
        decreases pending
      {
        var key :| key in pending;
        ghost var now := dst.Contents();
        dst.ContentsHold();
        ProgressPends(src, was, now, pending, key);
        assert key in was ==> was[key].entry in old(dst.storage.Values);
        CopyOne(dst, key, src, was, pending);
        pending, toRemove := pending - {key}, toRemove - {key};
      }
    }

    /** ... as far as the copy has come. */
    method CopyOne(dst: Blackboard, key: string, ghost src: map<string, Holding>, ghost was: map<string, Holding>,
                   ghost pending: set<string>)
      requires dst != this && key in storage && key in pending && Apart(dst) && dst.OwnsEntries()
      requires Contents() == src && Progress(src, was, dst.Contents(), pending)
      modifies dst`storage, if key in dst.storage then {dst.storage[key]} else {}
      ensures dst.OwnsEntries() && Apart(dst) && Contents() == src
      ensures Progress(src, was, dst.Contents(), pending - {key})
      ensures forall k | k in dst.Contents() && k !in old(dst.Contents()) :: fresh(dst.Contents()[k].entry)
      ensures forall k | k in dst.Contents() && k in old(dst.Contents()) && k != key ::
                dst.Contents()[k] == old(dst.Contents()[k])
    {
      hide Contents, OwnsEntries, Progress, Cloned, Apart;
      ghost var now := dst.Contents();
      ContentsHold();
      dst.ContentsHold();
      ProgressPends(src, was, now, pending, key);
      CloneEntry(dst, key);
      ProgressStep(src, was, now, pending, key, dst.Contents()[key]);
    }

    method DropKeys(dst: Blackboard, keys: set<string>)
      requires dst != this && keys <= dst.storage.Keys && dst.OwnsEntries()
      modifies dst`storage
      ensures dst.storage == old(dst.storage) - keys && dst.Contents() == old(dst.Contents()) - keys
      ensures dst.OwnsEntries()
      ensures Contents() == old(Contents())
    {
      var toRemove := keys;
      while toRemove != {}
        invariant toRemove <= keys && dst.storage == old(dst.storage) - (keys - toRemove)
        decreases toRemove
      {
        var key :| key in toRemove;
        toRemove := toRemove - {key};
        dst.storage := dst.storage - {key};
      }
    }
  }
}
