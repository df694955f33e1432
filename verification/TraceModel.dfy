/** The trace recorder as a system of steps: threads that record events into one buffer while another
    thread prints the other one. */
module TraceModel {

  const FIELDS: nat := 10
  const CAPACITY: nat := 1000000

  /** A slot of a buffer, or the fields of an event: name, category, id, time, process, thread, phase, kind
      of argument, name and value of the argument. The value is a union that also holds durations. */
  type Slot = f: seq<int> | |f| == FIELDS witness seq(FIELDS, _ => 0)

  const ID: nat := 2
  const PHASE: nat := 6
  const ARG_TYPE: nat := 7
  const ARG_NAME: nat := 8
  const ARG_VALUE: nat := 9

  const NO_ARG: int := 0
  const COMPLETE: int := 'X' as int
  const ASYNC: set<int> := {'S' as int, 'T' as int, 'F' as int}

  /** What a thread is called to record, with or without the parameters for an argument. */
  datatype Recording = Recording(fields: Slot, withArg: bool)

  /** The fields that recording writes; what the slot held before stays in the others. */
  predicate Stores(e: Recording, k: nat) {
    k < ARG_NAME || (k == ARG_NAME && e.withArg) ||
    (k == ARG_VALUE && if e.withArg then e.fields[ARG_TYPE] != NO_ARG else e.fields[PHASE] == COMPLETE)
  }

  /** The fields that a printed line shows. */
  predicate Shows(f: Slot, k: nat) {
    if k == ID then f[ID] != 0 && f[PHASE] in ASYNC
    else if k < ARG_NAME then true
    else if f[ARG_TYPE] != NO_ARG then k < FIELDS
    else k == ARG_VALUE && f[ID] != 0 && f[PHASE] == COMPLETE
  }

  function Line(f: Slot): (r: Slot) {
    seq(FIELDS, k requires 0 <= k < FIELDS => if Shows(f, k) then f[k] else 0)
  }

  function Lines(es: seq<Recording>): (r: seq<Slot>)
    ensures |r| == |es|
  {
    seq(|es|, i requires 0 <= i < |es| => Line(es[i].fields))
  }

  /** Without parameters for it there is no argument; and a complete event with an id has its duration, or
      else an argument, in the value that its line shows. */
  predicate Honest(e: Recording) {
    if e.withArg then e.fields[ARG_TYPE] != NO_ARG || e.fields[ID] == 0 || e.fields[PHASE] != COMPLETE
    else e.fields[ARG_TYPE] == NO_ARG
  }

  /** The events that the macros record. */
  type Event = e: Recording | Honest(e) witness Recording(seq(FIELDS, _ => 0), false)

  /** A line shows only what recording has written, exactly for these events. */
  lemma ShownIsStored(e: Recording)
    requires !e.withArg ==> e.fields[ARG_TYPE] == NO_ARG
    ensures (forall k: nat | k < FIELDS && Shows(e.fields, k) :: Stores(e, k)) <==> Honest(e)
  {
    assert Shows(e.fields, ARG_VALUE) && !Stores(e, ARG_VALUE) <==> !Honest(e);
  }

  /** Where a thread is between two steps. A thread that has reserved a slot, or that waits for the
      writers, holds the mutex. */
  datatype Thread =
    | Idle
    | Calling(e: Event)
    | Reserved(e: Event, buffer: nat, slot: nat)
    | Filling(e: Event, buffer: nat, slot: nat, done: nat)
    | Waiting(n: nat)
    | Printing(n: nat, i: nat)

  /** `accepted` is the history of the events that were given a slot; it has no counterpart in the
      program. */
  datatype State = State(
    buffers: seq<seq<Slot>>,
    current: nat,
    count: nat,
    tracing: bool,
    flushing: bool,
    inProgress: int,
    threads: map<nat, Thread>,
    printed: seq<Slot>,
    accepted: seq<Event>)

  datatype Action =
    | Call(t: nat, e: Event)
    | Reserve(t: nat)
    | Enter(t: nat)
    | Write(t: nat)
    | Leave(t: nat)
    | Swap(t: nat)
    | Poll(t: nat)
    | Print(t: nat)
    | Finish(t: nat)
    | SetTracing(on: bool)

  predicate HoldsMutex(p: Thread) {
    p.Reserved? || p.Waiting?
  }

  predicate MutexFree(s: State) {
    forall t | t in s.threads :: !HoldsMutex(s.threads[t])
  }

  function Move(s: State, t: nat, p: Thread): State {
    s.(threads := s.threads[t := p])
  }

  function Flushed(s: State): nat {
    1 - s.current % 2
  }

  /** Whether the action's thread is where the step begins and the mutex is free if the step takes it. */
  predicate Enabled(s: State, a: Action) {
    match a
    case Call(t, e) => t in s.threads && s.threads[t].Idle?
    case Reserve(t) => t in s.threads && s.threads[t].Calling? && MutexFree(s)
    case Enter(t) => t in s.threads && s.threads[t].Reserved?
    case Write(t) => t in s.threads && s.threads[t].Filling? && s.threads[t].done < FIELDS
    case Leave(t) => t in s.threads && s.threads[t].Filling? && s.threads[t].done == FIELDS
    case Swap(t) => t in s.threads && s.threads[t].Idle? && MutexFree(s)
    case Poll(t) => t in s.threads && s.threads[t].Waiting?
    case Print(t) => t in s.threads && s.threads[t].Printing? && s.threads[t].i < s.threads[t].n
    case Finish(t) => t in s.threads && s.threads[t].Printing? && s.threads[t].i >= s.threads[t].n && MutexFree(s)
    case SetTracing(on) => MutexFree(s)
  }

  /** Two buffers of full size, one of which is being filled. */
  predicate Shaped(s: State) {
    |s.buffers| == 2 && |s.buffers[0]| == |s.buffers[1]| == CAPACITY && s.current < 2 && s.count <= CAPACITY
  }

  /** The writing of one field, if recording the event writes it. */
  function SetField(buffers: seq<seq<Slot>>, b: nat, i: nat, k: nat, e: Event): seq<seq<Slot>> {
    if b < |buffers| && i < |buffers[b]| && k < FIELDS && Stores(e, k)
    then buffers[b := buffers[b][i := buffers[b][i][k := e.fields[k]]]]
    else buffers
  }

  /** One step of one thread; a step that is not enabled changes nothing. */
  function Next(s: State, a: Action): State {
    if !Enabled(s, a) then s
    else
      match a
      case Call(t, e) => Move(s, t, Calling(e))
      case Reserve(t) =>
        var e := s.threads[t].e;
        if !s.tracing || s.count >= CAPACITY then Move(s, t, Idle)
        else Move(s.(count := s.count + 1, accepted := s.accepted + [e]), t, Reserved(e, s.current, s.count))
      case Enter(t) =>
        var p := s.threads[t];
        Move(s.(inProgress := s.inProgress + 1), t, Filling(p.e, p.buffer, p.slot, 0))
      case Write(t) =>
        var p := s.threads[t];
        Move(s.(buffers := SetField(s.buffers, p.buffer, p.slot, p.done, p.e)), t, p.(done := p.done + 1))
      case Leave(t) => Move(s.(inProgress := s.inProgress - 1), t, Idle)
      case Swap(t) =>
        if s.flushing then s
        else Move(s.(flushing := true, current := Flushed(s), count := 0), t, Waiting(s.count))
      case Poll(t) => if s.inProgress == 0 then Move(s, t, Printing(s.threads[t].n, 0)) else s
      case Print(t) =>
        var p := s.threads[t];
        var flush := Flushed(s);
        if flush < |s.buffers| && p.i < |s.buffers[flush]| then
          Move(s.(printed := s.printed + [Line(s.buffers[flush][p.i])]), t, p.(i := p.i + 1))
        else s
      case Finish(t) => Move(s.(flushing := false), t, Idle)
      case SetTracing(on) => s.(tracing := on)
  }

  function Run(s: State, actions: seq<Action>): State
    decreases |actions|
  {
    if actions == [] then s else Next(Run(s, actions[..|actions| - 1]), actions[|actions| - 1])
  }

  /** After `mtr_init_from_stream`. */
  predicate Initial(s: State) {
    Shaped(s) && s.count == 0 && !s.flushing && s.inProgress == 0 && s.printed == [] && s.accepted == [] &&
    forall t | t in s.threads :: s.threads[t].Idle?
  }

  // ---------------------------------------------------------------- invariant

  predicate Writes(p: Thread) {
    p.Reserved? || p.Filling?
  }

  predicate Flushes(p: Thread) {
    p.Waiting? || p.Printing?
  }

  function Fillers(s: State): set<nat> {
    set t | t in s.threads && s.threads[t].Filling?
  }

  /** A slot that holds an accepted event: in the current buffer below the count, in the other one from
      `lo`, the next to be printed, to `hi`. */
  predicate Taken(s: State, lo: nat, hi: nat, b: nat, j: nat) {
    b < 2 && if b == s.current then j < s.count else lo <= j < hi
  }

  /** The number of a slot's event in the order of acceptance. */
  function Number(s: State, lo: nat, b: nat, j: nat): int {
    j + if b == s.current then |s.accepted| - s.count else |s.printed| - lo
  }

  /** The thread still has to write field `f` of the slot. */
  predicate FillsAt(p: Thread, b: nat, j: nat, f: nat) {
    Writes(p) && p.buffer == b && p.slot == j && (p.Filling? ==> p.done <= f)
  }

  predicate Owed(threads: map<nat, Thread>, b: nat, j: nat, f: nat) {
    exists t :: t in threads && FillsAt(threads[t], b, j, f)
  }

  predicate Filled(s: State, lo: nat, b: nat, j: nat, f: nat)
    requires b < |s.buffers| && j < |s.buffers[b]| && f < FIELDS && 0 <= Number(s, lo, b, j) < |s.accepted|
  {
    Stores(s.accepted[Number(s, lo, b, j)], f) ==> s.buffers[b][j][f] == s.accepted[Number(s, lo, b, j)].fields[f]
  }

  /** Every printed event is the accepted event whose turn it was, and the rest is in the buffers. */
  predicate Accounted(s: State, lo: nat, hi: nat) {
    && lo <= hi <= CAPACITY && |s.accepted| == |s.printed| + (hi - lo) + s.count
    && s.printed == Lines(s.accepted[..|s.printed|])
  }

  predicate LocksOk(s: State) {
    && (forall t, u | t in s.threads && u in s.threads && HoldsMutex(s.threads[t]) && HoldsMutex(s.threads[u]) ::
        t == u)
    && (forall t, u | t in s.threads && u in s.threads && Flushes(s.threads[t]) && Flushes(s.threads[u]) :: t == u)
    && s.inProgress == |Fillers(s)|
  }

  predicate FlusherOk(s: State, lo: nat, hi: nat) {
    && (forall t | t in s.threads && Flushes(s.threads[t]) ::
          s.flushing && hi == s.threads[t].n && lo == if s.threads[t].Printing? then s.threads[t].i else 0)
    && (!s.flushing ==> lo == hi)
  }

  /** Writers fill slots of their own, and none of the buffer that is being printed. */
  predicate WritersOk(s: State, lo: nat, hi: nat)
    requires Accounted(s, lo, hi)
  {
    && (forall t | t in s.threads && Writes(s.threads[t]) ::
          var p := s.threads[t];
          Taken(s, lo, hi, p.buffer, p.slot) && p.e == s.accepted[Number(s, lo, p.buffer, p.slot)] &&
          (p.Reserved? ==> p.buffer == s.current) && (p.Filling? ==> p.done <= FIELDS))
    && (forall t, u | t in s.threads && u in s.threads && Writes(s.threads[t]) && Writes(s.threads[u]) && t != u ::
          s.threads[t].buffer != s.threads[u].buffer || s.threads[t].slot != s.threads[u].slot)
    && (forall t, u | t in s.threads && u in s.threads && Writes(s.threads[t]) && s.threads[t].buffer != s.current ::
          s.flushing && !s.threads[u].Printing?)
  }

  /** Every field of a taken slot has been written, or there is a thread that is going to. */
  ghost predicate SlotsOk(s: State, lo: nat, hi: nat)
    requires Shaped(s) && Accounted(s, lo, hi)
  {
    forall b: nat, j: nat, f: nat | Taken(s, lo, hi, b, j) && f < FIELDS ::
      Filled(s, lo, b, j, f) || Owed(s.threads, b, j, f)
  }

  ghost predicate Inv(s: State, lo: nat, hi: nat) {
    Shaped(s) && Accounted(s, lo, hi) && LocksOk(s) && FlusherOk(s, lo, hi) && WritersOk(s, lo, hi) &&
    SlotsOk(s, lo, hi)
  }

  lemma InitialIsInv(s: State)
    requires Initial(s)
    ensures Inv(s, 0, 0)
  {
    assert Fillers(s) == {};
  }

  // ---------------------------------------------------------------- steps

  /** A thread that neither writes nor flushes, before or after. */
  predicate Outside(p: Thread) {
    p.Idle? || p.Calling?
  }

  lemma OwedStays(threads: map<nat, Thread>, t: nat, p: Thread, b: nat, j: nat, f: nat)
    requires Owed(threads, b, j, f) && t in threads && (FillsAt(threads[t], b, j, f) ==> FillsAt(p, b, j, f))
    ensures Owed(threads[t := p], b, j, f)
  {
    var u :| u in threads && FillsAt(threads[u], b, j, f);
    assert FillsAt(threads[t := p][u], b, j, f);
  }

  /** A thread that takes the mutex or starts to flush is the only one. */
  lemma LocksKept(s: State, s': State, t: nat)
    requires LocksOk(s) && t in s.threads && t in s'.threads && s'.threads == s.threads[t := s'.threads[t]]
    requires HoldsMutex(s'.threads[t]) ==> HoldsMutex(s.threads[t]) || MutexFree(s)
    requires Flushes(s'.threads[t]) ==> Flushes(s.threads[t]) || forall u | u in s.threads :: !Flushes(s.threads[u])
    requires s'.inProgress - s.inProgress ==
             (if s'.threads[t].Filling? then 1 else 0) - if s.threads[t].Filling? then 1 else 0
    ensures LocksOk(s')
  {
    FillersChange(s, s', t);
  }

  lemma FillersChange(s: State, s': State, t: nat)
    requires t in s.threads && t in s'.threads && s'.threads == s.threads[t := s'.threads[t]]
    ensures |Fillers(s')| - |Fillers(s)| ==
            (if s'.threads[t].Filling? then 1 else 0) - if s.threads[t].Filling? then 1 else 0
  {
    SameBut(Fillers(s), Fillers(s'), t);
  }

  lemma SameBut(a: set<nat>, b: set<nat>, t: nat)
    requires forall u | u != t :: u in a <==> u in b
    ensures |b| - |a| == (if t in b then 1 else 0) - if t in a then 1 else 0
  {
    var others := a - {t};
    assert |others + {t}| == |others| + 1;
    if t in a {
      assert a == others + {t};
    } else {
      assert a == others;
    }
    if t in b {
      assert b == others + {t};
    } else {
      assert b == others;
    }
  }

  /** A thread moves on without taking a slot or taking part in a flush. */
  predicate Proceeds(p: Thread, q: Thread) {
    !Flushes(p) && !Flushes(q) &&
    (Writes(q) ==> Writes(p) && q.e == p.e && q.buffer == p.buffer && q.slot == p.slot) &&
    (q.Reserved? ==> p.Reserved?) && (q.Filling? ==> q.done <= FIELDS)
  }

  lemma WritersKept(s: State, s': State, t: nat, lo: nat, hi: nat)
    requires Accounted(s, lo, hi) && WritersOk(s, lo, hi) && FlusherOk(s, lo, hi)
    requires t in s.threads && t in s'.threads && Proceeds(s.threads[t], s'.threads[t])
    requires s' == Move(s, t, s'.threads[t]).(inProgress := s'.inProgress)
    ensures Accounted(s', lo, hi) && WritersOk(s', lo, hi) && FlusherOk(s', lo, hi)
  {
    hide Lines, FlusherOk, Accounted;
    FlusherKept(s, s', t, lo, hi);
    forall u | u in s'.threads && Writes(s'.threads[u])
      ensures Writes(s.threads[u]) && s'.threads[u].buffer == s.threads[u].buffer
      ensures s'.threads[u].slot == s.threads[u].slot && s'.threads[u].e == s.threads[u].e
    {
    }
    assert forall b, j :: Taken(s', lo, hi, b, j) == Taken(s, lo, hi, b, j);
    assert forall b, j :: Number(s', lo, b, j) == Number(s, lo, b, j);
  }

  lemma FlusherKept(s: State, s': State, t: nat, lo: nat, hi: nat)
    requires Accounted(s, lo, hi) && FlusherOk(s, lo, hi)
    requires t in s.threads && t in s'.threads && Proceeds(s.threads[t], s'.threads[t])
    requires s' == Move(s, t, s'.threads[t]).(inProgress := s'.inProgress)
    ensures Accounted(s', lo, hi) && FlusherOk(s', lo, hi)
  {
    hide Lines;
  }

  lemma OutsideStep(s: State, t: nat, p: Thread, lo: nat, hi: nat)
    requires Inv(s, lo, hi) && t in s.threads && Outside(s.threads[t]) && Outside(p)
    ensures Inv(Move(s, t, p), lo, hi)
  {
    hide SlotsOk, LocksOk, WritersOk, FlusherOk, Accounted;
    var s' := Move(s, t, p);
    LocksKept(s, s', t);
    ThreadSlots(s, s', t, lo, hi);
    WritersKept(s, s', t, lo, hi);
  }

  lemma ReserveSlots(s: State, t: nat, lo: nat, hi: nat)
    requires Inv(s, lo, hi) && t in s.threads && s.threads[t].Calling? && MutexFree(s) && s.tracing
    requires s.count < CAPACITY
    ensures var s' := Next(s, Reserve(t)); Shaped(s') && Accounted(s', lo, hi) && SlotsOk(s', lo, hi)
  {
    hide LocksOk, FlusherOk, WritersOk;
    var s' := Next(s, Reserve(t));
    assert s'.accepted[..|s.printed|] == s.accepted[..|s.printed|];
    forall b: nat, j: nat, f: nat | Taken(s', lo, hi, b, j) && f < FIELDS
      ensures Filled(s', lo, b, j, f) || Owed(s'.threads, b, j, f)
    {
      if b == s.current && j == s.count {
        assert FillsAt(s'.threads[t], b, j, f);
      } else {
        assert Taken(s, lo, hi, b, j);
        if Owed(s.threads, b, j, f) {
          OwedStays(s.threads, t, s'.threads[t], b, j, f);
        }
      }
    }
  }

  lemma ReserveWriters(s: State, t: nat, lo: nat, hi: nat)
    requires Inv(s, lo, hi) && t in s.threads && s.threads[t].Calling? && MutexFree(s) && s.tracing
    requires s.count < CAPACITY
    ensures var s' := Next(s, Reserve(t)); Accounted(s', lo, hi) && WritersOk(s', lo, hi) && FlusherOk(s', lo, hi)
  {
    hide SlotsOk, LocksOk, MutexFree, Lines;
    var s' := Next(s, Reserve(t));
    assert s'.accepted[..|s.printed|] == s.accepted[..|s.printed|];
    assert forall b, j ::
        Taken(s, lo, hi, b, j) ==> Taken(s', lo, hi, b, j) && Number(s', lo, b, j) == Number(s, lo, b, j);
  }

  lemma ReserveStep(s: State, t: nat, lo: nat, hi: nat)
    requires Inv(s, lo, hi) && t in s.threads && s.threads[t].Calling? && MutexFree(s) && s.tracing
    requires s.count < CAPACITY
    ensures Inv(Next(s, Reserve(t)), lo, hi)
  {
    hide SlotsOk, LocksOk, MutexFree, WritersOk, FlusherOk;
    var s' := Next(s, Reserve(t));
    LocksKept(s, s', t);
    ReserveSlots(s, t, lo, hi);
    ReserveWriters(s, t, lo, hi);
  }

  lemma EnterStep(s: State, t: nat, lo: nat, hi: nat)
    requires Inv(s, lo, hi) && t in s.threads && s.threads[t].Reserved?
    ensures Inv(Next(s, Enter(t)), lo, hi)
  {
    hide SlotsOk, LocksOk, WritersOk, FlusherOk, Accounted;
    var s' := Next(s, Enter(t));
    LocksKept(s, s', t);
    ThreadSlots(s, s', t, lo, hi);
    WritersKept(s, s', t, lo, hi);
  }

  /** A thread moves on, and still fills what it did not fill. */
  lemma ThreadSlots(s: State, s': State, t: nat, lo: nat, hi: nat)
    requires Shaped(s) && Accounted(s, lo, hi) && SlotsOk(s, lo, hi) && t in s.threads && t in s'.threads
    requires s' == Move(s, t, s'.threads[t]).(inProgress := s'.inProgress, flushing := s'.flushing)
    requires forall b, j, f | 0 <= f < FIELDS && FillsAt(s.threads[t], b, j, f) :: FillsAt(s'.threads[t], b, j, f)
    ensures Shaped(s') && Accounted(s', lo, hi) && SlotsOk(s', lo, hi)
  {
    forall b: nat, j: nat, f: nat | Taken(s', lo, hi, b, j) && f < FIELDS
      ensures Filled(s', lo, b, j, f) || Owed(s'.threads, b, j, f)
    {
      assert Taken(s, lo, hi, b, j);
      if Owed(s.threads, b, j, f) {
        OwedStays(s.threads, t, s'.threads[t], b, j, f);
      }
    }
  }

  lemma WriteSlots(s: State, t: nat, lo: nat, hi: nat)
    requires Inv(s, lo, hi) && t in s.threads && s.threads[t].Filling? && s.threads[t].done < FIELDS
    ensures var s' := Next(s, Write(t)); Shaped(s') && Accounted(s', lo, hi) && SlotsOk(s', lo, hi)
  {
    hide LocksOk, FlusherOk;
    var s', p := Next(s, Write(t)), s.threads[t];
    forall b: nat, j: nat, f: nat | Taken(s', lo, hi, b, j) && f < FIELDS
      ensures Filled(s', lo, b, j, f) || Owed(s'.threads, b, j, f)
    {
      assert Taken(s, lo, hi, b, j);
      if b == p.buffer && j == p.slot && f == p.done {
        assert Stores(p.e, f) ==> s'.buffers[b][j][f] == p.e.fields[f];
      } else if Owed(s.threads, b, j, f) {
        OwedStays(s.threads, t, s'.threads[t], b, j, f);
      }
    }
  }

  lemma WriteWriters(s: State, t: nat, lo: nat, hi: nat)
    requires Inv(s, lo, hi) && t in s.threads && s.threads[t].Filling? && s.threads[t].done < FIELDS
    ensures var s' := Next(s, Write(t)); Accounted(s', lo, hi) && WritersOk(s', lo, hi)
  {
    hide SlotsOk, LocksOk, SetField, FlusherOk;
  }

  lemma WriteStep(s: State, t: nat, lo: nat, hi: nat)
    requires Inv(s, lo, hi) && t in s.threads && s.threads[t].Filling? && s.threads[t].done < FIELDS
    ensures Inv(Next(s, Write(t)), lo, hi)
  {
    hide SlotsOk, LocksOk, WritersOk, SetField;
    WriteSlots(s, t, lo, hi);
    WriteWriters(s, t, lo, hi);
    LocksKept(s, Next(s, Write(t)), t);
  }

  lemma LeaveStep(s: State, t: nat, lo: nat, hi: nat)
    requires Inv(s, lo, hi) && t in s.threads && s.threads[t].Filling? && s.threads[t].done == FIELDS
    ensures Inv(Next(s, Leave(t)), lo, hi)
  {
    hide SlotsOk, LocksOk, WritersOk, FlusherOk, Accounted;
    var s' := Next(s, Leave(t));
    ThreadSlots(s, s', t, lo, hi);
    LocksKept(s, s', t);
    WritersKept(s, s', t, lo, hi);
  }

  /** The buffers change places: what was current is to be flushed, and nobody writes to what was not. */
  lemma SwapSlots(s: State, t: nat, lo: nat, hi: nat)
    requires Inv(s, lo, hi) && t in s.threads && s.threads[t].Idle? && MutexFree(s) && !s.flushing
    ensures var s' := Next(s, Swap(t)); Shaped(s') && Accounted(s', 0, s.count) && SlotsOk(s', 0, s.count)
  {
    hide LocksOk, WritersOk;
    var s' := Next(s, Swap(t));
    forall b: nat, j: nat, f: nat | Taken(s', 0, s.count, b, j) && f < FIELDS
      ensures Filled(s', 0, b, j, f) || Owed(s'.threads, b, j, f)
    {
      assert Taken(s, lo, hi, b, j);
      if Owed(s.threads, b, j, f) {
        OwedStays(s.threads, t, s'.threads[t], b, j, f);
      }
    }
  }

  lemma SwapWriters(s: State, t: nat, lo: nat, hi: nat)
    requires Inv(s, lo, hi) && t in s.threads && s.threads[t].Idle? && MutexFree(s) && !s.flushing
    ensures var s' := Next(s, Swap(t)); Accounted(s', 0, s.count) && WritersOk(s', 0, s.count)
  {
    hide SlotsOk, LocksOk;
  }

  lemma SwapStep(s: State, t: nat, lo: nat, hi: nat)
    requires Inv(s, lo, hi) && t in s.threads && s.threads[t].Idle? && MutexFree(s) && !s.flushing
    ensures Inv(Next(s, Swap(t)), 0, s.count)
  {
    hide SlotsOk, WritersOk;
    var s' := Next(s, Swap(t));
    SwapSlots(s, t, lo, hi);
    SwapWriters(s, t, lo, hi);
    LocksKept(s, s', t);
  }

  /** When no event is in progress, nobody writes, and nobody is about to: the mutex keeps new writers out. So
      the thread that has waited goes on to print with nobody writing. */
  lemma PollStep(s: State, t: nat, lo: nat, hi: nat)
    requires Inv(s, lo, hi) && t in s.threads && s.threads[t].Waiting? && s.inProgress == 0
    ensures forall u | u in s.threads :: !Writes(s.threads[u])
    ensures var r := Next(s, Poll(t)); r.threads[t].Printing? && forall u | u in r.threads :: !Writes(r.threads[u])
    ensures Inv(Next(s, Poll(t)), lo, hi)
  {
    hide SlotsOk;
    var s' := Next(s, Poll(t));
    ThreadSlots(s, s', t, lo, hi);
    assert Fillers(s') == Fillers(s) == {};
    assert forall u | u in s.threads :: s.threads[u].Filling? ==> u in Fillers(s);
  }

  /** A slot in which everything has been written gives the line of its event. */
  lemma SameLine(slot: Slot, e: Event)
    requires forall f: nat | f < FIELDS && Stores(e, f) :: slot[f] == e.fields[f]
    ensures Line(slot) == Line(e.fields)
  {
    ShownIsStored(e);
    forall k: nat | k < FIELDS ensures Line(slot)[k] == Line(e.fields)[k] {
      assert Shows(slot, k) <==> Shows(e.fields, k);
    }
  }

  /** The slot whose turn it is holds its event, complete. */
  lemma NextIsComplete(s: State, t: nat, lo: nat, hi: nat)
    requires Inv(s, lo, hi) && t in s.threads && s.threads[t].Printing? && s.threads[t].i < s.threads[t].n
    ensures lo == s.threads[t].i && Line(s.buffers[Flushed(s)][lo]) == Line(s.accepted[|s.printed|].fields)
  {
    var b := Flushed(s);
    assert Taken(s, lo, hi, b, lo) && Number(s, lo, b, lo) == |s.printed|;
    forall f: nat | f < FIELDS && Stores(s.accepted[|s.printed|], f)
      ensures s.buffers[b][lo][f] == s.accepted[|s.printed|].fields[f]
    {
      assert !Owed(s.threads, b, lo, f);
    }
    SameLine(s.buffers[b][lo], s.accepted[|s.printed|]);
  }

  lemma PrintSlots(s: State, t: nat, lo: nat, hi: nat)
    requires Inv(s, lo, hi) && t in s.threads && s.threads[t].Printing? && s.threads[t].i < s.threads[t].n
    ensures var s' := Next(s, Print(t)); Shaped(s') && Accounted(s', lo + 1, hi) && SlotsOk(s', lo + 1, hi)
  {
    hide LocksOk, WritersOk;
    NextIsComplete(s, t, lo, hi);
    var s' := Next(s, Print(t));
    assert s'.printed == Lines(s.accepted[..|s.printed| + 1]);
    forall b: nat, j: nat, f: nat | Taken(s', lo + 1, hi, b, j) && f < FIELDS
      ensures Filled(s', lo + 1, b, j, f) || Owed(s'.threads, b, j, f)
    {
      assert Taken(s, lo, hi, b, j);
      if Owed(s.threads, b, j, f) {
        OwedStays(s.threads, t, s'.threads[t], b, j, f);
      }
    }
  }

  lemma PrintStep(s: State, t: nat, lo: nat, hi: nat)
    requires Inv(s, lo, hi) && t in s.threads && s.threads[t].Printing? && s.threads[t].i < s.threads[t].n
    ensures Inv(Next(s, Print(t)), lo + 1, hi)
  {
    hide SlotsOk, LocksOk;
    PrintSlots(s, t, lo, hi);
    NextIsComplete(s, t, lo, hi);
    LocksKept(s, Next(s, Print(t)), t);
  }

  lemma FinishStep(s: State, t: nat, lo: nat, hi: nat)
    requires Inv(s, lo, hi) && t in s.threads && s.threads[t].Printing? && s.threads[t].i >= s.threads[t].n
    ensures Inv(Next(s, Finish(t)), lo, hi)
  {
    hide SlotsOk, Fillers;
    var s' := Next(s, Finish(t));
    if s' != s {
      ThreadSlots(s, s', t, lo, hi);
      LocksKept(s, s', t);
    }
  }

  lemma TracingSlots(s: State, on: bool, lo: nat, hi: nat)
    requires Shaped(s) && Accounted(s, lo, hi) && SlotsOk(s, lo, hi)
    ensures SlotsOk(s.(tracing := on), lo, hi)
  {
    var s' := s.(tracing := on);
    forall b: nat, j: nat, f: nat | Taken(s', lo, hi, b, j) && f < FIELDS
      ensures Filled(s', lo, b, j, f) || Owed(s'.threads, b, j, f)
    {
      assert Taken(s, lo, hi, b, j);
    }
  }

  lemma TracingLocks(s: State, on: bool)
    requires LocksOk(s)
    ensures LocksOk(s.(tracing := on))
  {
    assert Fillers(s.(tracing := on)) == Fillers(s);
  }

  lemma TracingStep(s: State, on: bool, lo: nat, hi: nat)
    requires Inv(s, lo, hi)
    ensures Inv(Next(s, SetTracing(on)), lo, hi)
  {
    hide SlotsOk, LocksOk;
    TracingLocks(s, on);
    TracingSlots(s, on, lo, hi);
  }

  /** Every step of every thread keeps the invariant. */
  lemma StepKeepsInv(s: State, a: Action, lo: nat, hi: nat) returns (lo': nat, hi': nat)
    requires Inv(s, lo, hi)
    ensures Inv(Next(s, a), lo', hi')
  {
    hide Inv;
    lo', hi' := lo, hi;
    if Enabled(s, a) {
      match a
      case Call(t, e) => OutsideStep(s, t, Calling(e), lo, hi);
      case Reserve(t) =>
        if !s.tracing || s.count >= CAPACITY {
          OutsideStep(s, t, Idle, lo, hi);
        } else {
          ReserveStep(s, t, lo, hi);
        }
      case Enter(t) => EnterStep(s, t, lo, hi);
      case Write(t) => WriteStep(s, t, lo, hi);
      case Leave(t) => LeaveStep(s, t, lo, hi);
      case Swap(t) =>
        if !s.flushing {
          SwapStep(s, t, lo, hi);
          lo', hi' := 0, s.count;
        }
      case Poll(t) =>
        if s.inProgress == 0 {
          PollStep(s, t, lo, hi);
        }
      case Print(t) =>
        PrintStep(s, t, lo, hi);
        lo' := lo + 1;
      case Finish(t) => FinishStep(s, t, lo, hi);
      case SetTracing(on) => TracingStep(s, on, lo, hi);
    }
  }

  // ---------------------------------------------------------------- results

  /** The invariant in every state of every run of any number of threads. */
  lemma {:induction false} RunKeepsInv(s: State, actions: seq<Action>) returns (lo: nat, hi: nat)
    requires Initial(s)
    ensures Inv(Run(s, actions), lo, hi)
    decreases |actions|
  {
    if actions == [] {
      InitialIsInv(s);
      lo, hi := 0, 0;
    } else {
      var n := |actions| - 1;
      lo, hi := RunKeepsInv(s, actions[..n]);
      lo, hi := StepKeepsInv(Run(s, actions[..n]), actions[n], lo, hi);
    }
  }

  /** The events that a thread has printed so far are the first accepted ones, complete and in the order
      of acceptance: none is lost, printed twice or printed before it was written. */
  lemma PrintedAreAccepted(s: State, actions: seq<Action>)
    requires Initial(s)
    ensures var r := Run(s, actions);
            |r.printed| <= |r.accepted| <= |r.printed| + 2 * CAPACITY && r.printed == Lines(r.accepted[..|r.printed|])
  {
    hide Run, Next;
    var lo, hi := RunKeepsInv(s, actions);
  }

  /** Writers own different slots within the buffers. */
  lemma {:induction false} WritersAreApart(s: State, actions: seq<Action>, t: nat, u: nat)
    requires Initial(s)
    requires var r := Run(s, actions);
             t in r.threads && u in r.threads && t != u && Writes(r.threads[t]) && Writes(r.threads[u])
    ensures var r := Run(s, actions);
            r.threads[t].buffer < |r.buffers| && r.threads[t].slot < |r.buffers[r.threads[t].buffer]| &&
            (r.threads[t].buffer != r.threads[u].buffer || r.threads[t].slot != r.threads[u].slot)
  {
    hide Run, Next;
    var lo, hi := RunKeepsInv(s, actions);
  }

  /** While a thread prints, nobody writes to the buffer it prints from, and no other thread prints. */
  lemma PrintingIsAlone(s: State, actions: seq<Action>, t: nat, u: nat)
    requires Initial(s)
    requires var r := Run(s, actions); t in r.threads && u in r.threads && t != u && r.threads[t].Printing?
    ensures var r := Run(s, actions);
            !r.threads[u].Printing? && (Writes(r.threads[u]) ==> r.threads[u].buffer == r.current != Flushed(r))
  {
    hide Run, Next;
    var lo, hi := RunKeepsInv(s, actions);
  }

  /** When nobody writes or flushes, one more flush prints everything that was accepted. */
  lemma RestIsCurrent(s: State, actions: seq<Action>)
    requires Initial(s)
    requires var r := Run(s, actions); !r.flushing && forall t | t in r.threads :: !Writes(r.threads[t])
    ensures var r := Run(s, actions);
            Shaped(r) && |r.accepted| == |r.printed| + r.count && r.printed == Lines(r.accepted[..|r.printed|]) &&
            forall j | 0 <= j < r.count :: Line(r.buffers[r.current][j]) == Line(r.accepted[|r.printed| + j].fields)
  {
    hide Run, Next;
    var lo, hi := RunKeepsInv(s, actions);
    var r := Run(s, actions);
    forall j | 0 <= j < r.count ensures Line(r.buffers[r.current][j]) == Line(r.accepted[|r.printed| + j].fields) {
      SlotIsComplete(r, lo, hi, j);
    }
  }

  lemma SlotIsComplete(s: State, lo: nat, hi: nat, j: nat)
    requires Inv(s, lo, hi) && j < s.count && !s.flushing && forall t | t in s.threads :: !Writes(s.threads[t])
    ensures lo == hi && Line(s.buffers[s.current][j]) == Line(s.accepted[|s.printed| + j].fields)
  {
    var e := s.accepted[|s.printed| + j];
    assert Taken(s, lo, hi, s.current, j) && Number(s, lo, s.current, j) == |s.printed| + j;
    forall f: nat | f < FIELDS && Stores(e, f) ensures s.buffers[s.current][j][f] == e.fields[f] {
      assert !Owed(s.threads, s.current, j, f);
    }
    SameLine(s.buffers[s.current][j], e);
  }
}
