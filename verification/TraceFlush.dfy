/** An event from the call that records it to the line that is printed for it. */
module TraceFlush {
  import opened Wrappers
  import opened TraceModel

  /** What a line tells of its event: name, category, time, process, thread and phase; the argument with its
      kind, if it has one; the id if the phase is one of S, T and F; the duration of a complete event with an
      id and no argument. */
  lemma LineTells(e: Event)
    ensures var f, l := e.fields, Line(e.fields);
            && l[0] == f[0] && l[1] == f[1] && l[3] == f[3] && l[4] == f[4] && l[5] == f[5] && l[6] == f[6]
            && l[7] == f[7] && (f[7] != 0 ==> e.withArg && l[8] == f[8] && l[9] == f[9])
            && (f[6] == 'S' as int || f[6] == 'T' as int || f[6] == 'F' as int ==> l[2] == f[2])
            && (f[7] == 0 && f[6] == 'X' as int && f[2] != 0 ==> l[9] == f[9])
  {
  }

  lemma {:induction false} RunOn(s: State, a: seq<Action>, b: seq<Action>)
    ensures Run(s, a + b) == Run(Run(s, a), b)
    decreases |b|
  {
    if b == [] {
      assert a + b == a;
    } else {
      var n := |b| - 1;
      RunOn(s, a, b[..n]);
      assert (a + b)[..|a + b| - 1] == a + b[..n];
    }
  }

  function Times(a: Action, n: nat): seq<Action> {
    seq(n, i => a)
  }

  lemma {:induction false} TimesUnfold(s: State, a: Action, n: nat)
    ensures Run(s, Times(a, 0)) == s
    ensures Run(s, Times(a, n + 1)) == Next(Run(s, Times(a, n)), a)
  {
    assert Times(a, n + 1)[..n] == Times(a, n);
  }

  /** A thread records an event, all by itself. */
  function Recorded(t: nat, e: Event): seq<Action> {
    [Call(t, e), Reserve(t), Enter(t)] + Times(Write(t), FIELDS) + [Leave(t)]
  }

  /** A thread flushes, all by itself; it prints as many lines as there are. */
  function Flushing(u: nat): seq<Action> {
    [Swap(u), Poll(u)] + Times(Print(u), CAPACITY) + [Finish(u)]
  }

  ghost predicate AtRest(s: State) {
    !s.flushing && forall t | t in s.threads :: s.threads[t].Idle?
  }

  /** A recorder at rest prints, after one more event and a flush, the lines of all events it has accepted and
      of this one; the event is missing exactly when tracing is off or the buffer was full. */
  lemma RecordedIsPrinted(s: State, actions: seq<Action>, t: nat, u: nat, e: Event)
    requires Initial(s)
    requires var r := Run(s, actions); AtRest(r) && t in r.threads && u in r.threads
    ensures var r := Run(s, actions);
            var q := Run(s, actions + Recorded(t, e) + Flushing(u));
            var waiting := |r.accepted| - |r.printed|;
            AtRest(q) && q.printed == Lines(r.accepted + if r.tracing && waiting < CAPACITY then [e] else [])
  {
    hide Run, Next, Recorded, Flushing, Inv, Lines;
    var r := Run(s, actions);
    RestHolds(s, actions);
    RunOn(s, actions, Recorded(t, e));
    var m := Run(s, actions + Recorded(t, e));
    RecordedAlone(r, t, e);
    RestHolds(s, actions + Recorded(t, e));
    RunOn(s, actions + Recorded(t, e), Flushing(u));
    FlushedAlone(m, u);
    RestHolds(s, actions + Recorded(t, e) + Flushing(u));
    var q := Run(s, actions + Recorded(t, e) + Flushing(u));
    assert q.accepted[..|q.printed|] == q.accepted;
  }

  /** What is known of a reachable recorder at rest. */
  lemma RestHolds(s: State, actions: seq<Action>)
    requires Initial(s)
    ensures var r := Run(s, actions);
            AtRest(r) ==>
              Shaped(r) && r.inProgress == 0 && |r.accepted| == |r.printed| + r.count &&
              r.printed == Lines(r.accepted[..|r.printed|])
  {
    hide Run, Next, Lines;
    var lo, hi := RunKeepsInv(s, actions);
    var r := Run(s, actions);
    if AtRest(r) {
      assert Fillers(r) == {};
      RestIsCurrent(s, actions);
    }
  }

  lemma RecordedAlone(s: State, t: nat, e: Event)
    requires AtRest(s) && Shaped(s) && t in s.threads
    ensures var q := Run(s, Recorded(t, e));
            AtRest(q) && q.threads.Keys == s.threads.Keys && q.tracing == s.tracing && q.printed == s.printed &&
            q.accepted == s.accepted + if s.tracing && s.count < CAPACITY then [e] else []
  {
    hide Run, Next, Times, Shaped, AtRest;
    var first, writes := [Call(t, e), Reserve(t), Enter(t)], Times(Write(t), FIELDS);
    RunOn(s, first + writes, [Leave(t)]);
    RunOn(s, first, writes);
    ThreeSteps(s, first);
    var s3 := Next(Next(Next(s, Call(t, e)), Reserve(t)), Enter(t));
    var s4 := Run(s3, writes);
    OneStep(s4, Leave(t));
    RecordingBegins(s, t, e);
    if s.tracing && s.count < CAPACITY {
      Fills(s3, t, FIELDS);
    } else {
      Idles(s3, Write(t), FIELDS);
    }
    RecordingEnds(s, s4, t, e);
  }

  lemma RecordingBegins(s: State, t: nat, e: Event)
    requires AtRest(s) && t in s.threads
    ensures var r := Next(Next(Next(s, Call(t, e)), Reserve(t)), Enter(t));
            if s.tracing && s.count < CAPACITY
            then r == s.(count := s.count + 1, accepted := s.accepted + [e], inProgress := s.inProgress + 1,
                         threads := s.threads[t := Filling(e, s.current, s.count, 0)])
            else r == s.(threads := s.threads[t := Idle]) && !Enabled(r, Write(t))
  {
    var s1 := Next(s, Call(t, e));
    assert s1 == s.(threads := s.threads[t := Calling(e)]);
    assert MutexFree(s1);
    var s2 := Next(s1, Reserve(t));
    assert s2 == if s.tracing && s.count < CAPACITY
      then s.(count := s.count + 1, accepted := s.accepted + [e],
              threads := s.threads[t := Reserved(e, s.current, s.count)])
      else s.(threads := s.threads[t := Idle]);
  }

  lemma RecordingEnds(s: State, s4: State, t: nat, e: Event)
    requires AtRest(s) && t in s.threads
    requires if s.tracing && s.count < CAPACITY
             then s4 == s.(count := s.count + 1, accepted := s.accepted + [e], inProgress := s.inProgress + 1,
                           buffers := s4.buffers,
                           threads := s.threads[t := Filling(e, s.current, s.count, FIELDS)])
             else s4 == s.(threads := s.threads[t := Idle])
    ensures var q := Next(s4, Leave(t));
            AtRest(q) && q.threads.Keys == s.threads.Keys && q.tracing == s.tracing && q.printed == s.printed &&
            q.accepted == s.accepted + if s.tracing && s.count < CAPACITY then [e] else []
  {
  }

  lemma OneStep(s: State, a: Action)
    ensures Run(s, [a]) == Next(s, a)
  {
    assert [a][..0] == [];
    assert Run(s, []) == s;
  }

  lemma ThreeSteps(s: State, a: seq<Action>)
    requires |a| == 3
    ensures Run(s, a) == Next(Next(Next(s, a[0]), a[1]), a[2])
  {
    hide Next;
    assert a == [a[0]] + [a[1]] + [a[2]];
    RunOn(s, [a[0]] + [a[1]], [a[2]]);
    RunOn(s, [a[0]], [a[1]]);
    OneStep(s, a[0]);
    OneStep(Next(s, a[0]), a[1]);
    OneStep(Next(Next(s, a[0]), a[1]), a[2]);
  }

  lemma {:induction false} Fills(s: State, t: nat, k: nat)
    requires t in s.threads && s.threads[t].Filling? && s.threads[t].done == 0 && k <= FIELDS
    ensures var q := Run(s, Times(Write(t), k));
            q == s.(buffers := q.buffers, threads := s.threads[t := s.threads[t].(done := k)])
    decreases k
  {
    hide SetField, Run, Times;
    TimesUnfold(s, Write(t), 0);
    if k > 0 {
      Fills(s, t, k - 1);
      TimesUnfold(s, Write(t), k - 1);
    }
  }

  lemma {:induction false} Idles(s: State, a: Action, k: nat)
    requires !Enabled(s, a)
    ensures Run(s, Times(a, k)) == s
    decreases k
  {
    hide Enabled, Run, Times;
    TimesUnfold(s, a, 0);
    if k > 0 {
      Idles(s, a, k - 1);
      TimesUnfold(s, a, k - 1);
    }
  }

  lemma {:induction false} Prints(s: State, u: nat, k: nat)
    requires Shaped(s) && u in s.threads && s.threads[u].Printing? && s.threads[u].i == 0
    requires s.threads[u].n <= CAPACITY
    ensures var q, n := Run(s, Times(Print(u), k)), s.threads[u].n;
            q == s.(printed := q.printed, threads := s.threads[u := Printing(n, if k < n then k else n)])
    decreases k
  {
    hide Line, Run, Times;
    TimesUnfold(s, Print(u), 0);
    if k > 0 {
      Prints(s, u, k - 1);
      TimesUnfold(s, Print(u), k - 1);
    }
  }

  lemma FlushedAlone(s: State, u: nat)
    requires AtRest(s) && Shaped(s) && u in s.threads && s.inProgress == 0
    ensures var q := Run(s, Flushing(u)); AtRest(q) && q.count == 0 && q.accepted == s.accepted
  {
    hide Run;
    var first, prints := [Swap(u), Poll(u)], Times(Print(u), CAPACITY);
    RunOn(s, first + prints, [Finish(u)]);
    RunOn(s, first, prints);
    assert first == [Swap(u)] + [Poll(u)];
    RunOn(s, [Swap(u)], [Poll(u)]);
    OneStep(s, Swap(u));
    var s1 := Next(s, Swap(u));
    OneStep(s1, Poll(u));
    assert MutexFree(s);
    var s2 := Next(s1, Poll(u));
    Prints(s2, u, CAPACITY);
    var s3 := Run(s, first + prints);
    OneStep(s3, Finish(u));
    assert MutexFree(s3);
  }
}
