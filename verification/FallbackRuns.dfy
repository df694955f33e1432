/** A fallback over a whole run: its verdict is the short-circuit "or" of the final answers of its
    children, however they spread Running over ticks. */
module FallbackRuns {
  import opened NodeTypes
  import opened TickModel
  import opened Quiescence

  // ---------------------------------------------------------------- the reference

  /** The "or" of final answers. */
  function Or(finals: seq<Status>): Status {
    if Success in finals then Success
    else if Failure in finals then Failure
    else Skipped
  }

  datatype OrResult =
    | Crashed
    | Pending(kids: seq<Node>, next: nat, log: Log)
    | Verdict(kids: seq<Node>, answer: Status, log: Log, finals: seq<Status>)

  /** The children ticked one after the other, each until it stops answering Running, until one
      succeeds or none is left. There is no index, no counter and no pause; `fuel` bounds the number
      of child ticks. */
  function OrRun(kids: seq<Node>, i: nat, finals: seq<Status>, w: World, t: Log, fuel: nat): OrResult
    requires i <= |kids|
    decreases fuel
  {
    if i == |kids| || Success in finals then Verdict(kids, Or(finals), t, finals)
    else if fuel == 0 then Pending(kids, i, t)
    else
      match ExecuteTick(kids[i], w, Noted(kids[i], t))
      case Threw => Crashed
      case Done(c, answer, t1) =>
        if answer == Running then OrRun(kids[i := c], i, finals, w, t1, fuel - 1)
        else OrRun(kids[i := c], i + 1, finals + [answer], w, t1, fuel - 1)
  }

  datatype RunResult = RunThrew | RunPending(node: Node, log: Log) | RunEnded(node: Node, answer: Status, log: Log)

  /** A node ticked until it stops answering Running, at most `k` times. Its own ticks are not noted: the log
      is that of the nodes below it. */
  function RunNode(n: Node, w: World, t: Log, k: nat): RunResult
    decreases k
  {
    if k == 0 then RunPending(n, t)
    else
      match ExecuteTick(n, w, t)
      case Threw => RunThrew
      case Done(n1, answer, t1) =>
        if answer == Running then RunNode(n1, w, t1, k - 1) else RunEnded(n1, answer, t1)
  }

  // ---------------------------------------------------------------- one tick against the reference

  function Skips(finals: seq<Status>): nat {
    if finals == [] then 0 else Skips(finals[..|finals| - 1]) + if finals[|finals| - 1] == Skipped then 1 else 0
  }

  lemma SkipsAppend(finals: seq<Status>, s: Status)
    ensures Skips(finals + [s]) == Skips(finals) + if s == Skipped then 1 else 0
  {
    assert (finals + [s])[..|finals|] == finals;
  }

  lemma {:induction false} SkipsAll(finals: seq<Status>)
    ensures Skips(finals) <= |finals|
    ensures Skips(finals) == |finals| <==> forall s | s in finals :: s == Skipped
  {
    if finals != [] {
      var front, last := finals[..|finals| - 1], finals[|finals| - 1];
      SkipsAll(front);
      assert finals == front + [last] && last in finals;
      assert forall s | s in front :: s in finals;
    }
  }

  /** The children left of the index have answered Failure or Skipped, those right of it are as they
      were when the tick began; the skip count counts the skips, on top of a `stale` rest. */
  ghost predicate InStep(n: Node, cs: seq<Node>, finals: seq<Status>, stale: nat) {
    n.kind.Fallback? && n.status == Running && |n.children| == |cs| && n.memo.idx <= |cs| &&
    (forall j | n.memo.idx <= j < |cs| :: n.children[j] == cs[j]) &&
    |finals| == n.memo.idx && (forall s | s in finals :: s == Failure || s == Skipped) &&
    n.memo.skipped == stale + Skips(finals)
  }

  /** The verdict the counters give. */
  function CountedVerdict(finals: seq<Status>, count: nat, stale: nat): Status {
    if Success in finals then Success
    else if stale + Skips(finals) == count then Skipped
    else Failure
  }

  /** A stale skip count is harmless exactly when a child succeeds, or when the child skips reach the
      number of children neither with it nor without it. */
  lemma StaleCount(finals: seq<Status>, stale: nat)
    requires forall s | s in finals :: s != Idle && s != Running
    ensures CountedVerdict(finals, |finals|, stale) == Or(finals) <==>
            Success in finals || stale == 0 ||
            (Skips(finals) != |finals| && stale + Skips(finals) != |finals|)
  {
    SkipsAll(finals);
  }

  /** What `FallbackLoop` does is a stretch of `j` child ticks of the reference. */
  ghost predicate Stretch(kids: seq<Node>, i: nat, finals: seq<Status>, w: World, t: Log, stale: nat,
                          o: Outcome, j: nat, fin: seq<Status>, end: seq<Node>)
    requires i <= |kids|
  {
    match o
    case Threw => forall fuel: nat | fuel >= j :: OrRun(kids, i, finals, w, t, fuel) == Crashed
    case Done(n, answer, t1) =>
      if answer == Running then
        n.memo.idx <= |n.children| &&
        forall fuel: nat | fuel >= j ::
          OrRun(kids, i, finals, w, t, fuel) == OrRun(n.children, n.memo.idx, fin, w, t1, fuel - j)
      else
        answer == CountedVerdict(fin, |kids|, stale) && n.children == ResetAll(end) && n.memo.idx == 0 &&
        (forall s | s in fin :: s != Idle && s != Running) && (Success in fin || |fin| == |kids|) &&
        forall fuel: nat | fuel >= j :: OrRun(kids, i, finals, w, t, fuel) == Verdict(end, Or(fin), t1, fin)
  }

  /** ... after which the node is again in step, if it answered Running. */
  ghost predicate LoopPost(n: Node, cs: seq<Node>, finals: seq<Status>, w: World, t: Log, stale: nat,
                           o: Outcome, j: nat, fin: seq<Status>, end: seq<Node>)
    requires n.memo.idx <= |n.children|
  {
    Stretch(n.children, n.memo.idx, finals, w, t, stale, o, j, fin, end) && (n.memo.idx < |cs| ==> j > 0) &&
    (o.Done? ==>
      o.node.kind == n.kind && o.node.pre == n.pre && o.node.status == Running && |o.node.children| == |cs|) &&
    (o.Done? && o.answer == Running ==> j > 0 && InStep(o.node, o.node.children, fin, stale) && o.node.memo.idx < |cs|)
  }

  /** A fallback once its child at the index has failed or skipped. */
  function Moved(n: Node, c: Node, answer: Status): Node
    requires n.memo.idx < |n.children|
  {
    var m := n.memo.(idx := n.memo.idx + 1);
    n.(children := n.children[n.memo.idx := c], memo := if answer == Failure then m else m.(skipped := m.skipped + 1))
  }

  predicate Pauses(n: Node, cs: seq<Node>, answer: Status, w: World)
    requires n.kind.Fallback? && n.memo.idx < |cs|
  {
    answer == Failure && n.kind.asynch && w.wakeUp && cs[n.memo.idx].status == Idle && n.memo.idx + 1 < |cs|
  }

  lemma {:induction false} LoopIsStretch(n: Node, cs: seq<Node>, finals: seq<Status>, stale: nat, w: World, t: Log)
    returns (j: nat, fin: seq<Status>, end: seq<Node>)
    requires InStep(n, cs, finals, stale)
    ensures LoopPost(n, cs, finals, w, t, stale, FallbackLoop(n, cs, w, t), j, fin, end)
    decreases cs, |cs| - n.memo.idx
  {
    hide ExecuteTick, OrRun, ResetAll, FallbackLoop, Moved, Stretch;
    var i := n.memo.idx;
    if i == |cs| {
      LoopEnd(n, cs, finals, stale, w, t);
      return 0, finals, n.children;
    }
    var o := ExecuteTick(cs[i], w, Noted(cs[i], t));
    if o.Threw? || o.answer == Success || o.answer == Running || o.answer == Idle {
      j, fin, end := LoopStops(n, cs, finals, stale, w, t);
    } else if Pauses(n, cs, o.answer, w) {
      LoopPauses(n, cs, finals, stale, w, t);
      j, fin, end := 1, finals + [Failure], [];
    } else {
      LoopMoves(n, cs, finals, stale, w, t);
      var n1 := Moved(n, o.node, o.answer);
      j, fin, end := LoopIsStretch(n1, cs, finals + [o.answer], stale, w, o.log);
      StretchStep(n.children, i, finals, w, t, stale, FallbackLoop(n1, cs, w, o.log), j, fin, end);
      j := j + 1;
    }
  }

  lemma LoopMoves(n: Node, cs: seq<Node>, finals: seq<Status>, stale: nat, w: World, t: Log)
    requires InStep(n, cs, finals, stale) && n.memo.idx < |cs|
    requires var o := ExecuteTick(cs[n.memo.idx], w, Noted(cs[n.memo.idx], t));
             o.Done? && (o.answer == Failure || o.answer == Skipped) && !Pauses(n, cs, o.answer, w)
    ensures var o := ExecuteTick(cs[n.memo.idx], w, Noted(cs[n.memo.idx], t));
            var n1 := Moved(n, o.node, o.answer);
            InStep(n1, cs, finals + [o.answer], stale) && n1.kind == n.kind && n1.pre == n.pre &&
            n1.children == n.children[n.memo.idx := o.node] && n1.memo.idx == n.memo.idx + 1 &&
            FallbackLoop(n, cs, w, t) == FallbackLoop(n1, cs, w, o.log)
  {
    hide ExecuteTick, ResetAll, FallbackLoop, Moved;
    var o := ExecuteTick(cs[n.memo.idx], w, Noted(cs[n.memo.idx], t));
    StillInStep(n, cs, finals, stale, o.node, o.answer);
    LoopUnfolds(n, cs, w, t);
  }

  lemma StillInStep(n: Node, cs: seq<Node>, finals: seq<Status>, stale: nat, c: Node, answer: Status)
    requires InStep(n, cs, finals, stale) && n.memo.idx < |cs| && (answer == Failure || answer == Skipped)
    ensures var n1 := Moved(n, c, answer);
            InStep(n1, cs, finals + [answer], stale) && n1.kind == n.kind && n1.pre == n.pre &&
            n1.children == n.children[n.memo.idx := c] && n1.memo.idx == n.memo.idx + 1
  {
    hide Skips;
    SkipsAppend(finals, answer);
  }

  /** One round of the loop, if its child fails or skips. */
  lemma LoopUnfolds(n: Node, cs: seq<Node>, w: World, t: Log)
    requires n.kind.Fallback? && |n.children| == |cs| && n.memo.idx < |cs|
    ensures var o := ExecuteTick(cs[n.memo.idx], w, Noted(cs[n.memo.idx], t));
            o.Done? && (o.answer == Failure || o.answer == Skipped) ==>
              var n1 := Moved(n, o.node, o.answer);
              |n1.children| == |cs| && n1.kind == n.kind &&
              FallbackLoop(n, cs, w, t) ==
                if Pauses(n, cs, o.answer, w) then Done(n1, Running, o.log) else FallbackLoop(n1, cs, w, o.log)
  {
    hide ExecuteTick, FallbackVisit, Moved, Pauses;
    var o := ExecuteTick(cs[n.memo.idx], w, Noted(cs[n.memo.idx], t));
    if o.Done? && (o.answer == Failure || o.answer == Skipped) {
      VisitMoves(n, cs, o.node, o.answer, w, o.log);
    }
  }

  lemma VisitMoves(n: Node, cs: seq<Node>, c: Node, answer: Status, w: World, t: Log)
    requires n.kind.Fallback? && |n.children| == |cs| && n.memo.idx < |cs| && (answer == Failure || answer == Skipped)
    ensures var n1 := Moved(n, c, answer);
            n1.kind == n.kind && |n1.children| == |cs| &&
            FallbackVisit(n.(children := n.children[n.memo.idx := c]), cs[n.memo.idx].status, answer, w, t) ==
            if Pauses(n, cs, answer, w) then Stop(Done(n1, Running, t)) else Next(n1, 0)
  {
  }

  lemma LoopEnd(n: Node, cs: seq<Node>, finals: seq<Status>, stale: nat, w: World, t: Log)
    requires InStep(n, cs, finals, stale) && n.memo.idx == |cs|
    ensures LoopPost(n, cs, finals, w, t, stale, FallbackLoop(n, cs, w, t), 0, finals, n.children)
  {
  }

  /** The child at the index throws, keeps running or succeeds. */
  lemma LoopStops(n: Node, cs: seq<Node>, finals: seq<Status>, stale: nat, w: World, t: Log)
    returns (j: nat, fin: seq<Status>, end: seq<Node>)
    requires InStep(n, cs, finals, stale) && n.memo.idx < |cs|
    requires var o := ExecuteTick(cs[n.memo.idx], w, Noted(cs[n.memo.idx], t));
             o.Threw? || o.answer == Success || o.answer == Running || o.answer == Idle
    ensures LoopPost(n, cs, finals, w, t, stale, FallbackLoop(n, cs, w, t), j, fin, end)
  {
    var i := n.memo.idx;
    var o := ExecuteTick(cs[i], w, Noted(cs[i], t));
    j, fin, end := 1, finals, n.children;
    if o.Done? {
      AnswerNotIdle(cs[i], w, t);
      end := n.children[i := o.node];
      if o.answer == Success {
        fin := finals + [Success];
        assert fin[|finals|] == Success;
      }
    }
  }

  /** The asynchronous fallback pauses after a failure. */
  lemma LoopPauses(n: Node, cs: seq<Node>, finals: seq<Status>, stale: nat, w: World, t: Log)
    requires InStep(n, cs, finals, stale) && n.memo.idx < |cs| && Pauses(n, cs, Failure, w)
    requires var o := ExecuteTick(cs[n.memo.idx], w, Noted(cs[n.memo.idx], t)); o.Done? && o.answer == Failure
    ensures LoopPost(n, cs, finals, w, t, stale, FallbackLoop(n, cs, w, t), 1, finals + [Failure], [])
  {
    hide ExecuteTick, FallbackLoop, Moved;
    var i := n.memo.idx;
    var o := ExecuteTick(cs[i], w, Noted(cs[i], t));
    StillInStep(n, cs, finals, stale, o.node, Failure);
    LoopUnfolds(n, cs, w, t);
    var n1 := Moved(n, o.node, Failure);
    assert forall fuel: nat | fuel >= 1 ::
        OrRun(n.children, i, finals, w, t, fuel) ==
          OrRun(n1.children, i + 1, finals + [Failure], w, o.log, fuel - 1);
  }

  /** One more child tick in front of a stretch. */
  lemma StretchStep(kids: seq<Node>, i: nat, finals: seq<Status>, w: World, t: Log, stale: nat,
                    o: Outcome, j: nat, fin: seq<Status>, end: seq<Node>)
    requires i < |kids| && Success !in finals && ExecuteTick(kids[i], w, Noted(kids[i], t)).Done?
    requires var c := ExecuteTick(kids[i], w, Noted(kids[i], t));
             c.answer != Running &&
             Stretch(kids[i := c.node], i + 1, finals + [c.answer], w, c.log, stale, o, j, fin, end)
    ensures Stretch(kids, i, finals, w, t, stale, o, j + 1, fin, end)
  {
    var c := ExecuteTick(kids[i], w, Noted(kids[i], t));
    assert forall fuel: nat | fuel >= j + 1 ::
        OrRun(kids, i, finals, w, t, fuel) ==
          OrRun(kids[i := c.node], i + 1, finals + [c.answer], w, c.log, fuel - 1);
  }

  // ---------------------------------------------------------------- whole runs

  /** A fallback at the start of a tick, as its loop finds it. */
  function Started(n: Node): Node {
    n.(status := Running, memo := if IsActive(n.status) then n.memo else n.memo.(skipped := 0))
  }

  ghost predicate Ready(n: Node, finals: seq<Status>, stale: nat) {
    n.pre.None() && InStep(Started(n), n.children, finals, stale)
  }

  lemma FallbackExecutes(n: Node, w: World, t: Log)
    requires n.kind.Fallback? && n.pre.None()
    ensures ExecuteTick(n, w, t) == Finish(StoreOutcome(FallbackLoop(Started(n), n.children, w, t)))
  {
    NoScripts(n.uid, n.pre, n.status, 0, w, t);
    assert Tick(n, w, t) == FallbackTick(n, w, t);
  }

  /** A run and a stretch of the reference that have come to the same point. */
  ghost predicate InLine(r: RunResult, v: OrResult, count: nat, stale: nat) {
    (r.RunThrew? && v.Crashed?) ||
    (r.RunPending? && v == Pending(r.node.children, r.node.memo.idx, r.log)) ||
    (r.RunEnded? && v.Verdict? && r.log == v.log && r.node.children == ResetAll(v.kids) && |v.kids| == count &&
     r.answer == CountedVerdict(v.finals, count, stale) && (Success in v.finals || |v.finals| == count) &&
     forall s | s in v.finals :: s != Idle && s != Running)
  }

  /** A run against the reference, from any point in it: at any time it has done a stretch of the reference,
      of one child tick or more for each tick. */
  lemma {:induction false} RunIsOr(
    n: Node, finals: seq<Status>, stale: nat, w: World, t: Log, k: nat)
    returns (fuel: nat)
    requires Ready(n, finals, stale) && (n.memo.idx < |n.children| || k > 0)
    ensures InLine(RunNode(n, w, t, k), OrRun(n.children, n.memo.idx, finals, w, t, fuel), |n.children|, stale)
    ensures RunNode(n, w, t, k).RunPending? ==> fuel >= k
    decreases k
  {
    hide OrRun, ExecuteTick, FallbackLoop;
    if k == 0 {
      OrStarts(n.children, n.memo.idx, finals, w, t);
      return 0;
    }
    var o := FallbackLoop(Started(n), n.children, w, t);
    var j, fin, end := LoopIsStretch(Started(n), n.children, finals, stale, w, t);
    FallbackExecutes(n, w, t);
    fuel := j;
    if o.Done? && o.answer == Running {
      var rest := RunIsOr(o.node, fin, stale, w, o.log, k - 1);
      fuel := j + rest;
    }
  }

  lemma OrStarts(kids: seq<Node>, i: nat, finals: seq<Status>, w: World, t: Log)
    requires i < |kids| && Success !in finals
    ensures OrRun(kids, i, finals, w, t, 0) == Pending(kids, i, t)
  {
  }

  lemma {:induction false} OrMonotone(
    kids: seq<Node>, i: nat, finals: seq<Status>, w: World, t: Log, fuel: nat, more: nat)
    requires i <= |kids| && fuel <= more && !OrRun(kids, i, finals, w, t, fuel).Pending?
    ensures OrRun(kids, i, finals, w, t, more) == OrRun(kids, i, finals, w, t, fuel)
    decreases fuel
  {
    hide ExecuteTick;
    if i < |kids| && Success !in finals {
      var o := ExecuteTick(kids[i], w, Noted(kids[i], t));
      if o.Done? {
        if o.answer == Running {
          OrMonotone(kids[i := o.node], i, finals, w, o.log, fuel - 1, more - 1);
        } else {
          OrMonotone(kids[i := o.node], i + 1, finals + [o.answer], w, o.log, fuel - 1, more - 1);
        }
      }
    }
  }

  /** When the reference needs `fuel` child ticks, the fallback needs no more than `fuel + 1` ticks. */
  lemma {:induction false} RunEnds(n: Node, finals: seq<Status>, stale: nat, w: World, t: Log, fuel: nat)
    requires Ready(n, finals, stale) && !OrRun(n.children, n.memo.idx, finals, w, t, fuel).Pending?
    ensures !RunNode(n, w, t, fuel + 1).RunPending?
    decreases fuel
  {
    hide OrRun, FallbackLoop;
    FallbackExecutes(n, w, t);
    var o := FallbackLoop(Started(n), n.children, w, t);
    var j, fin, end := LoopIsStretch(Started(n), n.children, finals, stale, w, t);
    if o.Done? && o.answer == Running {
      EnoughFuel(n, finals, stale, w, t, o, j, fin, end, fuel);
      RunEnds(o.node, fin, stale, w, o.log, fuel - j);
      RunLonger(o.node, w, o.log, fuel - j + 1, fuel);
    }
  }

  lemma EnoughFuel(n: Node, finals: seq<Status>, stale: nat, w: World, t: Log,
                   o: Outcome, j: nat, fin: seq<Status>, end: seq<Node>, fuel: nat)
    requires Ready(n, finals, stale) && o.Done? && o.answer == Running
    requires LoopPost(Started(n), n.children, finals, w, t, stale, o, j, fin, end)
    requires !OrRun(n.children, n.memo.idx, finals, w, t, fuel).Pending?
    ensures fuel >= j
    ensures OrRun(o.node.children, o.node.memo.idx, fin, w, o.log, fuel - j) ==
            OrRun(n.children, n.memo.idx, finals, w, t, fuel)
  {
    if fuel < j {
      OrMonotone(n.children, n.memo.idx, finals, w, t, fuel, j);
      assert false;
    }
  }

  lemma {:induction false} RunLonger(n: Node, w: World, t: Log, k: nat, more: nat)
    requires k <= more && !RunNode(n, w, t, k).RunPending?
    ensures RunNode(n, w, t, more) == RunNode(n, w, t, k)
    decreases k
  {
    hide ExecuteTick;
    var o := ExecuteTick(n, w, t);
    if o.Done? && o.answer == Running {
      RunLonger(o.node, w, o.log, k - 1, more - 1);
    }
  }

  /** A fallback whose run may begin: not marked as active by an earlier one, and without scripts of
      its own, which could end it from outside. */
  predicate Startable(n: Node) {
    n.kind.Fallback? && n.pre.None() && n.memo.idx == 0 && !IsActive(n.status)
  }

  /** The fallback refines the reference. A run that ends, ends with the "or" of the children's final
      answers, after exactly the events of the reference: the same children ticked in the same order, and
      the same below them. A run that throws or goes on has got as far as the reference. */
  lemma FallbackIsOr(n: Node, w: World, t: Log, k: nat)
    requires Startable(n)
    ensures var r := RunNode(n, w, t, k);
            r.RunEnded? ==>
              exists fuel: nat ::
                var v := OrRun(n.children, 0, [], w, t, fuel);
                v.Verdict? && r.answer == v.answer && r.log == v.log && r.node.children == ResetAll(v.kids)
    ensures RunNode(n, w, t, k).RunThrew? ==> exists fuel: nat :: OrRun(n.children, 0, [], w, t, fuel).Crashed?
    ensures var r := RunNode(n, w, t, k);
            r.RunPending? && n.children != [] ==>
              exists fuel: nat ::
                fuel >= k && OrRun(n.children, 0, [], w, t, fuel) == Pending(r.node.children, r.node.memo.idx, r.log)
  {
    if k > 0 || n.children != [] {
      var fuel := RunIsOr(n, [], 0, w, t, k);
      var v := OrRun(n.children, 0, [], w, t, fuel);
      if RunNode(n, w, t, k).RunEnded? {
        OrCounts(n.children, w, t, fuel);
      }
    }
  }

  /** Without a stale rest the counters give the verdict of the reference. */
  lemma OrCounts(kids: seq<Node>, w: World, t: Log, fuel: nat)
    ensures var v := OrRun(kids, 0, [], w, t, fuel);
            v.Verdict? && (Success in v.finals || |v.finals| == |kids|) &&
            (forall s | s in v.finals :: s != Idle && s != Running) ==>
              v.answer == CountedVerdict(v.finals, |kids|, 0)
  {
    var v := OrRun(kids, 0, [], w, t, fuel);
    if v.Verdict? && forall s | s in v.finals :: s != Idle && s != Running {
      OrIsItsOwn(kids, 0, [], w, t, fuel);
      SkipsAll(v.finals);
      if |v.finals| == |kids| {
        StaleCount(v.finals, 0);
      }
    }
  }

  lemma {:induction false} OrIsItsOwn(kids: seq<Node>, i: nat, finals: seq<Status>, w: World, t: Log, fuel: nat)
    requires i <= |kids|
    ensures var v := OrRun(kids, i, finals, w, t, fuel); v.Verdict? ==> v.answer == Or(v.finals)
    decreases fuel
  {
    hide ExecuteTick;
    if i < |kids| && Success !in finals && fuel > 0 {
      var o := ExecuteTick(kids[i], w, Noted(kids[i], t));
      if o.Done? {
        if o.answer == Running {
          OrIsItsOwn(kids[i := o.node], i, finals, w, o.log, fuel - 1);
        } else {
          OrIsItsOwn(kids[i := o.node], i + 1, finals + [o.answer], w, o.log, fuel - 1);
        }
      }
    }
  }

  /** And the other way round: when the reference comes to an end, so does the fallback. */
  lemma OrIsFallback(n: Node, w: World, t: Log, fuel: nat)
    requires Startable(n)
    ensures var r, v := RunNode(n, w, t, fuel + 1), OrRun(n.children, 0, [], w, t, fuel);
            (v.Crashed? ==> r.RunThrew?) &&
            (v.Verdict? ==>
              r.RunEnded? && r.answer == v.answer && r.log == v.log && r.node.children == ResetAll(v.kids))
  {
    hide OrRun, RunNode;
    var v := OrRun(n.children, 0, [], w, t, fuel);
    if !v.Pending? {
      RunEnds(n, [], 0, w, t, fuel);
      var f := RunIsOr(n, [], 0, w, t, fuel + 1);
      OrMonotone(n.children, 0, [], w, t, fuel, f + fuel);
      OrMonotone(n.children, 0, [], w, t, f, f + fuel);
      OrCounts(n.children, w, t, fuel);
    }
  }

  // ---------------------------------------------------------------- the asynchronous fallback

  function Plain(n: Node): Node {
    n.(kind := Fallback(false))
  }

  function Pausing(n: Node): Node {
    n.(kind := Fallback(true))
  }

  /** Two runs that ended the same way after the same events. */
  predicate SameEnd(r: RunResult, q: RunResult) {
    (r.RunThrew? && q.RunThrew?) ||
    (r.RunEnded? && q.RunEnded? && r.answer == q.answer && r.log == q.log && r.node.children == q.node.children)
  }

  /** The asynchronous fallback and the plain one come to the same end after the same events: the plain one
      never needs more ticks, the asynchronous one needs some number of them. */
  lemma AsynchAgrees(n: Node, w: World, t: Log, k: nat)
    requires Startable(n)
    ensures var r := RunNode(Pausing(n), w, t, k);
            !r.RunPending? ==> SameEnd(r, RunNode(Plain(n), w, t, k))
    ensures var q := RunNode(Plain(n), w, t, k);
            !q.RunPending? ==> exists more: nat :: more >= k && SameEnd(RunNode(Pausing(n), w, t, more), q)
  {
    hide RunNode, OrRun;
    PlainEndsFirst(Pausing(n), w, t, k);
    var q := RunNode(Plain(n), w, t, k);
    if !q.RunPending? {
      PausingEnds(n, w, t, k);
    }
  }

  lemma PausingEnds(n: Node, w: World, t: Log, k: nat)
    requires Startable(n) && !RunNode(Plain(n), w, t, k).RunPending?
    ensures exists more: nat ::
              more >= k && SameEnd(RunNode(Pausing(n), w, t, more), RunNode(Plain(n), w, t, k))
  {
    hide RunNode, OrRun;
    FallbackIsOr(Plain(n), w, t, k);
    var r := RunNode(Plain(n), w, t, k);
    var fuel: nat :|
      var v := OrRun(n.children, 0, [], w, t, fuel);
      (r.RunThrew? && v.Crashed?) ||
      (r.RunEnded? && v.Verdict? && r.answer == v.answer && r.log == v.log && r.node.children == ResetAll(v.kids));
    OrIsFallback(Pausing(n), w, t, fuel);
    var more := fuel + 1 + k;
    RunLonger(Pausing(n), w, t, fuel + 1, more);
    assert more >= k && SameEnd(RunNode(Pausing(n), w, t, more), r);
  }

  /** The loop looks at no child left of the index. */
  lemma {:induction false} LoopByIndex(n: Node, cs: seq<Node>, ds: seq<Node>, w: World, t: Log)
    requires n.kind.Fallback? && |n.children| == |cs| == |ds|
    requires forall j | n.memo.idx <= j < |cs| :: cs[j] == ds[j]
    ensures FallbackLoop(n, cs, w, t) == FallbackLoop(n, ds, w, t)
    decreases |cs| - n.memo.idx
  {
    hide ExecuteTick;
    var i := n.memo.idx;
    if i < |cs| {
      var o := ExecuteTick(cs[i], w, Noted(cs[i], t));
      if o.Done? {
        var v := FallbackVisit(n.(children := n.children[i := o.node]), cs[i].status, o.answer, w, o.log);
        if v.Next? {
          LoopByIndex(v.node, cs, ds, w, o.log);
        }
      }
    }
  }

  function Plainly(o: Outcome): Outcome {
    if o.Threw? then Threw else o.(node := Plain(o.node))
  }

  /** Where the plain loop goes on, the asynchronous one may pause, and then it takes up from there. */
  ghost predicate GoesOn(o: Outcome, p: Outcome, w: World) {
    o.Done? && o.answer == Running && p == FallbackLoop(Plain(o.node), o.node.children, w, o.log)
  }

  lemma PlainVisit(n: Node, prev: Status, answer: Status, w: World, t: Log)
    requires n.kind == Fallback(true)
    ensures var v, u := FallbackVisit(n, prev, answer, w, t), FallbackVisit(Plain(n), prev, answer, w, t);
            var next := n.(memo := n.memo.(idx := n.memo.idx + 1));
            if v.Next?
            then u == Next(Plain(v.node), 0) && v.node == next.(memo := v.node.memo) && v.node.memo.idx == next.memo.idx
            else u == Stop(Plainly(v.outcome)) || (u == Next(Plain(next), 0) && v == Stop(Done(next, Running, t)))
    ensures var v := FallbackVisit(n, prev, answer, w, t);
            v.Stop? && v.outcome.Done? ==>
              v.outcome.node.kind == n.kind && v.outcome.node.pre == n.pre && v.outcome.node.status == n.status
  {
    hide ResetAll;
  }

  lemma {:induction false} PlainGoesOn(n: Node, cs: seq<Node>, w: World, t: Log)
    requires n.kind == Fallback(true) && n.status == Running && |n.children| == |cs|
    requires forall j | n.memo.idx <= j < |cs| :: n.children[j] == cs[j]
    ensures var o, p := FallbackLoop(n, cs, w, t), FallbackLoop(Plain(n), cs, w, t);
            (p == Plainly(o) || GoesOn(o, p, w)) &&
            (o.Done? ==> o.node.kind == n.kind && o.node.pre == n.pre && o.node.status == Running)
    decreases |cs| - n.memo.idx
  {
    hide ExecuteTick, FallbackVisit, ResetAll;
    var i := n.memo.idx;
    if i < |cs| {
      var o := ExecuteTick(cs[i], w, Noted(cs[i], t));
      if o.Done? {
        var n1 := n.(children := n.children[i := o.node]);
        assert Plain(n).children[i := o.node] == n1.children;
        PlainVisit(n1, cs[i].status, o.answer, w, o.log);
        var v := FallbackVisit(n1, cs[i].status, o.answer, w, o.log);
        if v.Next? {
          PlainGoesOn(v.node, cs, w, o.log);
        } else {
          LoopByIndex(Plain(n1.(memo := n.memo.(idx := i + 1))), cs, n1.children, w, o.log);
        }
      }
    }
  }

  /** When a run of the asynchronous fallback has ended, one of the plain fallback has too. */
  lemma {:induction false} PlainEndsFirst(n: Node, w: World, t: Log, k: nat)
    requires n.kind == Fallback(true) && n.pre.None()
    ensures var r := RunNode(n, w, t, k);
            !r.RunPending? ==> SameEnd(r, RunNode(Plain(n), w, t, k))
    decreases k
  {
    hide ExecuteTick, FallbackLoop;
    if k > 0 {
      FallbackExecutes(n, w, t);
      FallbackExecutes(Plain(n), w, t);
      PlainGoesOn(Started(n), n.children, w, t);
      assert Started(Plain(n)) == Plain(Started(n));
      var o, p := FallbackLoop(Started(n), n.children, w, t), FallbackLoop(Started(Plain(n)), n.children, w, t);
      if o.Done? && o.answer == Running {
        assert ExecuteTick(n, w, t) == o;
        PlainEndsFirst(o.node, w, o.log, k - 1);
        if p != Plainly(o) && !RunNode(o.node, w, o.log, k - 1).RunPending? {
          FallbackExecutes(Plain(o.node), w, o.log);
          assert Started(Plain(o.node)) == Plain(o.node);
          assert ExecuteTick(Plain(n), w, t) == ExecuteTick(Plain(o.node), w, o.log);
          assert RunNode(Plain(n), w, t, k - 1) == RunNode(Plain(o.node), w, o.log, k - 1);
          RunLonger(Plain(n), w, t, k - 1, k);
        }
      }
    }
  }

  /** Ticked again while it stores a completed status, as the condition of a WhileDoElse is, a fallback
      still counts as "or" exactly when the skip count left over from the last run does no harm. */
  lemma RetickedFallback(n: Node, w: World, t: Log, k: nat)
    requires n.kind.Fallback? && n.pre.None() && n.memo.idx == 0 && IsCompleted(n.status)
    ensures var r := RunNode(n, w, t, k);
            r.RunEnded? ==>
              exists fuel: nat ::
                var v := OrRun(n.children, 0, [], w, t, fuel);
                v.Verdict? && r.log == v.log && r.node.children == ResetAll(v.kids) &&
                (r.answer == v.answer <==>
                 Success in v.finals || n.memo.skipped == 0 ||
                 (Skips(v.finals) != |n.children| && n.memo.skipped + Skips(v.finals) != |n.children|))
  {
    if RunNode(n, w, t, k).RunEnded? {
      var fuel := RunIsOr(n, [], n.memo.skipped, w, t, k);
      var v := OrRun(n.children, 0, [], w, t, fuel);
      OrIsItsOwn(n.children, 0, [], w, t, fuel);
      if |v.finals| == |n.children| {
        StaleCount(v.finals, n.memo.skipped);
      }
    }
  }

  /** It does harm here: the first run skips one child and succeeds with the other; the second sees a
      failure and a skip, which is a Failure, and answers Skipped. */
  lemma StaleSkipsMiscount()
    ensures var n := NewNode(0, Fallback(false), [NewNode(1, Leaf, []), NewNode(2, Leaf, [])]);
            var t := [Ticked(1), Ticked(2)];
            var first := ExecuteTick(n, FAILS_LATER, []);
            first.Done? && first.answer == Success && first.log == t &&
            var second := ExecuteTick(first.node, FAILS_LATER, t);
            second.Done? && second.answer == Skipped && second.log == t + t && Or([Failure, Skipped]) == Failure
  {
    hide ExecuteTick;
    var a, b, t := NewNode(1, Leaf, []), NewNode(2, Leaf, []), [Ticked(1), Ticked(2)];
    var n := NewNode(0, Fallback(false), [a, b]);
    assert [] + [Ticked(1)] + [Ticked(2)] == t && t + [Ticked(1)] + [Ticked(2)] == t + t;
    SkipAndSuccess(a, b, n, FAILS_LATER, []);
    MiscountAgain(a, b, n.(status := Success, memo := BLANK.(skipped := 1)), FAILS_LATER, t);
  }

  lemma SkipAndSuccess(a: Node, b: Node, n: Node, w: World, t: Log)
    requires a == NewNode(1, Leaf, []) && b == NewNode(2, Leaf, []) && n == NewNode(0, Fallback(false), [a, b])
    requires w.reply(t + [Ticked(1)]).answer == Skipped && w.reply(t + [Ticked(1)] + [Ticked(2)]).answer == Success
    ensures ExecuteTick(n, w, t) ==
            Done(n.(status := Success, memo := BLANK.(skipped := 1)), Success, t + [Ticked(1)] + [Ticked(2)])
  {
    hide ExecuteTick, CheckFrom;
    var t1 := t + [Ticked(1)];
    FallbackExecutes(n, w, t);
    PlainProceeds(a, w, t1);
    PlainProceeds(b, w, t1 + [Ticked(2)]);
    var done := b.(status := Success);
    var n1 := Started(n).(memo := BLANK.(idx := 1, skipped := 1));
    assert Started(n).children[0 := a] == n.children;
    assert FallbackLoop(Started(n), n.children, w, t) == FallbackLoop(n1, n.children, w, t1);
    assert ResetAll([a, done]) == [a, b] && [a, b][1 := done] == [a, done];
  }

  /** One leaf skips and the other succeeds; from the third tick on the first one fails and the other skips. */
  const FAILS_LATER: World :=
    World((l: Log) => Reply(if |l| == 2 then Success else if |l| == 3 then Failure else Skipped, false), true, false)

  lemma MiscountAgain(a: Node, b: Node, m: Node, w: World, t: Log)
    requires a == NewNode(1, Leaf, []) && b == NewNode(2, Leaf, [])
    requires m == NewNode(0, Fallback(false), [a, b]).(status := Success, memo := BLANK.(skipped := 1))
    requires w.reply(t + [Ticked(1)]).answer == Failure && w.reply(t + [Ticked(1)] + [Ticked(2)]).answer == Skipped
    ensures var second := ExecuteTick(m, w, t);
            second.Done? && second.answer == Skipped && second.log == t + [Ticked(1)] + [Ticked(2)]
  {
    hide ExecuteTick, CheckFrom;
    var t1 := t + [Ticked(1)];
    var t2 := t1 + [Ticked(2)];
    FallbackExecutes(m, w, t);
    PlainProceeds(a, w, t1);
    PlainProceeds(b, w, t2);
    var failed := a.(status := Failure);
    var m1 := Started(m).(children := [failed, b], memo := BLANK.(idx := 1, skipped := 1));
    assert Started(m).children[0 := failed] == [failed, b] && [failed, b][1 := b] == [failed, b];
    assert FallbackLoop(Started(m), m.children, w, t) == FallbackLoop(m1, m.children, w, t1);
    var m2 := m1.(memo := BLANK.(idx := 2, skipped := 2));
    assert FallbackLoop(m1, m.children, w, t1) == FallbackLoop(m2, m.children, w, t2);
  }
}
