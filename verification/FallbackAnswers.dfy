/** One tick of a fallback, said over what its children answer. */
module FallbackAnswers {
  import opened NodeTypes
  import opened TickModel
  import opened Quiescence
  import opened FallbackRuns
  import opened ParallelAccounting

  /** The children that failed or skipped in earlier ticks of the run and are not asked again. */
  function Passed(n: Node): set<nat> {
    Below(n.memo.idx)
  }

  function Below(k: nat): (r: set<nat>)
    ensures forall j: nat :: j in r <==> j < k
  {
    if k == 0 then {} else Below(k - 1) + {k - 1}
  }

  /** The asynchronous variant answers Running between two children: after the failure of one that was Idle
      before, if there is one more and somebody can be woken up. */
  predicate Pauses(n: Node, j: nat, answer: Status, w: World) {
    n.kind.Fallback? && n.kind.asynch && w.wakeUp && j + 1 < |n.children| && n.children[j].status == Idle &&
    answer == Failure
  }

  /** The first `m` children have been asked, but for those passed, and only the last can end the tick. */
  ghost predicate AskedUpTo(n: Node, m: nat, w: World, t: Log) {
    n.memo.idx <= m <= |n.children| &&
    (m > n.memo.idx ==> GoesOn(n, Round(n.children, Passed(n), m - 1, w, t), w))
  }

  /** Nothing asked so far ends the tick. */
  predicate GoesOn(n: Node, r: RoundResult, w: World) {
    r.Asked? &&
    forall j | n.memo.idx <= j < |r.answers| ::
      (r.answers[j] == Failure || r.answers[j] == Skipped) && !Pauses(n, j, r.answers[j], w)
  }

  /** The children skipped since the run began; a node that stores a completed status goes on with the count
      that is left over. */
  function SkippedSoFar(n: Node, answers: seq<Status>): nat {
    (if IsActive(n.status) then n.memo.skipped else 0) + Count(answers, Skipped)
  }

  /** The node after the tick: where the next one begins, and its count. */
  ghost predicate Leaves(n: Node, r: Node, kids: seq<Node>, idx: nat, skipped: nat, resets: bool)
    requires |kids| <= |n.children|
  {
    |r.children| == |n.children| &&
    r == n.(status := Running, memo := n.memo.(idx := idx, skipped := skipped), children := r.children) &&
    forall j | 0 <= j < |n.children| ::
      var c := if j < |kids| then kids[j] else n.children[j];
      r.children[j] == if resets then ResetChild(c) else c
  }

  /** What a tick comes to when the first `m` children have been asked. */
  ghost predicate FallbackEnds(n: Node, o: Outcome, m: nat, w: World, t: Log) {
    AskedUpTo(n, m, w, t) &&
    var round := Round(n.children, Passed(n), m, w, t);
    if round.Broke? then o.Threw?
    else
      var skipped := SkippedSoFar(n, round.answers);
      o.Done? && o.log == round.log &&
      if m > n.memo.idx && round.answers[m - 1] == Running then
        o.answer == Running && Leaves(n, o.node, round.kids, m - 1, skipped, false)
      else if m > n.memo.idx && round.answers[m - 1] == Success then
        o.answer == Success && Leaves(n, o.node, round.kids, 0, skipped, true)
      else if m > n.memo.idx && Pauses(n, m - 1, round.answers[m - 1], w) then
        o.answer == Running && Leaves(n, o.node, round.kids, m, skipped, false)
      else
        m == |n.children| && GoesOn(n, round, w) &&
        o.answer == (if skipped == m then Skipped else Failure) && Leaves(n, o.node, round.kids, 0, 0, true)
  }

  /** A fallback asks its children in order, going on where the last tick of the run has stopped, up to the
      first that succeeds or runs, or up to a pause. It throws exactly when a child does. */
  lemma FallbackTickAnswers(n: Node, w: World, t: Log) returns (m: nat)
    requires n.kind.Fallback? && n.memo.idx <= |n.children|
    ensures FallbackEnds(n, Tick(n, w, t), m, w, t)
  {
    hide ExecuteTick, Tick, FallbackTick, FallbackLoop, FallbackEnds, Going;
    var r := n.(status := Running, memo := if IsActive(n.status) then n.memo else n.memo.(skipped := 0));
    LoopBegins(n, r, w, t);
    m := FallbackFrom(n, r, w, t, t);
  }

  lemma LoopBegins(n: Node, r: Node, w: World, t: Log)
    requires n.kind.Fallback? && n.memo.idx <= |n.children|
    requires r == n.(status := Running, memo := if IsActive(n.status) then n.memo else n.memo.(skipped := 0))
    ensures Tick(n, w, t) == FallbackLoop(r, n.children, w, t) && Going(n, r, w, t, t)
  {
    hide ExecuteTick, FallbackLoop, Round;
    var i := n.memo.idx;
    RoundOfPassed(n, i, w, t);
    assert n.children == n.children[..i] + n.children[i..];
  }

  /** The children passed are not asked. */
  lemma {:induction false} RoundOfPassed(n: Node, m: nat, w: World, t: Log)
    requires m <= n.memo.idx <= |n.children|
    ensures var round := Round(n.children, Passed(n), m, w, t);
            round.Asked? && round.kids == n.children[..m] && round.log == t && Count(round.answers, Skipped) == 0
    decreases m
  {
    hide ExecuteTick;
    if m > 0 {
      RoundOfPassed(n, m - 1, w, t);
      CountAppend(Round(n.children, Passed(n), m - 1, w, t).answers, Idle);
    }
  }

  /** The node in front of a child to ask. */
  ghost predicate Going(n: Node, r: Node, w: World, t0: Log, t: Log) {
    n.kind.Fallback? && n.memo.idx <= r.memo.idx <= |n.children| &&
    var round := Round(n.children, Passed(n), r.memo.idx, w, t0);
    GoesOn(n, round, w) && t == round.log &&
    r == n.(status := Running, memo := n.memo.(idx := r.memo.idx, skipped := SkippedSoFar(n, round.answers)),
            children := round.kids + n.children[r.memo.idx..])
  }

  lemma GoingMeans(n: Node, r: Node, w: World, t0: Log, t: Log)
    requires Going(n, r, w, t0, t)
    ensures n.kind.Fallback? && r.kind == n.kind && |r.children| == |n.children| && r.memo.idx <= |n.children|
  {
  }

  lemma {:induction false} FallbackFrom(n: Node, r: Node, w: World, t0: Log, t: Log) returns (m: nat)
    requires Going(n, r, w, t0, t) && n.kind.Fallback? && r.kind == n.kind && |r.children| == |n.children|
    ensures FallbackEnds(n, FallbackLoop(r, n.children, w, t), m, w, t0)
    decreases |n.children| - r.memo.idx
  {
    hide ExecuteTick, Going, FallbackEnds, FallbackVisit, FallbackEnd, Round;
    GoingMeans(n, r, w, t0, t);
    var i := r.memo.idx;
    if i == |n.children| {
      LoopEnds(n, r, w, t0, t);
      return i;
    }
    var c := n.children[i];
    var o := ExecuteTick(c, w, Noted(c, t));
    AnswerNotIdle(c, w, Noted(c, t));
    if o.Threw? {
      LoopThrows(n, r, w, t0, t);
      return i + 1;
    }
    var v := FallbackVisit(r.(children := r.children[i := o.node]), c.status, o.answer, w, o.log);
    LoopVisits(n, r, w, t0, t);
    if v.Stop? {
      return i + 1;
    }
    GoingMeans(n, v.node, w, t0, o.log);
    m := FallbackFrom(n, v.node, w, t0, o.log);
  }

  lemma LoopEnds(n: Node, r: Node, w: World, t0: Log, t: Log)
    requires Going(n, r, w, t0, t) && r.memo.idx == |n.children|
    ensures FallbackEnds(n, FallbackEnd(r, t), |n.children|, w, t0)
  {
    hide ExecuteTick, Halt;
    var count := |n.children|;
    if count > n.memo.idx {
      RoundStep(n, count, w, t0);
    }
  }

  /** A round is the round before it and one more child. */
  lemma RoundStep(n: Node, m: nat, w: World, t: Log)
    requires n.memo.idx < m <= |n.children|
    ensures var front, round := Round(n.children, Passed(n), m - 1, w, t), Round(n.children, Passed(n), m, w, t);
            (front.Broke? ==> round.Broke?) &&
            (front.Asked? ==>
              var o := ExecuteTick(n.children[m - 1], w, Noted(n.children[m - 1], front.log));
              round == if o.Threw? then Broke else Asked(front.answers + [o.answer], front.kids + [o.node], o.log))
    ensures var front, round := Round(n.children, Passed(n), m - 1, w, t), Round(n.children, Passed(n), m, w, t);
            round.Asked? ==> front.Asked? && forall j | 0 <= j < m - 1 :: front.answers[j] == round.answers[j]
  {
    hide ExecuteTick;
    assert m - 1 !in Passed(n);
  }

  lemma LoopThrows(n: Node, r: Node, w: World, t0: Log, t: Log)
    requires Going(n, r, w, t0, t) && r.memo.idx < |n.children|
    requires var c := n.children[r.memo.idx]; ExecuteTick(c, w, Noted(c, t)).Threw?
    ensures FallbackEnds(n, Threw, r.memo.idx + 1, w, t0)
  {
    hide ExecuteTick, Leaves;
    RoundStep(n, r.memo.idx + 1, w, t0);
  }

  /** One child more: the tick ends with it, or goes on. */
  lemma LoopVisits(n: Node, r: Node, w: World, t0: Log, t: Log)
    requires Going(n, r, w, t0, t) && n.kind.Fallback? && r.kind == n.kind && |r.children| == |n.children|
    requires r.memo.idx < |n.children|
    requires var c := n.children[r.memo.idx]; var o := ExecuteTick(c, w, Noted(c, t)); o.Done? && o.answer != Idle
    ensures var i := r.memo.idx; var c := n.children[i]; var o := ExecuteTick(c, w, Noted(c, t));
            var v := FallbackVisit(r.(children := r.children[i := o.node]), c.status, o.answer, w, o.log);
            match v
            case Stop(end) => FallbackEnds(n, end, i + 1, w, t0)
            case Next(r1, _) => r1.memo.idx == i + 1 && Going(n, r1, w, t0, o.log)
  {
    hide ExecuteTick, FallbackEnds, Going, FallbackVisit;
    var c := n.children[r.memo.idx];
    var o := ExecuteTick(c, w, Noted(c, t));
    if o.answer == Running || o.answer == Success || Pauses(n, r.memo.idx, o.answer, w) {
      LoopStops(n, r, w, t0, t);
    } else {
      LoopGoesOn(n, r, w, t0, t);
    }
  }

  lemma LoopStops(n: Node, r: Node, w: World, t0: Log, t: Log)
    requires Going(n, r, w, t0, t) && n.kind.Fallback? && r.kind == n.kind && |r.children| == |n.children|
    requires r.memo.idx < |n.children|
    requires var c := n.children[r.memo.idx]; var o := ExecuteTick(c, w, Noted(c, t));
             o.Done? && (o.answer == Running || o.answer == Success || Pauses(n, r.memo.idx, o.answer, w))
    ensures var i := r.memo.idx; var c := n.children[i]; var o := ExecuteTick(c, w, Noted(c, t));
            var v := FallbackVisit(r.(children := r.children[i := o.node]), c.status, o.answer, w, o.log);
            v.Stop? && FallbackEnds(n, v.outcome, i + 1, w, t0)
  {
    hide ExecuteTick, Halt, Round, ResetChild;
    var i := r.memo.idx;
    var c := n.children[i];
    var o := ExecuteTick(c, w, Noted(c, t));
    var front, round := Round(n.children, Passed(n), i, w, t0), Round(n.children, Passed(n), i + 1, w, t0);
    RoundStep(n, i + 1, w, t0);
    CountAppend(front.answers, o.answer);
    assert r.children[i := o.node] == round.kids + n.children[i + 1..];
  }

  lemma LoopGoesOn(n: Node, r: Node, w: World, t0: Log, t: Log)
    requires Going(n, r, w, t0, t) && n.kind.Fallback? && r.kind == n.kind && |r.children| == |n.children|
    requires r.memo.idx < |n.children|
    requires var c := n.children[r.memo.idx]; var o := ExecuteTick(c, w, Noted(c, t));
             o.Done? && (o.answer == Failure || o.answer == Skipped) && !Pauses(n, r.memo.idx, o.answer, w)
    ensures var i := r.memo.idx; var c := n.children[i]; var o := ExecuteTick(c, w, Noted(c, t));
            var v := FallbackVisit(r.(children := r.children[i := o.node]), c.status, o.answer, w, o.log);
            v.Next? && v.node.memo.idx == i + 1 && Going(n, v.node, w, t0, o.log)
  {
    hide ExecuteTick, Halt, Round, ResetChild, ResetAll;
    var i := r.memo.idx;
    var c := n.children[i];
    var o := ExecuteTick(c, w, Noted(c, t));
    var front, round := Round(n.children, Passed(n), i, w, t0), Round(n.children, Passed(n), i + 1, w, t0);
    RoundStep(n, i + 1, w, t0);
    CountAppend(front.answers, o.answer);
    assert r.children[i := o.node] == round.kids + n.children[i + 1..];
  }
}
