/** The books of the two parallel nodes: what a tick answers, as a function of how the children
    answered, of what earlier ticks of the run have counted, and of nothing else. */
module ParallelAccounting {
  import opened NodeTypes
  import opened TickModel
  import opened Quiescence

  // ---------------------------------------------------------------- the reference

  datatype RoundResult = Broke | Asked(answers: seq<Status>, kids: seq<Node>, log: Log)

  /** Ask each of the first `m` children once, in order, leaving out those in `done`. The answer Idle
      stands for "not asked"; no child ever gives it. */
  function Round(cs: seq<Node>, done: set<nat>, m: nat, w: World, t: Log): (r: RoundResult)
    requires m <= |cs|
    ensures r.Asked? ==> |r.answers| == |r.kids| == m
    decreases m
  {
    if m == 0 then Asked([], [], t)
    else
      var front := Round(cs, done, m - 1, w, t);
      if front.Broke? then Broke
      else if m - 1 in done then Asked(front.answers + [Idle], front.kids + [cs[m - 1]], front.log)
      else
        match ExecuteTick(cs[m - 1], w, Noted(cs[m - 1], front.log))
        case Threw => Broke
        case Done(c, answer, t1) => Asked(front.answers + [answer], front.kids + [c], t1)
  }

  function Count(answers: seq<Status>, s: Status): (c: nat)
    ensures c <= |answers|
  {
    if answers == [] then 0
    else Count(answers[..|answers| - 1], s) + if answers[|answers| - 1] == s then 1 else 0
  }

  /** The children that finished in this round. */
  function Finished(answers: seq<Status>): set<nat> {
    set j: nat | j < |answers| && IsCompleted(answers[j])
  }

  lemma CountAppend(answers: seq<Status>, a: Status)
    ensures forall s :: Count(answers + [a], s) == Count(answers, s) + if a == s then 1 else 0
  {
    assert (answers + [a])[..|answers|] == answers;
  }

  lemma FinishedAppend(answers: seq<Status>, a: Status)
    ensures Finished(answers + [a]) == Finished(answers) + if IsCompleted(a) then {|answers|} else {}
  {
  }

  lemma {:induction false} CountIn(answers: seq<Status>, s: Status)
    ensures Count(answers, s) > 0 <==> s in answers
    ensures Count(answers, s) == |answers| <==> forall a | a in answers :: a == s
  {
    if answers != [] {
      var front, last := answers[..|answers| - 1], answers[|answers| - 1];
      CountIn(front, s);
      assert answers == front + [last] && last in answers;
      assert forall a | a in front :: a in answers;
    }
  }

  lemma {:induction false} CountEvery(answers: seq<Status>)
    ensures Count(answers, Idle) + Count(answers, Running) + Count(answers, Success) +
            Count(answers, Failure) + Count(answers, Skipped) == |answers|
    ensures |Finished(answers)| == Count(answers, Success) + Count(answers, Failure)
  {
    if answers != [] {
      var front, last := answers[..|answers| - 1], answers[|answers| - 1];
      CountEvery(front);
      assert answers == front + [last];
      FinishedAppend(front, last);
      assert |front| !in Finished(front);
    } else {
      assert Finished(answers) == {};
    }
  }

  /** The children not asked are those in `done`. */
  lemma {:induction false} RoundIdle(cs: seq<Node>, done: set<nat>, m: nat, w: World, t: Log)
    requires m <= |cs|
    ensures var r := Round(cs, done, m, w, t);
            r.Asked? ==> forall j | 0 <= j < m :: r.answers[j] == Idle <==> j in done
    decreases m
  {
    hide ExecuteTick;
    if m > 0 {
      RoundIdle(cs, done, m - 1, w, t);
      var front := Round(cs, done, m - 1, w, t);
      if front.Asked? {
        AnswerNotIdle(cs[m - 1], w, Noted(cs[m - 1], front.log));
      }
    }
  }

  /** The books after a round: `n` is the node when the tick began. */
  function Booked(n: Node, answers: seq<Status>): Memo {
    var m := n.memo.(completed := n.memo.completed + Finished(answers),
                     failures := n.memo.failures + Count(answers, Failure));
    if n.kind.Parallel? then m.(successes := n.memo.successes + Count(answers, Success)) else m
  }

  /** The node `r` when the first `i` children have been visited. */
  ghost predicate Visited(n: Node, r: Node, i: nat, skipped: nat, w: World, t0: Log, t: Log) {
    i <= |n.children| &&
    var round := Round(n.children, n.memo.completed, i, w, t0);
    round.Asked? && t == round.log && skipped == Count(round.answers, Skipped) &&
    r == n.(status := Running, children := round.kids + n.children[i..], memo := Booked(n, round.answers))
  }

  lemma VisitedNone(n: Node, w: World, t: Log)
    ensures Visited(n, n.(status := Running), 0, 0, w, t, t)
  {
    assert Finished([]) == {};
    assert [] + n.children[0..] == n.children;
  }

  /** Visiting one more child, the way the loops of both parallel nodes do. */
  lemma VisitOne(n: Node, r: Node, i: nat, skipped: nat, w: World, t0: Log, t: Log)
    requires Visited(n, r, i, skipped, w, t0, t) && i < |n.children|
    ensures var o := AskKid(r, n.children, i, w, t);
            if o.Threw? then Round(n.children, n.memo.completed, i + 1, w, t0).Broke?
            else Visited(n, o.node, i + 1, if o.answer == Skipped then skipped + 1 else skipped, w, t0, o.log)
  {
    hide ExecuteTick, Booked, Visited, CountKid;
    var front := Round(n.children, n.memo.completed, i, w, t0);
    VisitedMeans(n, r, i, skipped, w, t0, t);
    if i in n.memo.completed {
      VisitedNext(n, r, front, i, n.children[i], Idle, skipped, w, t0, t);
    } else {
      AnswerNotIdle(n.children[i], w, Noted(n.children[i], t));
      var o := ExecuteTick(n.children[i], w, Noted(n.children[i], t));
      if o.Done? {
        VisitedNext(n, r, front, i, o.node, o.answer, skipped, w, t0, o.log);
      }
    }
  }

  lemma VisitedMeans(n: Node, r: Node, i: nat, skipped: nat, w: World, t0: Log, t: Log)
    requires Visited(n, r, i, skipped, w, t0, t) && i < |n.children|
    ensures var round := Round(n.children, n.memo.completed, i, w, t0);
            round.Asked? && t == round.log && |r.children| == |n.children| && r.children[i] == n.children[i] &&
            (i in r.memo.completed <==> i in n.memo.completed)
    ensures r.kind == n.kind
  {
  }

  /** The books once child `i` has answered. */
  lemma VisitedNext(n: Node, r: Node, front: RoundResult, i: nat, c: Node, a: Status, skipped: nat, w: World,
                    t0: Log, t: Log)
    requires i < |n.children| && front == Round(n.children, n.memo.completed, i, w, t0) && front.Asked?
    requires Visited(n, r, i, skipped, w, t0, front.log)
    requires Round(n.children, n.memo.completed, i + 1, w, t0) == Asked(front.answers + [a], front.kids + [c], t)
    ensures Visited(n, CountKid(r.(children := r.children[i := c]), i, a), i + 1,
                    if a == Skipped then skipped + 1 else skipped, w, t0, t)
    ensures a == Idle && c == n.children[i] ==> Visited(n, r, i + 1, skipped, w, t0, t)
  {
    hide Round;
    assert n.children[i..] == [n.children[i]] + n.children[i + 1..];
    VisitedStep(n, front, i, c, a);
    assert c == n.children[i] ==> (front.kids + n.children[i..])[i := c] == front.kids + n.children[i..];
  }

  lemma VisitedStep(n: Node, front: RoundResult, i: nat, c: Node, a: Status)
    requires i < |n.children| && front.Asked? && |front.kids| == |front.answers| == i
    ensures (front.kids + n.children[i..])[i := c] == front.kids + [c] + n.children[i + 1..]
    ensures forall s :: Count(front.answers + [a], s) == Count(front.answers, s) + if a == s then 1 else 0
    ensures Booked(n, front.answers + [a]).completed ==
            Booked(n, front.answers).completed + if IsCompleted(a) then {i} else {}
  {
    CountAppend(front.answers, a);
    FinishedAppend(front.answers, a);
  }

  // ---------------------------------------------------------------- thresholds

  /** Does `n` of `count` children reach a threshold? -1 asks for all of them; -k lets k - 1 be missing, and so
      asks for none if there are fewer. */
  predicate Reaches(n: nat, at: int, count: nat) {
    if at >= 0 then n >= at else count - n <= -at - 1
  }

  /** ... and would one less not reach it? */
  predicate JustReaches(n: nat, at: int, count: nat) {
    Reaches(n, at, count) && (n > 0 ==> !Reaches(n - 1, at, count))
  }

  lemma ThresholdReaches(n: nat, at: int, count: nat)
    ensures n >= Threshold(at, count) <==> Reaches(n, at, count)
    ensures n == Threshold(at, count) <==> JustReaches(n, at, count)
  {
    assert n > 0 ==> (n - 1 >= Threshold(at, count) <==> Reaches(n - 1, at, count));
  }

  // ---------------------------------------------------------------- ParallelAll

  lemma {:induction false} ParallelAllVisits(n: Node, r: Node, i: nat, skipped: nat, w: World, t0: Log, t: Log)
    requires n.kind.ParallelAll? && Visited(n, r, i, skipped, w, t0, t)
    ensures var round := Round(n.children, n.memo.completed, |n.children|, w, t0);
            ParallelAllLoop(r, n.children, i, skipped, w, t) ==
            if round.Broke? then Threw
            else ParallelAllEnd(n.(status := Running, children := round.kids, memo := Booked(n, round.answers)),
                                Count(round.answers, Skipped), round.log)
    decreases |n.children| - i
  {
    hide AskKid, ParallelAllEnd, Booked;
    var cs := n.children;
    if i == |cs| {
      var round := Round(cs, n.memo.completed, |cs|, w, t0);
      assert round.kids + cs[|cs|..] == round.kids;
    } else {
      VisitOne(n, r, i, skipped, w, t0, t);
      var o := AskKid(r, cs, i, w, t);
      if o.Done? {
        ParallelAllVisits(n, o.node, i + 1, if o.answer == Skipped then skipped + 1 else skipped, w, t0, o.log);
      } else {
        RoundBreaks(cs, n.memo.completed, i + 1, |cs|, w, t0);
      }
    }
  }

  lemma {:induction false} RoundBreaks(cs: seq<Node>, done: set<nat>, m: nat, k: nat, w: World, t: Log)
    requires m <= k <= |cs| && Round(cs, done, m, w, t).Broke?
    ensures Round(cs, done, k, w, t).Broke?
    decreases k
  {
    hide ExecuteTick;
    if m < k {
      RoundBreaks(cs, done, m, k - 1, w, t);
    }
  }

  lemma {:induction false} CountAsSet(answers: seq<Status>, s: Status)
    ensures |set j: nat | j < |answers| && answers[j] == s| == Count(answers, s)
  {
    var all := set j: nat | j < |answers| && answers[j] == s;
    if answers != [] {
      CountAsSet(answers[..|answers| - 1], s);
      LastPlace(answers, s);
    } else {
      assert all == {};
    }
  }

  lemma LastPlace(answers: seq<Status>, s: Status)
    requires answers != []
    ensures var front, last := answers[..|answers| - 1], answers[|answers| - 1];
            |set j: nat | j < |answers| && answers[j] == s| ==
            |set j: nat | j < |front| && front[j] == s| + if last == s then 1 else 0
  {
    hide *;
    var front, last := answers[..|answers| - 1], answers[|answers| - 1];
    var all := set j: nat | j < |answers| && answers[j] == s;
    var before := set j: nat | j < |front| && front[j] == s;
    assert |front| !in before && forall j: nat | j < |front| :: front[j] == answers[j];
    if last == s {
      assert all == before + {|front|};
    } else {
      assert all == before;
    }
  }

  ghost predicate BooksOk(n: Node) {
    forall i | i in n.memo.completed :: i < |n.children|
  }

  /** Every child is either completed before the round or asked in it. */
  lemma RoundCovers(n: Node, w: World, t: Log)
    requires BooksOk(n)
    ensures var round := Round(n.children, n.memo.completed, |n.children|, w, t);
            round.Asked? ==> Count(round.answers, Idle) == |n.memo.completed| &&
                             |Booked(n, round.answers).completed| ==
                               |n.memo.completed| + Count(round.answers, Success) + Count(round.answers, Failure)
  {
    var round := Round(n.children, n.memo.completed, |n.children|, w, t);
    if round.Asked? {
      RoundIdle(n.children, n.memo.completed, |n.children|, w, t);
      IdleAreDone(round.answers, n.memo.completed);
      CountEvery(round.answers);
      DisjointSizes(n.memo.completed, Finished(round.answers));
    }
  }

  lemma IdleAreDone(answers: seq<Status>, done: set<nat>)
    requires forall j | 0 <= j < |answers| :: answers[j] == Idle <==> j in done
    requires forall j | j in done :: j < |answers|
    ensures Count(answers, Idle) == |done| && done !! Finished(answers)
  {
    CountAsSet(answers, Idle);
    assert done == set j: nat | j < |answers| && answers[j] == Idle;
  }

  lemma DisjointSizes(a: set<nat>, b: set<nat>)
    requires a !! b
    ensures |a + b| == |a| + |b|
  {
  }

  lemma ParallelAllByLimit(n: Node, w: World, t: Log)
    requires n.kind.ParallelAll? && BooksOk(n)
    ensures var o := Tick(n, w, t);
            var count := |n.children|;
            var round := Round(n.children, n.memo.completed, count, w, t);
            var limit := Threshold(n.kind.maxFailures, count);
            (o.Threw? <==> count < limit || round.Broke?) &&
            (o.Done? ==>
              var skippedAll := forall a | a in round.answers :: a == Skipped;
              o.log == round.log &&
              (o.answer == Running <==> Running in round.answers) &&
              (o.answer == Skipped <==> skippedAll) &&
              (o.answer == Failure <==>
                 Running !in round.answers && !skippedAll &&
                 n.memo.failures + Count(round.answers, Failure) >= limit) &&
              (o.answer == Success <==>
                 Running !in round.answers && !skippedAll && n.memo.failures + Count(round.answers, Failure) < limit) &&
              o.node == (if IsCompleted(o.answer)
                         then n.(status := Running, children := ResetAll(round.kids),
                                 memo := ClearedMemo(n.kind, Booked(n, round.answers)))
                         else n.(status := Running, children := round.kids, memo := Booked(n, round.answers))))
  {
    var count := |n.children|;
    assert Tick(n, w, t) == ParallelAllTick(n, w, t);
    VisitedNone(n, w, t);
    ParallelAllVisits(n, n.(status := Running), 0, 0, w, t, t);
    RoundCovers(n, w, t);
    var round := Round(n.children, n.memo.completed, count, w, t);
    if round.Asked? {
      CountEvery(round.answers);
      CountIn(round.answers, Running);
      CountIn(round.answers, Skipped);
    }
  }

  /** ParallelAll asks every child that has not finished, and answers Running exactly when one of them
      did, Skipped exactly when all of them (there being no other) skipped, and otherwise Failure exactly
      when the failures of the whole run reach the threshold. Only a completed run resets the children
      and the books. */
  lemma ParallelAllAnswers(n: Node, w: World, t: Log)
    requires n.kind.ParallelAll? && BooksOk(n)
    ensures var o := Tick(n, w, t);
            var count := |n.children|;
            var round := Round(n.children, n.memo.completed, count, w, t);
            (o.Threw? <==> !Reaches(count, n.kind.maxFailures, count) || round.Broke?) &&
            (o.Done? ==>
              var skippedAll := forall a | a in round.answers :: a == Skipped;
              o.log == round.log &&
              (o.answer == Running <==> Running in round.answers) &&
              (o.answer == Skipped <==> skippedAll) &&
              (o.answer == Failure <==>
                 Running !in round.answers && !skippedAll &&
                 Reaches(n.memo.failures + Count(round.answers, Failure), n.kind.maxFailures, count)) &&
              (o.answer == Success <==>
                 Running !in round.answers && !skippedAll &&
                 !Reaches(n.memo.failures + Count(round.answers, Failure), n.kind.maxFailures, count)) &&
              o.node == (if IsCompleted(o.answer)
                         then n.(status := Running, children := ResetAll(round.kids),
                                 memo := ClearedMemo(n.kind, Booked(n, round.answers)))
                         else n.(status := Running, children := round.kids, memo := Booked(n, round.answers))))
  {
    hide *;
    ParallelAllByLimit(n, w, t);
    var count := |n.children|;
    var round := Round(n.children, n.memo.completed, count, w, t);
    ThresholdReaches(count, n.kind.maxFailures, count);
    if round.Asked? {
      ThresholdReaches(n.memo.failures + Count(round.answers, Failure), n.kind.maxFailures, count);
    }
  }

  // ---------------------------------------------------------------- Parallel

  /** After these answers, have enough children succeeded (skipped ones count too when the threshold is
      counted from the end)? */
  predicate Wins(n: Node, answers: seq<Status>)
    requires n.kind.Parallel?
  {
    var skipped := if n.kind.successAt < 0 then Count(answers, Skipped) else 0;
    Reaches(n.memo.successes + Count(answers, Success) + skipped, n.kind.successAt, |n.children|)
  }

  /** Have so many failed that the rest cannot succeed, or exactly as many as the failure threshold? */
  predicate Loses(n: Node, answers: seq<Status>)
    requires n.kind.Parallel?
  {
    var failures, count := n.memo.failures + Count(answers, Failure), |n.children|;
    failures > count || !Reaches(count - failures, n.kind.successAt, count) ||
    JustReaches(failures, n.kind.failureAt, count)
  }

  predicate Decided(n: Node, answers: seq<Status>)
    requires n.kind.Parallel?
  {
    Wins(n, answers) || Loses(n, answers)
  }

  /** No proper part of the answers, beyond the first `i`, decides. */
  ghost predicate UndecidedBefore(n: Node, answers: seq<Status>, i: nat)
    requires n.kind.Parallel?
  {
    forall k | i < k < |answers| :: !Decided(n, answers[..k])
  }

  lemma {:induction false} RoundPrefix(cs: seq<Node>, done: set<nat>, k: nat, m: nat, w: World, t: Log)
    requires k <= m <= |cs| && Round(cs, done, m, w, t).Asked?
    ensures var r := Round(cs, done, k, w, t);
            r.Asked? && r.answers == Round(cs, done, m, w, t).answers[..k]
    decreases m
  {
    hide ExecuteTick;
    if k < m {
      RoundPrefix(cs, done, k, m - 1, w, t);
    }
  }

  /** What a tick of the parallel node comes to after `m` children. */
  ghost predicate ParallelEnds(n: Node, o: Outcome, i: nat, m: nat, w: World, t0: Log)
    requires n.kind.Parallel?
  {
    i <= m <= |n.children| &&
    var round := Round(n.children, n.memo.completed, m, w, t0);
    ((round.Broke? && o.Threw?) ||
     (round.Asked? && o.Done? && o.log == round.log && UndecidedBefore(n, round.answers, i) &&
      if m > i && Decided(n, round.answers) then
        o.answer == (if Wins(n, round.answers) then Success else Failure) &&
        o.node == n.(status := Running, memo := ClearedMemo(n.kind, Booked(n, round.answers)),
                     children := ResetAll(round.kids + n.children[m..]))
      else
        m == |n.children| && o.answer == (if Count(round.answers, Skipped) == m then Skipped else Running) &&
        o.node == n.(status := Running, memo := Booked(n, round.answers), children := round.kids)))
  }

  lemma {:induction false} ParallelVisits(
    n: Node, r: Node, i: nat, skipped: nat, w: World, t0: Log, t: Log)
    returns (m: nat)
    requires n.kind.Parallel? && Visited(n, r, i, skipped, w, t0, t)
    ensures ParallelEnds(n, ParallelLoop(r, n.children, i, skipped, w, t), i, m, w, t0)
    decreases |n.children| - i
  {
    hide AskKid, ParallelJudge, Decided, Booked;
    var cs := n.children;
    if i == |cs| {
      AllVisited(n, r, skipped, w, t0, t);
      return i;
    }
    VisitOne(n, r, i, skipped, w, t0, t);
    var o := AskKid(r, cs, i, w, t);
    if o.Threw? {
      return i + 1;
    }
    var skipped1 := if o.answer == Skipped then skipped + 1 else skipped;
    var whole := ParallelLoop(r, cs, i, skipped, w, t);
    JudgeDecides(n, o.node, i, skipped1, w, t0, o.log);
    var v := ParallelJudge(o.node, skipped1, o.log);
    if v.Stop? {
      assert whole == v.outcome;
      m := i + 1;
    } else {
      m := ParallelVisits(n, o.node, i + 1, skipped1, w, t0, o.log);
      EndsFrom(n, ParallelLoop(o.node, cs, i + 1, skipped1, w, o.log), i, m, w, t0);
      assert whole == ParallelLoop(o.node, cs, i + 1, skipped1, w, o.log);
    }
  }

  lemma AllVisited(n: Node, r: Node, skipped: nat, w: World, t0: Log, t: Log)
    requires n.kind.Parallel? && Visited(n, r, |n.children|, skipped, w, t0, t)
    ensures ParallelEnds(n, Done(r, if skipped == |n.children| then Skipped else Running, t), |n.children|,
                         |n.children|, w, t0)
  {
    var cs := n.children;
    var round := Round(cs, n.memo.completed, |cs|, w, t0);
    assert round.kids + cs[|cs|..] == round.kids;
  }

  lemma JudgeDecides(n: Node, r: Node, i: nat, skipped: nat, w: World, t0: Log, t: Log)
    requires n.kind.Parallel? && i < |n.children| && Visited(n, r, i + 1, skipped, w, t0, t)
    ensures var v := ParallelJudge(r, skipped, t);
            (v.Stop? <==> Decided(n, Round(n.children, n.memo.completed, i + 1, w, t0).answers)) &&
            (v.Stop? ==> ParallelEnds(n, v.outcome, i, i + 1, w, t0))
  {
    hide Round;
    JudgeReaches(n, r, skipped, Round(n.children, n.memo.completed, i + 1, w, t0).answers, t);
  }

  /** The judgement by thresholds is the judgement by what is missing. */
  lemma JudgeReaches(n: Node, r: Node, skipped: nat, answers: seq<Status>, t: Log)
    requires n.kind.Parallel? && r.kind == n.kind && |r.children| == |n.children|
    requires r.memo == Booked(n, answers) && skipped == Count(answers, Skipped)
    ensures var v := ParallelJudge(r, skipped, t);
            (v.Stop? <==> Decided(n, answers)) &&
            (v.Stop? ==> v.outcome == Done(r.(memo := ClearedMemo(n.kind, r.memo), children := ResetAll(r.children)),
                                           if Wins(n, answers) then Success else Failure, t))
  {
    hide ResetAll;
    var count, successes, failures := |n.children|, r.memo.successes, r.memo.failures;
    ThresholdReaches(successes, n.kind.successAt, count);
    ThresholdReaches(successes + skipped, n.kind.successAt, count);
    ThresholdReaches(failures, n.kind.failureAt, count);
    if failures <= count {
      ThresholdReaches(count - failures, n.kind.successAt, count);
    }
  }

  lemma EndsFrom(n: Node, o: Outcome, i: nat, m: nat, w: World, t0: Log)
    requires n.kind.Parallel? && i < |n.children| && ParallelEnds(n, o, i + 1, m, w, t0)
    requires var round := Round(n.children, n.memo.completed, i + 1, w, t0); round.Asked? && !Decided(n, round.answers)
    ensures ParallelEnds(n, o, i, m, w, t0)
  {
    hide Round, Decided, Booked;
    var round := Round(n.children, n.memo.completed, m, w, t0);
    if round.Asked? {
      RoundPrefix(n.children, n.memo.completed, i + 1, m, w, t0);
      assert !Decided(n, round.answers[..i + 1]);
      if m == i + 1 {
        assert round.answers[..i + 1] == round.answers;
      }
    }
  }

  /** The parallel node asks the unfinished children in order and stops at the first point where the
      counts of the whole run decide; success is looked for before failure. */
  lemma ParallelAnswers(n: Node, w: World, t: Log) returns (m: nat)
    requires n.kind.Parallel?
    ensures var o := Tick(n, w, t);
            var count := |n.children|;
            if !Reaches(count, n.kind.successAt, count) || !Reaches(count, n.kind.failureAt, count) then o.Threw?
            else ParallelEnds(n, o, 0, m, w, t)
  {
    assert Tick(n, w, t) == ParallelTick(n, w, t);
    ThresholdReaches(|n.children|, n.kind.successAt, |n.children|);
    ThresholdReaches(|n.children|, n.kind.failureAt, |n.children|);
    VisitedNone(n, w, t);
    m := ParallelVisits(n, n.(status := Running), 0, 0, w, t, t);
  }

  /** A parallel node that answers Running still has an unfinished child; with a success threshold
      counted from the end, one that answered Running in this very tick. Such a node never answers
      Skipped, unless it has no children: when all skip it answers Success. */
  lemma ParallelKeepsGoing(n: Node, w: World, t: Log)
    requires n.kind.Parallel? && BooksOk(n) && n.memo.successes + n.memo.failures == |n.memo.completed|
    ensures var o := Tick(n, w, t);
            var round := Round(n.children, n.memo.completed, |n.children|, w, t);
            (o.Done? && o.answer == Running ==>
              round.Asked? && |o.node.memo.completed| < |n.children| &&
              (n.kind.successAt < 0 ==> Running in round.answers)) &&
            (o.Done? && o.answer == Skipped && n.children != [] ==> n.kind.successAt >= 0)
  {
    var m := ParallelAnswers(n, w, t);
    var o := Tick(n, w, t);
    if o.Done? && !IsCompleted(o.answer) {
      RoundCovers(n, w, t);
      KeepsGoing(n, Round(n.children, n.memo.completed, |n.children|, w, t).answers);
    }
  }

  lemma KeepsGoing(n: Node, answers: seq<Status>)
    requires n.kind.Parallel? && |answers| == |n.children| && (n.children != [] ==> !Decided(n, answers))
    requires n.memo.successes + n.memo.failures == |n.memo.completed| == Count(answers, Idle)
    ensures n.kind.successAt < 0 && n.children != [] ==> Running in answers && Count(answers, Skipped) < |answers|
    ensures n.children != [] ==>
              |n.memo.completed| + Count(answers, Success) + Count(answers, Failure) < |n.children|
  {
    CountEvery(answers);
    CountIn(answers, Running);
  }
}
