/** The parallel nodes over a whole run: their counters are the final answers of the children. The
    references below remember the answers and count nothing. */
module ParallelRuns {
  import opened NodeTypes
  import opened TickModel
  import opened Quiescence
  import opened FallbackRuns
  import opened ParallelAccounting

  // ---------------------------------------------------------------- the answers of a run

  /** The answers the children have ended with; Idle stands for a child that has not ended yet. */
  function Unfinished(count: nat): seq<Status> {
    seq(count, i => Idle)
  }

  /** A round of answers has been added: completed answers are final. */
  function Ended(finals: seq<Status>, answers: seq<Status>): (r: seq<Status>)
    requires |finals| == |answers|
    ensures |r| == |finals|
  {
    seq(|finals|, i requires 0 <= i < |finals| => if IsCompleted(answers[i]) then answers[i] else finals[i])
  }

  predicate OnlyFinal(finals: seq<Status>) {
    forall s | s in finals :: s == Idle || IsCompleted(s)
  }

  /** The counters of a node are those of the final answers. */
  ghost predicate Books(n: Node, finals: seq<Status>) {
    |finals| == |n.children| && OnlyFinal(finals) && n.memo.completed == Finished(finals) &&
    n.memo.failures == Count(finals, Failure) && (n.kind.Parallel? ==> n.memo.successes == Count(finals, Success))
  }

  /** A node whose run is about to start. */
  predicate Blank(n: Node) {
    n.pre.None() && n.memo.completed == {} && n.memo.failures == 0 && n.memo.successes == 0
  }

  lemma {:induction false} CountUnfinished(count: nat, s: Status)
    requires IsCompleted(s)
    ensures Count(Unfinished(count), s) == 0
  {
    if count > 0 {
      CountUnfinished(count - 1, s);
      assert Unfinished(count)[..count - 1] == Unfinished(count - 1);
    }
  }

  lemma BlankBooks(n: Node)
    requires Blank(n)
    ensures Books(n, Unfinished(|n.children|))
  {
    CountUnfinished(|n.children|, Success);
    CountUnfinished(|n.children|, Failure);
    assert Finished(Unfinished(|n.children|)) == {};
  }

  /** A round adds its answers to those of the run: a child that has ended is not asked again. */
  lemma {:induction false} CountEnded(finals: seq<Status>, answers: seq<Status>, s: Status)
    requires |finals| == |answers| && OnlyFinal(finals) && IsCompleted(s)
    requires forall j | 0 <= j < |answers| && finals[j] != Idle :: answers[j] == Idle
    ensures Count(Ended(finals, answers), s) == Count(finals, s) + Count(answers, s)
  {
    if finals != [] {
      var n := |finals| - 1;
      assert finals[n] in finals && forall x | x in finals[..n] :: x in finals;
      CountEnded(finals[..n], answers[..n], s);
      assert Ended(finals, answers)[..n] == Ended(finals[..n], answers[..n]);
    }
  }

  lemma EndedBooks(n: Node, finals: seq<Status>, answers: seq<Status>, next: Node)
    requires Books(n, finals) && |answers| == |finals| == |next.children| && next.kind == n.kind
    requires forall j | 0 <= j < |answers| :: answers[j] == Idle <==> j in n.memo.completed
    requires next.memo == Booked(n, answers)
    ensures Books(next, Ended(finals, answers))
  {
    forall j | 0 <= j < |answers| && finals[j] != Idle ensures answers[j] == Idle {
      assert finals[j] in finals;
    }
    CountEnded(finals, answers, Success);
    CountEnded(finals, answers, Failure);
    var ended := Ended(finals, answers);
    forall j: nat | j < |ended| ensures j in Finished(ended) <==> j in Finished(finals) + Finished(answers) {
    }
    assert Finished(ended) == Finished(finals) + Finished(answers);
    forall s | s in ended ensures s == Idle || IsCompleted(s) {
      var j :| 0 <= j < |ended| && ended[j] == s;
      assert finals[j] in finals;
    }
  }

  // ---------------------------------------------------------------- ParallelAll

  datatype AllResult =
    | AllThrew
    | AllPending(kids: seq<Node>, log: Log)
    | AllEnded(kids: seq<Node>, answers: seq<Status>, finals: seq<Status>, log: Log)

  /** Rounds over the children that have not ended, until in one of them no child answers Running. */
  function AllRun(kids: seq<Node>, finals: seq<Status>, w: World, t: Log, fuel: nat): AllResult
    requires |finals| == |kids|
    decreases fuel
  {
    if fuel == 0 then AllPending(kids, t)
    else
      match Round(kids, Finished(finals), |kids|, w, t)
      case Broke => AllThrew
      case Asked(answers, after, t1) =>
        if Running in answers then AllRun(after, Ended(finals, answers), w, t1, fuel - 1)
        else AllEnded(after, answers, Ended(finals, answers), t1)
  }

  /** The verdict of a run: Skipped if the last round asked all children and all skipped, otherwise
      Failure exactly when the children that ended with Failure reach the threshold. */
  function AllVerdict(answers: seq<Status>, finals: seq<Status>, at: int): Status {
    if forall a | a in answers :: a == Skipped then Skipped
    else if Reaches(Count(finals, Failure), at, |finals|) then Failure
    else Success
  }

  /** A run of ParallelAll, tick for tick. */
  lemma ParallelAllRun(n: Node, w: World, t: Log, k: nat)
    requires n.kind.ParallelAll? && Blank(n)
    ensures var count := |n.children|;
            var at := n.kind.maxFailures;
            var r, v := RunNode(n, w, t, k), AllRun(n.children, Unfinished(count), w, t, k);
            (r.RunPending? <==> k == 0 || (Reaches(count, at, count) && v.AllPending?)) &&
            (r.RunThrew? <==> k > 0 && (!Reaches(count, at, count) || v.AllThrew?)) &&
            (r.RunPending? && v.AllPending? ==> r.log == v.log && r.node.children == v.kids) &&
            (r.RunEnded? ==> v.AllEnded? && r.log == v.log && r.answer == AllVerdict(v.answers, v.finals, at))
  {
    BlankBooks(n);
    AllFrom(n, Unfinished(|n.children|), w, t, k);
  }

  lemma {:induction false} AllFrom(n: Node, finals: seq<Status>, w: World, t: Log, k: nat)
    requires n.kind.ParallelAll? && n.pre.None() && Books(n, finals)
    ensures var count := |n.children|;
            var at := n.kind.maxFailures;
            var r, v := RunNode(n, w, t, k), AllRun(n.children, finals, w, t, k);
            (r.RunPending? <==> k == 0 || (Reaches(count, at, count) && v.AllPending?)) &&
            (r.RunThrew? <==> k > 0 && (!Reaches(count, at, count) || v.AllThrew?)) &&
            (r.RunPending? && v.AllPending? ==> r.log == v.log && r.node.children == v.kids) &&
            (r.RunEnded? ==> v.AllEnded? && r.log == v.log && r.answer == AllVerdict(v.answers, v.finals, at))
    decreases k
  {
    hide ExecuteTick, Round, Books, AllVerdict, Reaches;
    if k > 0 {
      AllTick(n, finals, w, t);
      var o, round := ExecuteTick(n, w, t), Round(n.children, Finished(finals), |n.children|, w, t);
      if o.Done? && o.answer == Running {
        AllFrom(o.node, Ended(finals, round.answers), w, o.log, k - 1);
      }
    }
  }

  /** One tick is one round. */
  lemma AllTick(n: Node, finals: seq<Status>, w: World, t: Log)
    requires n.kind.ParallelAll? && n.pre.None() && Books(n, finals)
    ensures |finals| == |n.children|
    ensures var count := |n.children|;
            var at := n.kind.maxFailures;
            var o, round := ExecuteTick(n, w, t), Round(n.children, Finished(finals), count, w, t);
            (o.Threw? <==> !Reaches(count, at, count) || round.Broke?) &&
            (o.Done? ==>
              o.log == round.log && (o.answer == Running <==> Running in round.answers) &&
              (if o.answer == Running
               then o.node.kind == n.kind && o.node.pre == n.pre && o.node.children == round.kids &&
                    Books(o.node, Ended(finals, round.answers))
               else o.answer == AllVerdict(round.answers, Ended(finals, round.answers), at)))
  {
    hide Round, Tick;
    var count := |n.children|;
    NoScripts(n.uid, n.pre, n.status, 0, w, t);
    ParallelAllAnswers(n, w, t);
    var o, round := Tick(n, w, t), Round(n.children, n.memo.completed, count, w, t);
    if o.Done? {
      RoundIdle(n.children, n.memo.completed, count, w, t);
      AllEnds(n, finals, round.answers);
      if o.answer == Running {
        EndedBooks(n, finals, round.answers, o.node);
      }
    }
  }

  lemma AllEnds(n: Node, finals: seq<Status>, answers: seq<Status>)
    requires Books(n, finals) && |answers| == |finals|
    requires forall j | 0 <= j < |answers| :: answers[j] == Idle <==> j in n.memo.completed
    ensures Count(Ended(finals, answers), Failure) == n.memo.failures + Count(answers, Failure)
  {
    forall j | 0 <= j < |answers| && finals[j] != Idle ensures answers[j] == Idle {
      assert finals[j] in finals;
    }
    CountEnded(finals, answers, Failure);
  }

  // ---------------------------------------------------------------- Parallel

  /** The thresholds of a parallel node. */
  datatype Rule = Rule(successAt: int, failureAt: int, count: nat) {
    /** Have enough children ended with Success? Those that skip in this tick count too when the threshold
        is counted from the end. */
    predicate Wins(finals: seq<Status>, skipped: nat) {
      Reaches(Count(finals, Success) + if successAt < 0 then skipped else 0, successAt, count)
    }

    /** Have so many ended with Failure that the rest cannot succeed, or just as many as the threshold? */
    predicate Loses(finals: seq<Status>) {
      Count(finals, Failure) > count || !Reaches(count - Count(finals, Failure), successAt, count) ||
      JustReaches(Count(finals, Failure), failureAt, count)
    }
  }

  datatype RoundEnd =
    | AskThrew
    | Decided(kids: seq<Node>, finals: seq<Status>, skipped: nat, answer: Status, log: Log)
    | Undecided(kids: seq<Node>, finals: seq<Status>, skipped: nat, log: Log)

  /** The children from `i` on that have not ended are asked in order, until the final answers decide. */
  function AskOn(
    rule: Rule, kids: seq<Node>, finals: seq<Status>, i: nat, skipped: nat, w: World, t: Log): (r: RoundEnd)
    requires |finals| == |kids| && i <= |kids|
    ensures r.Undecided? ==> |r.finals| == |r.kids| == |kids|
    decreases |kids| - i
  {
    if i == |kids| then Undecided(kids, finals, skipped, t)
    else if finals[i] != Idle then Judged(rule, kids, finals, i, skipped, w, t)
    else
      match ExecuteTick(kids[i], w, Noted(kids[i], t))
      case Threw => AskThrew
      case Done(c, answer, t1) =>
        Judged(rule, kids[i := c], if IsCompleted(answer) then finals[i := answer] else finals, i,
               if answer == Skipped then skipped + 1 else skipped, w, t1)
  }

  function Judged(
    rule: Rule, kids: seq<Node>, finals: seq<Status>, i: nat, skipped: nat, w: World, t: Log): (r: RoundEnd)
    requires |finals| == |kids| && i < |kids|
    ensures r.Undecided? ==> |r.finals| == |r.kids| == |kids|
    decreases |kids| - i, 0
  {
    if rule.Wins(finals, skipped) then Decided(kids, finals, skipped, Success, t)
    else if rule.Loses(finals) then Decided(kids, finals, skipped, Failure, t)
    else AskOn(rule, kids, finals, i + 1, skipped, w, t)
  }

  datatype AnyResult =
    | AnyThrew
    | AnyPending(kids: seq<Node>, log: Log)
    | AnyEnded(kids: seq<Node>, finals: seq<Status>, skipped: nat, answer: Status, log: Log)

  /** Rounds until the final answers decide, or all children skip in one round. */
  function AnyRun(rule: Rule, kids: seq<Node>, finals: seq<Status>, w: World, t: Log, fuel: nat): AnyResult
    requires |finals| == |kids|
    decreases fuel
  {
    if fuel == 0 then AnyPending(kids, t)
    else
      match AskOn(rule, kids, finals, 0, 0, w, t)
      case AskThrew => AnyThrew
      case Decided(after, ended, skipped, answer, t1) => AnyEnded(after, ended, skipped, answer, t1)
      case Undecided(after, ended, skipped, t1) =>
        if skipped == |kids| then AnyEnded(after, ended, skipped, Skipped, t1)
        else AnyRun(rule, after, ended, w, t1, fuel - 1)
  }

  function RuleOf(n: Node): Rule
    requires n.kind.Parallel?
  {
    Rule(n.kind.successAt, n.kind.failureAt, |n.children|)
  }

  /** The thresholds that the code refuses. */
  predicate TooHigh(n: Node)
    requires n.kind.Parallel?
  {
    var count := |n.children|;
    !Reaches(count, n.kind.successAt, count) || !Reaches(count, n.kind.failureAt, count)
  }

  /** A run of Parallel, tick for tick: it asks the children that have not ended in order, and stops where
      their final answers first decide, success before failure. */
  lemma ParallelRun(n: Node, w: World, t: Log, k: nat)
    requires n.kind.Parallel? && Blank(n)
    ensures var r, v := RunNode(n, w, t, k), AnyRun(RuleOf(n), n.children, Unfinished(|n.children|), w, t, k);
            (r.RunPending? <==> k == 0 || (!TooHigh(n) && v.AnyPending?)) &&
            (r.RunThrew? <==> k > 0 && (TooHigh(n) || v.AnyThrew?)) &&
            (r.RunPending? && v.AnyPending? ==> r.log == v.log && r.node.children == v.kids) &&
            (r.RunEnded? ==> v.AnyEnded? && r.log == v.log && r.answer == v.answer &&
                             r.node.children == if r.answer == Skipped then v.kids else ResetAll(v.kids))
  {
    BlankBooks(n);
    AnyFrom(n, Unfinished(|n.children|), w, t, k);
  }

  /** What the verdict says about the final answers of the children, and those that skipped in the last round:
      a success threshold of k asks for k that succeeded, one of -k lets k - 1 children be missing that
      neither succeeded nor skipped, so that -1 asks for all. A run fails when too many have failed for that,
      or just as many as the failure threshold: k of them, or all but k - 1 for -k. */
  lemma ParallelVerdict(n: Node, w: World, t: Log, k: nat)
    requires n.kind.Parallel? && Blank(n)
    ensures var r, v := RunNode(n, w, t, k), AnyRun(RuleOf(n), n.children, Unfinished(|n.children|), w, t, k);
            var at, failAt, count := n.kind.successAt, n.kind.failureAt, |n.children|;
            r.RunEnded? ==>
              v.AnyEnded? && |v.finals| == count &&
              var good := Count(v.finals, Success) + if at < 0 then v.skipped else 0;
              var bad := Count(v.finals, Failure);
              (r.answer == Success ==> if at >= 0 then good >= at else count - good < -at) &&
              (r.answer == Failure ==>
                !(if at >= 0 then good >= at else count - good < -at) &&
                ((if at >= 0 then bad > count - at else bad >= -at) ||
                 (if failAt >= 0 then bad == failAt
                  else if -failAt > count then bad == 0 else count - bad == -failAt - 1)))
  {
    hide RunNode, AnyRun;
    ParallelRun(n, w, t, k);
    EndedByRule(RuleOf(n), n.children, Unfinished(|n.children|), w, t, k);
  }

  lemma {:induction false} EndedByRule(rule: Rule, kids: seq<Node>, finals: seq<Status>, w: World, t: Log, k: nat)
    requires |finals| == |kids|
    ensures var v := AnyRun(rule, kids, finals, w, t, k);
            v.AnyEnded? ==>
              |v.finals| == |kids| && (v.answer == Success ==> rule.Wins(v.finals, v.skipped)) &&
              (v.answer == Failure ==> !rule.Wins(v.finals, v.skipped) && rule.Loses(v.finals))
    decreases k
  {
    hide ExecuteTick, AskOn, Rule.Wins, Rule.Loses;
    if k > 0 {
      DecidedByRule(rule, kids, finals, 0, 0, w, t);
      var v := AskOn(rule, kids, finals, 0, 0, w, t);
      if v.Undecided? && v.skipped != |kids| {
        EndedByRule(rule, v.kids, v.finals, w, v.log, k - 1);
      }
    }
  }

  lemma {:induction false} DecidedByRule(
    rule: Rule, kids: seq<Node>, finals: seq<Status>, i: nat, skipped: nat, w: World, t: Log)
    requires |finals| == |kids| && i <= |kids|
    ensures var v := AskOn(rule, kids, finals, i, skipped, w, t);
            (v.Decided? ==>
              |v.finals| == |kids| && IsCompleted(v.answer) &&
               (v.answer == Success <==> rule.Wins(v.finals, v.skipped)) &&
              (v.answer == Failure ==> rule.Loses(v.finals))) &&
            (v.Undecided? ==> |v.kids| == |v.finals| == |kids|)
    decreases |kids| - i
  {
    hide ExecuteTick, Rule.Wins, Rule.Loses;
    if i < |kids| {
      var o := ExecuteTick(kids[i], w, Noted(kids[i], t));
      if finals[i] != Idle {
        DecidedByRule(rule, kids, finals, i + 1, skipped, w, t);
      } else if o.Done? {
        DecidedByRule(rule, kids[i := o.node], if IsCompleted(o.answer) then finals[i := o.answer] else finals, i + 1,
                      if o.answer == Skipped then skipped + 1 else skipped, w, o.log);
      }
    }
  }

  lemma {:induction false} AnyFrom(n: Node, finals: seq<Status>, w: World, t: Log, k: nat)
    requires n.kind.Parallel? && n.pre.None() && Books(n, finals)
    ensures |finals| == |n.children|
    ensures var r, v := RunNode(n, w, t, k), AnyRun(RuleOf(n), n.children, finals, w, t, k);
            (r.RunPending? <==> k == 0 || (!TooHigh(n) && v.AnyPending?)) &&
            (r.RunThrew? <==> k > 0 && (TooHigh(n) || v.AnyThrew?)) &&
            (r.RunPending? && v.AnyPending? ==> r.log == v.log && r.node.children == v.kids) &&
            (r.RunEnded? ==> v.AnyEnded? && r.log == v.log && r.answer == v.answer &&
                             r.node.children == if r.answer == Skipped then v.kids else ResetAll(v.kids))
    decreases k
  {
    hide ExecuteTick, AskOn;
    if k > 0 {
      AnyTick(n, finals, w, t);
      var o, v := ExecuteTick(n, w, t), AskOn(RuleOf(n), n.children, finals, 0, 0, w, t);
      if o.Done? && o.answer == Running {
        AnyFrom(o.node, v.finals, w, o.log, k - 1);
      }
    }
  }

  /** What a tick hands to `executeTick`, against a round of the reference. */
  ghost predicate SameRound(n: Node, o: Outcome, v: RoundEnd) {
    (v.AskThrew? && o.Threw?) ||
    (v.Decided? && o.Done? && IsCompleted(v.answer) && o.answer == v.answer && o.log == v.log &&
     o.node.children == ResetAll(v.kids) && o.node.kind == n.kind) ||
    (v.Undecided? && o.Done? && o.log == v.log && o.node.children == v.kids && o.node.kind == n.kind &&
     o.node.pre == n.pre && o.node.status == Running &&
     o.answer == (if v.skipped == |v.kids| then Skipped else Running) && Books(o.node, v.finals))
  }

  lemma AnyTick(n: Node, finals: seq<Status>, w: World, t: Log)
    requires n.kind.Parallel? && n.pre.None() && Books(n, finals)
    ensures |finals| == |n.children|
    ensures TooHigh(n) ==> ExecuteTick(n, w, t).Threw?
    ensures !TooHigh(n) ==> SameRound(n, ExecuteTick(n, w, t), AskOn(RuleOf(n), n.children, finals, 0, 0, w, t))
  {
    NoScripts(n.uid, n.pre, n.status, 0, w, t);
    assert Tick(n, w, t) == ParallelTick(n, w, t);
    ThresholdReaches(|n.children|, n.kind.successAt, |n.children|);
    ThresholdReaches(|n.children|, n.kind.failureAt, |n.children|);
    if !TooHigh(n) {
      AskingLoop(n.(status := Running), n.children, finals, 0, 0, w, t);
    }
  }

  lemma {:induction false} AskingLoop(
    n: Node, cs: seq<Node>, finals: seq<Status>, i: nat, skipped: nat, w: World, t: Log)
    requires n.kind.Parallel? && n.status == Running && |n.children| == |cs| == |finals| && i <= |cs|
    requires Books(n, finals)
    requires forall j | i <= j < |cs| :: n.children[j] == cs[j]
    ensures SameRound(n, ParallelLoop(n, cs, i, skipped, w, t), AskOn(RuleOf(n), n.children, finals, i, skipped, w, t))
    decreases |cs| - i
  {
    hide ExecuteTick, AskKid, Books, ParallelJudge, Rule.Wins, Rule.Loses, ResetAll, RuleOf;
    if i < |cs| {
      var o := AskKid(n, cs, i, w, t);
      AskedBooks(n, cs, finals, i, w, t);
      if o.Done? {
        var fin := if IsCompleted(o.answer) then finals[i := o.answer] else finals;
        var skipped1 := if o.answer == Skipped then skipped + 1 else skipped;
        JudgedBooks(n, o.node, fin, skipped1, o.log);
        if ParallelJudge(o.node, skipped1, o.log).Next? {
          AskingLoop(o.node, cs, fin, i + 1, skipped1, w, o.log);
        }
      }
    }
  }

  lemma JudgedBooks(n: Node, m: Node, finals: seq<Status>, skipped: nat, t: Log)
    requires n.kind.Parallel? && m.kind == n.kind && |m.children| == |n.children| && m.status == Running
    requires Books(m, finals)
    ensures RuleOf(m) == RuleOf(n)
    ensures var v := ParallelJudge(m, skipped, t);
            if RuleOf(n).Wins(finals, skipped) then
              v.Stop? && SameRound(n, v.outcome, Decided(m.children, finals, skipped, Success, t))
            else if RuleOf(n).Loses(finals) then
              v.Stop? && SameRound(n, v.outcome, Decided(m.children, finals, skipped, Failure, t))
            else v.Next?
  {
    hide ResetAll, Threshold, Reaches, JustReaches;
    var count, successes, failures := |n.children|, Count(finals, Success), Count(finals, Failure);
    ThresholdReaches(successes, n.kind.successAt, count);
    ThresholdReaches(successes + skipped, n.kind.successAt, count);
    ThresholdReaches(failures, n.kind.failureAt, count);
    ThresholdReaches(count - failures, n.kind.successAt, count);
  }

  /** Asking one child keeps the books in line with the final answers. */
  lemma AskedBooks(n: Node, cs: seq<Node>, finals: seq<Status>, i: nat, w: World, t: Log)
    requires n.kind.Parallel? && |n.children| == |cs| && i < |cs| && Books(n, finals) && n.children[i] == cs[i]
    ensures var o := AskKid(n, cs, i, w, t);
            if finals[i] != Idle then o == Done(n, Idle, t)
            else if ExecuteTick(cs[i], w, Noted(cs[i], t)).Threw? then o.Threw?
            else
              var k := ExecuteTick(cs[i], w, Noted(cs[i], t));
              var fin := if IsCompleted(k.answer) then finals[i := k.answer] else finals;
              o.Done? && o.answer == k.answer && o.log == k.log && Books(o.node, fin) &&
              o.node == n.(children := n.children[i := k.node], memo := o.node.memo)
  {
    hide ExecuteTick;
    assert finals[i] in finals;
    assert i in n.memo.completed <==> finals[i] != Idle;
    if finals[i] == Idle {
      AnswerNotIdle(cs[i], w, Noted(cs[i], t));
      var k := ExecuteTick(cs[i], w, Noted(cs[i], t));
      if k.Done? && IsCompleted(k.answer) {
        CountFinal(finals, i, k.answer);
      }
    }
  }

  lemma {:induction false} CountFinal(finals: seq<Status>, i: nat, answer: Status)
    requires i < |finals| && finals[i] == Idle && IsCompleted(answer)
    ensures forall s | IsCompleted(s) ::
            Count(finals[i := answer], s) == Count(finals, s) + if s == answer then 1 else 0
    ensures Finished(finals[i := answer]) == Finished(finals) + {i}
    ensures OnlyFinal(finals) ==> OnlyFinal(finals[i := answer])
  {
    var last := |finals| - 1;
    if i < last {
      CountFinal(finals[..last], i, answer);
      assert finals[i := answer][..last] == finals[..last][i := answer];
    } else {
      assert finals[i := answer][..last] == finals[..last];
    }
  }
}
