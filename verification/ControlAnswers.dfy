/** What nodes answer, said over what their scripts reply and their children answer: no loop, index or
    counter of the engine appears in these statements. */
module ControlAnswers {
  import opened NodeTypes
  import opened TickModel
  import opened Quiescence
  import opened FallbackRuns
  import opened ParallelAccounting

  // ---------------------------------------------------------------- scripts and the stored status

  /** The log when the scripts with an index below `k` have been run. */
  function Scripted(uid: nat, pre: PreConditions, k: nat, t: Log): Log
    requires k <= 4
  {
    if k == 0 then t
    else Scripted(uid, pre, k - 1, t) + if pre.Present(k - 1) then [Script(uid, k - 1)] else []
  }

  /** Does script `k` answer for a node that has not started? The first three do when they hold, the
      while-condition does when it fails. */
  predicate Answers(uid: nat, pre: PreConditions, k: nat, w: World, t: Log)
    requires k < 4
  {
    pre.Present(k) && (w.reply(Scripted(uid, pre, k + 1, t)).holds <==> k != 3)
  }

  predicate FirstToAnswer(uid: nat, pre: PreConditions, k: nat, w: World, t: Log) {
    k < 4 && Answers(uid, pre, k, w, t) && forall j | 0 <= j < k :: !Answers(uid, pre, j, w, t)
  }

  function AnswerOf(k: nat): Status {
    if k == 0 then Failure else if k == 1 then Success else Skipped
  }

  /** A node that has not started is answered for by the first of its scripts that does: "fail if" by
      Failure, "succeed if" by Success, "skip if" and a failing "while" by Skipped. If none does it is
      ticked. Scripts behind the one that answers are not run. */
  lemma ScriptsDecide(uid: nat, pre: PreConditions, s: Status, w: World, t: Log)
    requires s == Idle || s == Skipped
    ensures var c := CheckFrom(uid, pre, s, 0, w, t);
            if forall k | 0 <= k < 4 :: !Answers(uid, pre, k, w, t) then c == Proceed(Scripted(uid, pre, 4, t))
            else
              exists k: nat | FirstToAnswer(uid, pre, k, w, t) ::
                c == Override(AnswerOf(k), false, Scripted(uid, pre, k + 1, t))
  {
    ScriptsFrom(uid, pre, s, 0, w, t);
  }

  lemma {:induction false} ScriptsFrom(uid: nat, pre: PreConditions, s: Status, i: nat, w: World, t: Log)
    requires (s == Idle || s == Skipped) && i <= 4 && forall j | 0 <= j < i :: !Answers(uid, pre, j, w, t)
    ensures var c := CheckFrom(uid, pre, s, i, w, Scripted(uid, pre, i, t));
            if forall k | 0 <= k < 4 :: !Answers(uid, pre, k, w, t) then c == Proceed(Scripted(uid, pre, 4, t))
            else
              exists k: nat | FirstToAnswer(uid, pre, k, w, t) ::
                c == Override(AnswerOf(k), false, Scripted(uid, pre, k + 1, t))
    decreases 4 - i
  {
    if i < 4 && !Answers(uid, pre, i, w, t) {
      assert pre.Present(i) ==> Scripted(uid, pre, i + 1, t) == Scripted(uid, pre, i, t) + [Script(uid, i)];
      assert !pre.Present(i) ==> Scripted(uid, pre, i + 1, t) == Scripted(uid, pre, i, t);
      ScriptsFrom(uid, pre, s, i + 1, w, t);
    } else if i < 4 {
      assert FirstToAnswer(uid, pre, i, w, t);
      assert Scripted(uid, pre, i + 1, t) == Scripted(uid, pre, i, t) + [Script(uid, i)];
    }
  }

  /** A running node is asked for its while-condition only: if that fails the node is skipped and halted. A
      node that stores a completed status is asked for none. */
  lemma RunningDecides(uid: nat, pre: PreConditions, s: Status, w: World, t: Log)
    requires s == Running || IsCompleted(s)
    ensures var c, t1 := CheckFrom(uid, pre, s, 0, w, t), t + [Script(uid, 3)];
            c == if IsCompleted(s) || !pre.whileTrue then Proceed(t)
                 else if w.reply(t1).holds then Proceed(t1)
                 else Override(Skipped, true, t1)
  {
    RunningFrom(uid, pre, s, 0, w, t);
  }

  lemma {:induction false} RunningFrom(uid: nat, pre: PreConditions, s: Status, i: nat, w: World, t: Log)
    requires (s == Running || IsCompleted(s)) && i <= 3
    ensures var c, t1 := CheckFrom(uid, pre, s, i, w, t), t + [Script(uid, 3)];
            c == if IsCompleted(s) || !pre.whileTrue then Proceed(t)
                 else if w.reply(t1).holds then Proceed(t1)
                 else Override(Skipped, true, t1)
    decreases 3 - i
  {
    if i < 3 {
      RunningFrom(uid, pre, s, i + 1, w, t);
    }
  }

  /** The node with the child of a decorator reset if it stores a completed status, and no other change. */
  ghost predicate Stuck(n: Node, r: Node) {
    r == n.(children := r.children) && |r.children| == |n.children| &&
    forall j | 0 <= j < |n.children| ::
      r.children[j] == if n.kind.Decorator? && |n.children| == 1 && IsCompleted(n.children[j].status)
                       then n.children[j].(status := Idle) else n.children[j]
  }

  /** `executeTick`: an answer is stored unless it is Skipped, and Idle is refused; that goes for the answer of
      a script and for that of the node's own tick. A node whose while-condition has failed is halted. */
  lemma ExecuteTickAnswers(n: Node, w: World, t: Log)
    ensures var o, c := ExecuteTick(n, w, t), CheckFrom(n.uid, n.pre, n.status, 0, w, t);
            c.Override? ==>
              o.Done? && o.answer == c.answer && o.log == c.log &&
              Stuck(if c.halts then Halt(n) else if c.answer == Skipped then n else n.(status := c.answer), o.node)
    ensures var o, c := ExecuteTick(n, w, t), CheckFrom(n.uid, n.pre, n.status, 0, w, t);
            c.Proceed? ==>
              var k := Tick(n, w, c.log);
              (o.Threw? <==> k.Threw? || k.answer == Idle) &&
              (o.Done? ==>
                o.answer == k.answer && o.log == k.log &&
                Stuck(if k.answer == Skipped then k.node else k.node.(status := k.answer), o.node))
    ensures n.kind.Leaf? ==> Tick(n, w, t) == Done(n, w.reply(t).answer, t)
  {
    hide Halt;
    CheckAnswers(n.uid, n.pre, n.status, 0, w, t);
  }

  // ---------------------------------------------------------------- loops with a condition, and decorators

  /** The tick of child `i`, as a parent makes it. */
  function TickOf(n: Node, i: nat, w: World, t: Log): Outcome
    requires i < |n.children|
  {
    ExecuteTick(n.children[i], w, Noted(n.children[i], t))
  }

  /** All children are Idle: those that were running have been halted. `kids` is what ticks have left of them. */
  ghost predicate Rested(r: Node, kids: seq<Node>) {
    |r.children| == |kids| &&
    forall j | 0 <= j < |kids| :: r.children[j] == ResetChild(kids[j]) && r.children[j].status == Idle
  }

  /** The branch that a WhileDoElse or an IfThenElse goes on with: the second child after Success, the third
      after Failure if there is one. */
  function BranchFor(n: Node, condition: Status): nat {
    if condition == Success then 1 else if condition == Failure && |n.children| == 3 then 2 else 0
  }

  /** A tick of a WhileDoElse asks its condition, in every tick. A running condition is the answer. After
      Success and Failure the branch is ticked, the other one being halted and reset, and its answer is
      the answer, whatever it is; unless it is Running, all children are reset. Without an else-branch a
      failed condition is the answer; a skipped one makes the tick throw. */
  lemma WhileAnswers(n: Node, w: World, t: Log)
    requires n.kind.WhileDoElse?
    ensures |n.children| != 2 && |n.children| != 3 ==> Tick(n, w, t).Threw?
    ensures var o := Tick(n, w, t); o.Done? ==> o.node == n.(status := Running, children := o.node.children)
    ensures 2 <= |n.children| <= 3 ==>
              var o, c := Tick(n, w, t), TickOf(n, 0, w, t);
              if c.Threw? then o.Threw?
              else if c.answer == Running then
                o == Done(n.(status := Running, children := n.children[0 := c.node]), Running, c.log)
              else
                var i, kids := BranchFor(n, c.answer), n.children[0 := c.node];
                if i == 0 then
                  o.Done? && o.answer == (if c.answer == Failure then Failure else Idle) && o.log == c.log &&
                  Rested(o.node, kids)
                else
                  var b := TickOf(n, i, w, c.log);
                  if b.Threw? then o.Threw?
                  else
                    o.Done? && o.answer == b.answer && o.log == b.log &&
                    if b.answer == Running then
                      |o.node.children| == |kids| && o.node.children[0] == c.node && o.node.children[i] == b.node &&
                      (|kids| == 3 ==> o.node.children[3 - i] == ResetChild(kids[3 - i]))
                    else Rested(o.node, kids[i := b.node])
  {
    hide ExecuteTick, ResetAll, ResetChild, Rested, WhileBranch;
    assert Tick(n, w, t) == WhileTick(n, w, t);
    if |n.children| == 2 || |n.children| == 3 {
      var c := TickOf(n, 0, w, t);
      if c.Done? && c.answer != Running {
        var i, kids := BranchFor(n, c.answer), n.children[0 := c.node];
        if i == 0 {
          AllRest(n.(status := Running, children := kids), kids);
        } else {
          var r := n.(status := Running, children := kids);
          var spared := if |kids| == 3 then r.(children := kids[3 - i := ResetChild(kids[3 - i])]) else r;
          WhileGoesOn(r, spared, kids, i, TickOf(n, i, w, c.log));
        }
      }
    }
  }

  /** Resetting all children, some of which have been reset before. */
  lemma AllRest(n: Node, kids: seq<Node>)
    requires |n.children| == |kids|
    requires forall j | 0 <= j < |kids| :: n.children[j] == kids[j] || n.children[j] == ResetChild(kids[j])
    ensures Rested(n.(children := ResetAll(n.children)), kids)
  {
    hide Halt;
  }

  lemma WhileGoesOn(r: Node, spared: Node, kids: seq<Node>, i: nat, b: Outcome)
    requires 1 <= i < |kids| <= 3 && r.children == kids && i <= 2
    requires spared == if |kids| == 3 then r.(children := kids[3 - i := ResetChild(kids[3 - i])]) else r
    ensures var o := WhileBranch(spared, i, b); o.Done? ==> o.node == r.(children := o.node.children)
    ensures var o := WhileBranch(spared, i, b);
            if b.Threw? then o.Threw?
            else
              o.Done? && o.answer == b.answer && o.log == b.log &&
              if b.answer == Running then
                |o.node.children| == |kids| && o.node.children[0] == kids[0] && o.node.children[i] == b.node &&
                (|kids| == 3 ==> o.node.children[3 - i] == ResetChild(kids[3 - i]))
              else Rested(o.node, kids[i := b.node])
  {
    hide ResetChild, ResetAll, Rested;
    if b.Done? {
      AllRest(spared.(children := spared.children[i := b.node]), kids[i := b.node]);
    }
  }

  /** A tick of an IfThenElse goes on with the branch that an earlier tick has chosen, without asking the
      condition; otherwise it asks the condition and goes on with the branch it chooses. */
  lemma IfAnswers(n: Node, w: World, t: Log)
    requires n.kind.IfThenElse?
    ensures (|n.children| != 2 && |n.children| != 3) || n.memo.idx >= |n.children| ==> Tick(n, w, t).Threw?
    ensures 2 <= |n.children| <= 3 && 0 < n.memo.idx < |n.children| ==>
              BranchEnds(n, Tick(n, w, t), n.children, n.memo.idx, TickOf(n, n.memo.idx, w, t))
    ensures 2 <= |n.children| <= 3 && n.memo.idx == 0 ==>
              var o, c := Tick(n, w, t), TickOf(n, 0, w, t);
              if c.Threw? then o.Threw?
              else
                var i, kids := BranchFor(n, c.answer), n.children[0 := c.node];
                if i > 0 then BranchEnds(n, o, kids, i, TickOf(n, i, w, c.log))
                else if c.answer == Running || c.answer == Failure then
                  o == Done(n.(status := Running, children := kids), c.answer, c.log)
                else o.Threw?
  {
    hide ExecuteTick, Halt;
    assert Tick(n, w, t) == IfTick(n, w, t);
  }

  /** The answer of branch `i` is the answer. While it runs it is remembered; otherwise all is forgotten and
      the children are reset. */
  ghost predicate BranchEnds(n: Node, o: Outcome, kids: seq<Node>, i: nat, b: Outcome)
    requires i < |kids|
  {
    if b.Threw? then o.Threw?
    else
      o.Done? && o.answer == b.answer && o.log == b.log &&
      if b.answer == Running then
        o.node == n.(status := Running, children := kids[i := b.node], memo := n.memo.(idx := i))
      else
        o.node == n.(status := Running, children := o.node.children, memo := n.memo.(idx := 0)) &&
        Rested(o.node, kids[i := b.node])
  }

  /** A simple decorator answers what its table has for the answer of its child. */
  lemma DecoratorAnswers(n: Node, w: World, t: Log)
    requires n.kind.Decorator?
    ensures |n.children| != 1 ==> Tick(n, w, t).Threw?
    ensures |n.children| == 1 ==>
              var o, c := Tick(n, w, t), TickOf(n, 0, w, t);
              (o.Threw? <==> c.Threw?) &&
              (c.Done? ==>
                o.log == c.log && o.node == n.(children := [c.node]) &&
                (c.answer == Running ==> o.answer == n.kind.onRunning) &&
                (c.answer == Success ==> o.answer == n.kind.onSuccess) &&
                (c.answer == Failure ==> o.answer == n.kind.onFailure) &&
                (c.answer == Skipped ==> o.answer == n.kind.onSkipped))
  {
    hide ExecuteTick;
    assert Tick(n, w, t) == DecoratorTick(n, w, t);
  }

  // ---------------------------------------------------------------- the root

  function TickAfter(o: Outcome, w: World): Outcome
    requires o.Done?
  {
    ExecuteTick(o.node, w, Noted(o.node, o.log + [Listened]))
  }

  /** Ticks of the root one after the other, with a look for a wake-up signal after each but the last. */
  ghost predicate Successive(n: Node, w: World, t: Log, ticks: seq<Outcome>) {
    ticks != [] && ticks[0] == ExecuteTick(n, w, Noted(n, t)) &&
    forall i | 0 <= i < |ticks| - 1 :: ticks[i].Done? && ticks[i + 1] == TickAfter(ticks[i], w)
  }

  /** Is the root ticked again after this tick? */
  predicate TicksAgain(opt: TickOption, o: Outcome, w: World) {
    o.Done? && o.answer == Running && opt != ExactlyOnce &&
    (opt == WhileRunning || w.reply(o.log + [Listened]).holds)
  }

  /** `tickRoot` ticks the root again as long as it runs and the option asks for it: never, if a wake-up
      signal is pending, or always. The answer is that of the last tick, and a completed root is reset. */
  lemma {:induction false} RootAnswers(opt: TickOption, n: Node, w: World, t: Log, fuel: nat)
    returns (ticks: seq<Outcome>)
    requires fuel > 0
    ensures Successive(n, w, t, ticks) && |ticks| <= fuel
    ensures forall i | 0 <= i < |ticks| - 1 :: TicksAgain(opt, ticks[i], w)
    ensures var r, o := TickRoot(opt, n, w, t, fuel), ticks[|ticks| - 1];
            (r.RootThrew? <==> o.Threw?) && (r.StillRunning? <==> TicksAgain(opt, o, w)) &&
            (r.StillRunning? ==> |ticks| == fuel) &&
            (r.Returned? ==>
              r.answer == o.answer && r.root == (if IsCompleted(o.answer) then o.node.(status := Idle) else o.node) &&
              r.log == o.log + if o.answer == Running && opt != ExactlyOnce then [Listened] else [])
    ensures opt == ExactlyOnce ==> |ticks| == 1
    decreases fuel
  {
    hide ExecuteTick;
    var o := ExecuteTick(n, w, Noted(n, t));
    ticks := [o];
    if TicksAgain(opt, o, w) && fuel > 1 {
      var more := RootAnswers(opt, o.node, w, o.log + [Listened], fuel - 1);
      ticks := [o] + more;
    }
    assert o.Done? ==> TickRoot(opt, o.node, w, o.log + [Listened], 0) == StillRunning;
  }

  // ---------------------------------------------------------------- the reactive fallback

  /** The child that an earlier tick of the run has left running; none if the run is new. */
  function Remembered(n: Node): int {
    if n.status == Idle then -1 else n.memo.runningChild
  }

  /** The first `m` children have been asked, and all but the last of them failed or skipped. */
  ghost predicate AskedUpTo(n: Node, m: nat, w: World, t: Log) {
    m <= |n.children| &&
    (m > 0 ==>
      var front := Round(n.children, {}, m - 1, w, t);
      front.Asked? && forall a | a in front.answers :: a == Failure || a == Skipped)
  }

  /** The answer that ends the search, if there is one. */
  function LastAnswer(answers: seq<Status>): Status {
    if answers == [] then Skipped else answers[|answers| - 1]
  }

  predicate Decisive(s: Status) {
    s == Success || s == Running
  }

  /** What a tick of a reactive fallback comes to when it has asked `m` children. */
  ghost predicate ReactiveEnds(n: Node, o: Outcome, m: nat, w: World, t: Log) {
    AskedUpTo(n, m, w, t) &&
    var round := Round(n.children, {}, m, w, t);
    if round.Broke? then o.Threw?
    else
      var last := LastAnswer(round.answers);
      (Decisive(last) || (last != Idle && m == |n.children|)) &&
      (o.Threw? <==> last == Running && w.singleRunning && Remembered(n) != -1 && Remembered(n) != m - 1) &&
      (o.Done? ==>
        o.log == round.log &&
        o.answer == (if Decisive(last) then last
                     else if forall a | a in round.answers :: a == Skipped then Skipped
                     else Failure) &&
        ReactiveLeaves(n, o.node, round.kids, if last == Running then m - 1 else -1))
  }

  /** The node after the tick. Child `running` is as its tick left it and is remembered if no other was;
      all other children are Idle, halted if they were running. */
  ghost predicate ReactiveLeaves(n: Node, r: Node, kids: seq<Node>, running: int)
    requires |kids| <= |n.children|
  {
    r.status == Running && |r.children| == |n.children| &&
    r == n.(status := Running, children := r.children,
            memo := n.memo.(runningChild := if Remembered(n) == -1 then running else Remembered(n))) &&
    forall j | 0 <= j < |n.children| ::
      var c := if j < |kids| then kids[j] else n.children[j];
      if j == running then r.children[j] == c
      else r.children[j] == ResetChild(c) && r.children[j].status == Idle
  }

  /** A reactive fallback asks its children in order, all of them again in every tick, up to the first that
      succeeds or runs. That child's answer is its own; if there is none it skips when all skipped, and
      fails otherwise. It throws exactly when a child does, or when a second child runs where only one may. */
  lemma ReactiveAnswers(n: Node, w: World, t: Log) returns (m: nat)
    requires n.kind.ReactiveFallback?
    ensures ReactiveEnds(n, Tick(n, w, t), m, w, t)
  {
    var r := n.(status := Running, memo := n.memo.(runningChild := Remembered(n)));
    assert Tick(n, w, t) == ReactiveTick(n, w, t) == ReactiveLoop(r, n.children, 0, true, w, t);
    m := ReactiveFrom(n, r, 0, true, w, t, t);
  }

  /** The node when `i` children have been asked and none was decisive. */
  ghost predicate Searched(n: Node, r: Node, i: nat, allSkipped: bool, w: World, t0: Log, t: Log) {
    i <= |n.children| && |r.children| == |n.children| &&
    var round := Round(n.children, {}, i, w, t0);
    round.Asked? && t == round.log && (forall a | a in round.answers :: a == Failure || a == Skipped) &&
    (allSkipped <==> forall a | a in round.answers :: a == Skipped) &&
    r == n.(status := Running, memo := n.memo.(runningChild := Remembered(n)), children := r.children) &&
    (forall j | i <= j < |n.children| :: r.children[j] == n.children[j]) &&
    forall j | 0 <= j < i :: r.children[j] == round.kids[j] || r.children[j] == ResetChild(round.kids[j])
  }

  lemma {:induction false} ReactiveFrom(
    n: Node, r: Node, i: nat, allSkipped: bool, w: World, t0: Log, t: Log)
    returns (m: nat)
    requires n.kind.ReactiveFallback? && Searched(n, r, i, allSkipped, w, t0, t)
    ensures ReactiveEnds(n, ReactiveLoop(r, n.children, i, allSkipped, w, t), m, w, t0)
    decreases |n.children| - i
  {
    hide ExecuteTick, Searched, ReactiveEnds, ReactiveVisit, Round;
    var cs := n.children;
    SearchedMeans(n, r, i, allSkipped, w, t0, t);
    if i == |cs| {
      SearchEnds(n, r, allSkipped, w, t0, t);
      return i;
    }
    AnswerNotIdle(cs[i], w, Noted(cs[i], t));
    var o := ExecuteTick(cs[i], w, Noted(cs[i], t));
    if o.Threw? {
      SearchThrows(n, r, i, allSkipped, w, t0, t);
      return i + 1;
    }
    var r1 := r.(children := r.children[i := o.node]);
    if Decisive(o.answer) {
      SearchStops(n, r, i, allSkipped, w, t0, t);
      return i + 1;
    }
    SearchGoesOn(n, r, i, allSkipped, w, t0, t);
    m := ReactiveFrom(n, ReactiveVisit(r1, i, o.answer, w, o.log).node, i + 1, allSkipped && o.answer == Skipped, w, t0,
                      o.log);
  }

  lemma SearchedMeans(n: Node, r: Node, i: nat, allSkipped: bool, w: World, t0: Log, t: Log)
    requires n.kind.ReactiveFallback? && Searched(n, r, i, allSkipped, w, t0, t)
    ensures i <= |n.children| == |r.children| && r.kind == n.kind
  {
  }

  lemma SearchEnds(n: Node, r: Node, allSkipped: bool, w: World, t0: Log, t: Log)
    requires n.kind.ReactiveFallback? && Searched(n, r, |n.children|, allSkipped, w, t0, t)
    ensures ReactiveEnds(n, Done(r.(children := ResetAll(r.children)), if allSkipped then Skipped else Failure, t),
                         |n.children|, w, t0)
  {
    hide ExecuteTick, ResetChild, ResetAll, ReactiveLeaves;
    var count := |n.children|;
    var round := Round(n.children, {}, count, w, t0);
    LeavesAsleep(n, r, round.kids);
    if count > 0 {
      assert round.answers[count - 1] in round.answers;
      RoundFront(n.children, count, w, t0);
    }
  }

  /** Resetting all children, some of which have been reset before. */
  lemma LeavesAsleep(n: Node, r: Node, kids: seq<Node>)
    requires |kids| <= |n.children| == |r.children|
    requires r == n.(status := Running, memo := n.memo.(runningChild := Remembered(n)), children := r.children)
    requires forall j | 0 <= j < |n.children| ::
               var c := if j < |kids| then kids[j] else n.children[j];
               r.children[j] == c || r.children[j] == ResetChild(c)
    ensures ReactiveLeaves(n, r.(children := ResetAll(r.children)), kids, -1)
  {
    hide Halt;
  }

  lemma LeavesRunning(n: Node, r: Node, kids: seq<Node>, i: nat)
    requires i < |kids| <= |n.children| == |r.children| && r.children[i] == kids[i]
    requires r == n.(status := Running, memo := n.memo.(runningChild := Remembered(n)), children := r.children)
    requires forall j | 0 <= j < |n.children| ::
               var c := if j < |kids| then kids[j] else n.children[j];
               r.children[j] == c || r.children[j] == ResetChild(c)
    ensures var m := if Remembered(n) == -1 then i else Remembered(n);
            ReactiveLeaves(n, r.(children := ResetAll(r.children)[i := r.children[i]],
                                 memo := r.memo.(runningChild := m)), kids, i)
  {
    hide Halt;
  }

  /** A round is the round before it and one more child. */
  lemma RoundFront(cs: seq<Node>, m: nat, w: World, t: Log)
    requires 0 < m <= |cs|
    ensures var front, round := Round(cs, {}, m - 1, w, t), Round(cs, {}, m, w, t);
            (front.Broke? ==> round.Broke?) &&
            (front.Asked? ==>
              var o := ExecuteTick(cs[m - 1], w, Noted(cs[m - 1], front.log));
              round == if o.Threw? then Broke else Asked(front.answers + [o.answer], front.kids + [o.node], o.log))
    ensures var front, round := Round(cs, {}, m - 1, w, t), Round(cs, {}, m, w, t);
            round.Asked? ==> front.Asked? && forall a | a in front.answers :: a in round.answers
  {
    hide ExecuteTick;
  }

  lemma SearchThrows(n: Node, r: Node, i: nat, allSkipped: bool, w: World, t0: Log, t: Log)
    requires n.kind.ReactiveFallback? && Searched(n, r, i, allSkipped, w, t0, t) && i < |n.children|
    requires ExecuteTick(n.children[i], w, Noted(n.children[i], t)).Threw?
    ensures ReactiveEnds(n, Threw, i + 1, w, t0)
  {
    hide ExecuteTick, ReactiveLeaves;
    RoundFront(n.children, i + 1, w, t0);
  }

  lemma SearchStops(n: Node, r: Node, i: nat, allSkipped: bool, w: World, t0: Log, t: Log)
    requires n.kind.ReactiveFallback? && Searched(n, r, i, allSkipped, w, t0, t) && i < |n.children|
    requires var o := ExecuteTick(n.children[i], w, Noted(n.children[i], t)); o.Done? && Decisive(o.answer)
    ensures var o := ExecuteTick(n.children[i], w, Noted(n.children[i], t));
            var v := ReactiveVisit(r.(children := r.children[i := o.node]), i, o.answer, w, o.log);
            v.Stop? && ReactiveEnds(n, v.outcome, i + 1, w, t0)
  {
    hide ExecuteTick, ResetChild, ResetAll, ReactiveLeaves, Round;
    var o := ExecuteTick(n.children[i], w, Noted(n.children[i], t));
    var r1 := r.(children := r.children[i := o.node]);
    RoundFront(n.children, i + 1, w, t0);
    var kids := Round(n.children, {}, i + 1, w, t0).kids;
    if o.answer == Running {
      LeavesRunning(n, r1, kids, i);
    } else {
      LeavesAsleep(n, r1, kids);
    }
  }

  lemma SearchGoesOn(n: Node, r: Node, i: nat, allSkipped: bool, w: World, t0: Log, t: Log)
    requires n.kind.ReactiveFallback? && Searched(n, r, i, allSkipped, w, t0, t) && i < |n.children|
    requires var o := ExecuteTick(n.children[i], w, Noted(n.children[i], t));
             o.Done? && (o.answer == Failure || o.answer == Skipped)
    ensures var o := ExecuteTick(n.children[i], w, Noted(n.children[i], t));
            var v := ReactiveVisit(r.(children := r.children[i := o.node]), i, o.answer, w, o.log);
            v.Next? && Searched(n, v.node, i + 1, allSkipped && o.answer == Skipped, w, t0, o.log)
  {
    hide ExecuteTick, Halt, Round;
    RoundFront(n.children, i + 1, w, t0);
    var front, round := Round(n.children, {}, i, w, t0), Round(n.children, {}, i + 1, w, t0);
    var o := ExecuteTick(n.children[i], w, Noted(n.children[i], t));
    assert round.answers == front.answers + [o.answer] && round.kids == front.kids + [o.node];
    assert round.answers[i] in round.answers && forall a | a in front.answers :: a in round.answers;
    assert forall a | a in round.answers :: a in front.answers || a == o.answer;
    assert (forall a | a in round.answers :: a == Skipped) <==> allSkipped && o.answer == Skipped;
  }
}
