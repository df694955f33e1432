/** Exactly which conditions of a WhileDoElse spoil the restart of a tree: those that a script can complete
    while they remember an earlier run. */
module StaleConditions {
  import opened NodeTypes
  import opened TickModel
  import opened Quiescence
  import opened Alike
  import opened Restart

  /** Whatever the first run does, a second one gives the same verdict after the same events as in the tree
      as built, and leaves an alike tree. */
  ghost predicate RestartsCleanly(n: Node, single: bool) {
    forall opt, w: World, t: Log, fuel, opt2, w2: World, t2: Log, fuel2 | w.singleRunning == single &&
      w2.singleRunning == single ::
      RestartsLike(n, opt, w, t, fuel, opt2, w2, t2, fuel2)
  }

  ghost predicate RestartsLike(
    n: Node, opt: TickOption, w: World, t: Log, fuel: nat, opt2: TickOption, w2: World, t2: Log, fuel2: nat)
  {
    var r := TickRoot(opt, n, w, t, fuel);
    r.Returned? && IsCompleted(r.answer) ==>
      SameVerdict(TickRoot(opt2, r.root, w2, t2, fuel2), TickRoot(opt2, n, w2, t2, fuel2), Root(w2.singleRunning))
  }

  function LeafNode(uid: nat): Node {
    NewNode(uid, Leaf, [])
  }

  function Leaves(count: nat): seq<Node> {
    seq(count, i requires 0 <= i < count => LeafNode(i + 4))
  }

  /** A condition with scripts over `count` leaves, with the numbers from 4 on. */
  function Condition(k: Kind, pre: PreConditions, count: nat): Node {
    Node(1, k, pre, Idle, BLANK, Leaves(count))
  }

  /** A WhileDoElse with that condition, with or without an else-branch. */
  function Guarded(condition: Node, hasElse: bool): Node {
    NewNode(0, WhileDoElse, [condition, LeafNode(2)] + if hasElse then [LeafNode(3)] else [])
  }

  /** The trees that restart cleanly are those in which no script can answer for a stale condition. */
  lemma RestartIsSteady(k: Kind, pre: PreConditions, count: nat, hasElse: bool, single: bool)
    requires k.Fallback? || k.ReactiveFallback?
    ensures var tree := Guarded(Condition(k, pre, count), hasElse);
            RestartsCleanly(tree, single) <==> Steady(tree, Root(single))
    ensures var tree := Guarded(Condition(k, pre, count), hasElse);
            Steady(tree, Root(single)) <==>
              count < 2 || (k.ReactiveFallback? && !single) || (!pre.successIf && (hasElse ==> !pre.failureIf))
  {
    hide TickRoot, SameVerdict, Like;
    var tree := Guarded(Condition(k, pre, count), hasElse);
    GuardedIsSteady(k, pre, count, hasElse, single);
    if Steady(tree, Root(single)) {
      GuardedIsFresh(k, pre, count, hasElse);
      forall opt, w: World, t: Log, fuel, opt2, w2: World, t2: Log, fuel2 | w.singleRunning == single &&
        w2.singleRunning == single
        ensures RestartsLike(tree, opt, w, t, fuel, opt2, w2, t2, fuel2)
      {
        SecondRunLikeFirst(opt, tree, w, t, fuel, opt2, w2, t2, fuel2);
      }
    } else {
      var answer := if hasElse && pre.failureIf then Failure else Success;
      if k.Fallback? {
        SecondRunMiscounts(k, pre, count, hasElse, answer, single);
      } else {
        SecondRunThrows(pre, count, hasElse, answer);
      }
    }
  }

  /** Can a script give this answer for the condition, so that the loop goes on? */
  predicate CanAnswer(pre: PreConditions, hasElse: bool, answer: Status) {
    (answer == Failure && pre.failureIf && hasElse) || (answer == Success && pre.successIf)
  }

  /** A run of the tree as built leaves a skipped leaf counted. In the next run a script answers for the
      condition, and when it is asked again one leaf fails and the others skip: with the old count it is
      skipped, which the loop does not allow; the tree as built does not throw. */
  lemma SecondRunMiscounts(k: Kind, pre: PreConditions, count: nat, hasElse: bool, answer: Status, single: bool)
    requires k.Fallback? && count >= 2 && CanAnswer(pre, hasElse, answer)
    ensures var tree := Guarded(Condition(k, pre, count), hasElse);
            var r := TickRoot(WhileRunning, tree, FirstWorld(single), [], 1);
            var w := SecondWorld(answer, Failure, single);
            r.Returned? && r.answer == Success &&
            TickRoot(WhileRunning, r.root, w, [], 2) == RootThrew &&
            TickRoot(WhileRunning, tree, w, [], 2) != RootThrew &&
            !RestartsLike(tree, WhileRunning, FirstWorld(single), [], 1, WhileRunning, w, [], 2)
  {
    hide TickRoot, Guarded, FirstWorld, SecondWorld, Like;
    var c := Condition(k, pre, count);
    FirstRunOfFallback(k, pre, count, hasElse, single);
    FallbackSpoils(c, 0, answer, hasElse, single);
    FallbackSpoils(c, 1, answer, hasElse, single);
    assert c.(memo := BLANK.(skipped := 0)) == c;
  }

  /** Likewise a reactive fallback remembers which child ran last, and takes the first child that runs in
      the next run for a second one. */
  lemma SecondRunThrows(pre: PreConditions, count: nat, hasElse: bool, answer: Status)
    requires count >= 2 && CanAnswer(pre, hasElse, answer)
    ensures var tree := Guarded(Condition(ReactiveFallback, pre, count), hasElse);
            var r := TickRoot(WhileRunning, tree, REACTIVE_WORLD, [], 2);
            var w := SecondWorld(answer, Running, true);
            r.Returned? && r.answer == Success &&
            TickRoot(WhileRunning, r.root, w, [], 2) == RootThrew &&
            TickRoot(WhileRunning, tree, w, [], 2) != RootThrew &&
            !RestartsLike(tree, WhileRunning, REACTIVE_WORLD, [], 2, WhileRunning, w, [], 2)
  {
    hide TickRoot, Guarded, REACTIVE_WORLD, SecondWorld, Like;
    var c := Condition(ReactiveFallback, pre, count);
    FirstRunOfReactive(pre, count, hasElse);
    ReactiveSpoils(c, -1, answer, hasElse);
    ReactiveSpoils(c, 1, answer, hasElse);
    assert c.(memo := BLANK.(runningChild := -1)) == c;
  }

  lemma GuardedIsSteady(k: Kind, pre: PreConditions, count: nat, hasElse: bool, single: bool)
    requires k.Fallback? || k.ReactiveFallback?
    ensures var tree := Guarded(Condition(k, pre, count), hasElse);
            Steady(tree, Root(single)) <==>
              count < 2 || (k.ReactiveFallback? && !single) || (!pre.successIf && (hasElse ==> !pre.failureIf))
  {
    var c := Condition(k, pre, count);
    var tree := Guarded(c, hasElse);
    assert tree.children[0] == c && tree.children[1] == LeafNode(2) && (hasElse ==> tree.children[2] == LeafNode(3));
    forall uid, v: View ensures Steady(LeafNode(uid), v) {
    }
    var v := Below(Root(single), WhileDoElse, |tree.children|, 0);
    assert Steady(c, v) <==> SteadyNode(c, v);
  }

  lemma GuardedIsFresh(k: Kind, pre: PreConditions, count: nat, hasElse: bool)
    requires k.Fallback? || k.ReactiveFallback?
    ensures var tree := Guarded(Condition(k, pre, count), hasElse);
            Tame(tree) && Settled(tree) && Quiet(tree) && Fresh(tree) == tree
  {
    var c := Condition(k, pre, count);
    var tree := Guarded(c, hasElse);
    forall uid: nat ensures Fresh(LeafNode(uid)) == LeafNode(uid) && Tame(LeafNode(uid)) {
      assert FreshKids([]) == [];
    }
    assert FreshKids(Leaves(count)) == Leaves(count);
    assert Fresh(c) == c;
    assert forall i | 0 <= i < |tree.children| :: Fresh(tree.children[i]) == tree.children[i];
    assert FreshKids(tree.children) == tree.children;
    assert forall i | 0 <= i < count :: Tame(Leaves(count)[i]);
    assert Tame(c);
    NewTreeIsQuiet(tree);
  }

  // ---------------------------------------------------------------- scripts

  /** Was script `index` of a node the last to be run? */
  predicate JustRan(l: Log, index: nat) {
    l != [] && l[|l| - 1].Script? && l[|l| - 1].index == index
  }

  /** Only the scripts with that index hold. */
  ghost predicate OnlyHolds(w: World, index: nat) {
    forall l: Log :: w.reply(l).holds <==> JustRan(l, index)
  }

  /** If the while-conditions hold and no other, every node is ticked; scripts are all that is run before. */
  lemma {:induction false} ScriptsPass(uid: nat, pre: PreConditions, s: Status, index: nat, w: World, t: Log)
    requires index <= 4 && OnlyHolds(w, 3)
    ensures var c := CheckFrom(uid, pre, s, index, w, t);
            c.Proceed? && (Listened in c.log <==> Listened in t)
    decreases 4 - index
  {
    if index < 4 {
      ScriptsPass(uid, pre, s, index + 1, w, t);
      ScriptsPass(uid, pre, s, index + 1, w, t + [Script(uid, index)]);
    }
  }

  /** A node that stores a completed status is not asked about its scripts. */
  lemma {:induction false} CompletedUnchecked(uid: nat, pre: PreConditions, s: Status, index: nat, w: World, t: Log)
    requires index <= 4 && IsCompleted(s)
    ensures CheckFrom(uid, pre, s, index, w, t) == Proceed(t)
    decreases 4 - index
  {
    if index < 4 {
      CompletedUnchecked(uid, pre, s, index + 1, w, t);
    }
  }

  // ---------------------------------------------------------------- what a first run leaves behind

  /** The first leaf of the condition skips; everything else succeeds. */
  function FirstWorld(single: bool): World {
    World((l: Log) => Reply(if JustTicked(l, 4) then Skipped else Success, JustRan(l, 3)), false, single)
  }

  /** A tick with that answer, and what is left of the node. */
  predicate Gives(o: Outcome, n: Node, answer: Status) {
    o.Done? && o.node == n && o.answer == answer
  }

  predicate Gave(r: RootOutcome, n: Node, answer: Status) {
    r.Returned? && r.root == n && r.answer == answer
  }

  lemma FirstRunOfFallback(k: Kind, pre: PreConditions, count: nat, hasElse: bool, single: bool)
    requires k.Fallback? && count >= 2
    ensures var c := Condition(k, pre, count);
            Gave(TickRoot(WhileRunning, Guarded(c, hasElse), FirstWorld(single), [], 1),
                 Guarded(c.(memo := BLANK.(skipped := 1)), hasElse), Success)
  {
    hide ExecuteTick, TickRoot, Tick, Guarded;
    var c, w := Condition(k, pre, count), FirstWorld(single);
    var tree := Guarded(c, hasElse);
    var t := Noted(c, Noted(tree, []));
    ScriptsPass(1, pre, Idle, 0, w, t);
    Proceeds(c, w, t);
    SkipThenSucceed(c.(status := Running), w, CheckFrom(1, pre, Idle, 0, w, t).log);
    var c1 := c.(status := Success, memo := BLANK.(skipped := 1));
    assert Gives(ExecuteTick(c, w, t), c1, Success);
    GuardedIdle(c, hasElse);
    GuardedIdle(c1.(status := Idle), hasElse);
    GuardSucceeds(c, c1, hasElse, Idle, w, Noted(tree, []));
    SucceedsAtOnce(tree, Guarded(c1.(status := Idle), hasElse).(status := Success), w, []);
  }

  lemma GuardedIdle(c: Node, hasElse: bool)
    ensures Guarded(c, hasElse).status == Idle && Guarded(c, hasElse).(status := Idle) == Guarded(c, hasElse)
  {
  }

  lemma SucceedsAtOnce(n: Node, n1: Node, w: World, t: Log)
    requires Gives(ExecuteTick(n, w, Noted(n, t)), n1, Success)
    ensures Gave(TickRoot(WhileRunning, n, w, t, 1), n1.(status := Idle), Success)
  {
  }

  lemma SucceedsNext(n: Node, n1: Node, n2: Node, w: World, t: Log)
    requires Gives(ExecuteTick(n, w, Noted(n, t)), n1, Running)
    requires Gives(ExecuteTick(n1, w, Noted(n1, ExecuteTick(n, w, Noted(n, t)).log + [Listened])), n2, Success)
    ensures Gave(TickRoot(WhileRunning, n, w, t, 2), n2.(status := Idle), Success)
  {
    hide ExecuteTick;
    SucceedsAtOnce(n1, n2, w, ExecuteTick(n, w, Noted(n, t)).log + [Listened]);
  }

  lemma SkipThenSucceed(n: Node, w: World, t: Log)
    requires n.kind.Fallback? && |n.children| >= 2 && n.children == Leaves(|n.children|) && n.memo == BLANK
    requires w.reply(t + [Ticked(4)]).answer == Skipped && w.reply(t + [Ticked(4)] + [Ticked(5)]).answer == Success
    ensures Gives(FallbackLoop(n, n.children, w, t), n.(memo := BLANK.(skipped := 1)), Success)
  {
    hide ExecuteTick;
    var cs := n.children;
    var t1 := t + [Ticked(4)];
    PlainProceeds(cs[0], w, t1);
    PlainProceeds(cs[1], w, t1 + [Ticked(5)]);
    assert cs[0] == LeafNode(4) && cs[1] == LeafNode(5) && cs[0 := cs[0]] == cs;
    var n1 := n.(memo := BLANK.(idx := 1, skipped := 1));
    assert FallbackLoop(n, cs, w, t) == FallbackLoop(n1, cs, w, t1);
    LeavesReset(cs, 1, Success);
  }

  /** Resetting leaves of which one has been ticked. */
  lemma LeavesReset(cs: seq<Node>, i: nat, s: Status)
    requires cs == Leaves(|cs|) && i < |cs| && IsCompleted(s)
    ensures ResetAll(cs[i := cs[i].(status := s)]) == cs
  {
  }

  /** Condition and branch succeed, and with them the loop. */
  lemma GuardSucceeds(c: Node, c1: Node, hasElse: bool, s: Status, w: World, t: Log)
    requires Gives(ExecuteTick(c, w, Noted(c, t)), c1, Success) && c1.status == Success
    requires w.reply(Noted(LeafNode(2), ExecuteTick(c, w, Noted(c, t)).log)).answer == Success
    ensures Gives(ExecuteTick(Guarded(c, hasElse).(status := s), w, t),
                  Guarded(c1.(status := Idle), hasElse).(status := Success), Success)
  {
    hide ExecuteTick;
    var n := Guarded(c, hasElse).(status := s);
    var cs := n.children;
    GuardTicks(n, w, t);
    PlainProceeds(cs[1], w, Noted(cs[1], ExecuteTick(c, w, Noted(c, t)).log));
    assert cs[0] == c && cs[1] == LeafNode(2) && (hasElse ==> cs[2] == LeafNode(3) == ResetChild(cs[2]));
    var n1 := n.(status := Running, children := cs[0 := c1]);
    var n2 := if |cs| == 3 then n1.(children := n1.children[2 := ResetChild(cs[2])]) else n1;
    assert n2.children == cs[0 := c1];
    assert ResetAll(n2.children[1 := cs[1].(status := Success)]) == Guarded(c1.(status := Idle), hasElse).children;
  }

  lemma GuardTicks(n: Node, w: World, t: Log)
    requires n.kind.WhileDoElse? && n.pre.None()
    ensures ExecuteTick(n, w, t) == Finish(StoreOutcome(WhileTick(n, w, t)))
  {
    PlainProceeds(n, w, t);
  }

  /** The condition skips a leaf and runs the next one, which succeeds in the second tick. */
  const REACTIVE_WORLD: World :=
    World((l: Log) =>
      Reply(if JustTicked(l, 4) then Skipped else if JustTicked(l, 5) && Listened !in l then Running else Success,
            JustRan(l, 3)), false, true)

  lemma FirstRunOfReactive(pre: PreConditions, count: nat, hasElse: bool)
    requires count >= 2
    ensures var c := Condition(ReactiveFallback, pre, count);
            Gave(TickRoot(WhileRunning, Guarded(c, hasElse), REACTIVE_WORLD, [], 2),
                 Guarded(c.(memo := BLANK.(runningChild := 1)), hasElse), Success)
  {
    hide ExecuteTick, TickRoot, Guarded;
    var c, w := Condition(ReactiveFallback, pre, count), REACTIVE_WORLD;
    var tree := Guarded(c, hasElse);
    GuardedIdle(c, hasElse);
    var t := Noted(tree, []);
    var c1 := c.(status := Running, memo := BLANK.(runningChild := 1),
                 children := c.children[1 := LeafNode(5).(status := Running)]);
    var c2 := c.(status := Success, memo := BLANK.(runningChild := 1));
    SecondLeafRuns(c, w, Noted(c, t));
    GuardRuns(c, c1, hasElse, w, t);
    var n1 := Guarded(c1, hasElse).(status := Running);
    GuardedIdle(c1, hasElse);
    var t1 := Noted(n1, ExecuteTick(tree, w, t).log + [Listened]);
    SecondLeafSucceeds(c, w, Noted(c1, t1));
    GuardSucceeds(c1, c2, hasElse, Running, w, t1);
    SucceedsNext(tree, n1, Guarded(c2.(status := Idle), hasElse).(status := Success), w, []);
    GuardedIdle(c2.(status := Idle), hasElse);
  }

  lemma SecondLeafRuns(c: Node, w: World, t: Log)
    requires |c.children| >= 2 && c == Condition(ReactiveFallback, c.pre, |c.children|)
    requires w == REACTIVE_WORLD && Listened !in t
    ensures Gives(ExecuteTick(c, w, t), c.(status := Running, memo := BLANK.(runningChild := 1),
                                           children := c.children[1 := LeafNode(5).(status := Running)]), Running)
  {
    hide ExecuteTick;
    var cs := c.children;
    ScriptsPass(c.uid, c.pre, Idle, 0, w, t);
    ReactiveTicks(c, w, t);
    var t0 := CheckFrom(c.uid, c.pre, Idle, 0, w, t).log;
    var t1 := t0 + [Ticked(4)];
    PlainProceeds(cs[0], w, t1);
    PlainProceeds(cs[1], w, t1 + [Ticked(5)]);
    assert cs[0] == LeafNode(4) && cs[1] == LeafNode(5) && cs[0 := cs[0]] == cs;
    var n := c.(status := Running);
    assert ReactiveLoop(n, cs, 0, true, w, t0) == ReactiveLoop(n, cs, 1, true, w, t1);
    var running := cs[1 := cs[1].(status := Running)];
    assert ResetAll(running)[1 := running[1]] == running;
  }

  lemma ReactiveTicks(n: Node, w: World, t: Log)
    requires n.kind.ReactiveFallback? && CheckFrom(n.uid, n.pre, n.status, 0, w, t).Proceed?
    ensures ExecuteTick(n, w, t) ==
            Finish(StoreOutcome(ReactiveTick(n, w, CheckFrom(n.uid, n.pre, n.status, 0, w, t).log)))
  {
    hide CheckFrom, ReactiveTick;
  }

  lemma SecondLeafSucceeds(c: Node, w: World, t: Log)
    requires |c.children| >= 2 && c == Condition(ReactiveFallback, c.pre, |c.children|)
    requires w == REACTIVE_WORLD && Listened in t
    ensures var c1 := c.(status := Running, memo := BLANK.(runningChild := 1),
                         children := c.children[1 := LeafNode(5).(status := Running)]);
            Gives(ExecuteTick(c1, w, t), c.(status := Success, memo := BLANK.(runningChild := 1)), Success)
  {
    hide ExecuteTick;
    var c1 := c.(status := Running, memo := BLANK.(runningChild := 1),
                 children := c.children[1 := LeafNode(5).(status := Running)]);
    var cs := c1.children;
    ScriptsPass(c.uid, c.pre, Running, 0, w, t);
    ReactiveTicks(c1, w, t);
    var t0 := CheckFrom(c.uid, c.pre, Running, 0, w, t).log;
    var t1 := t0 + [Ticked(4)];
    PlainProceeds(cs[0], w, t1);
    PlainProceeds(cs[1], w, t1 + [Ticked(5)]);
    assert cs[0] == LeafNode(4) && cs[0 := cs[0]] == cs;
    assert ReactiveLoop(c1, cs, 0, true, w, t0) == ReactiveLoop(c1, cs, 1, true, w, t1);
    assert cs[1 := cs[1].(status := Success)] == c.children[1 := c.children[1].(status := Success)];
    LeavesReset(c.children, 1, Success);
  }

  lemma GuardRuns(c: Node, c1: Node, hasElse: bool, w: World, t: Log)
    requires Gives(ExecuteTick(c, w, Noted(c, t)), c1, Running)
    ensures Gives(ExecuteTick(Guarded(c, hasElse), w, t), Guarded(c1, hasElse).(status := Running), Running)
  {
    hide ExecuteTick;
    var n := Guarded(c, hasElse);
    GuardTicks(n, w, t);
    assert n.children[0] == c;
    assert n.children[0 := c1] == Guarded(c1, hasElse).children;
  }

  // ---------------------------------------------------------------- the second run

  /** A script gives the answer for the condition, and the branches run. The first leaf fails (or, to spoil a
      reactive fallback, runs), and the other leaves skip. */
  function SecondWorld(answer: Status, first: Status, single: bool): World {
    World((l: Log) =>
      Reply(if JustTicked(l, 4) then first
            else if l != [] && l[|l| - 1].Ticked? && l[|l| - 1].uid > 4 then Skipped
            else Running, JustRan(l, ScriptFor(answer))), false, single)
  }

  function ScriptFor(answer: Status): nat {
    if answer == Failure then 0 else 1
  }

  lemma ScriptAnswers(c: Node, answer: Status, w: World, t: Log)
    requires c.status == Idle && !c.kind.Decorator? && OnlyHolds(w, ScriptFor(answer))
    requires (answer == Failure && c.pre.failureIf) || (answer == Success && c.pre.successIf)
    ensures Gives(ExecuteTick(c, w, t), c.(status := answer), answer)
  {
    hide Tick;
    if answer == Success {
      assert CheckFrom(c.uid, c.pre, Idle, 0, w, t) ==
             CheckFrom(c.uid, c.pre, Idle, 1, w, if c.pre.failureIf then t + [Script(c.uid, 0)] else t);
    }
  }

  /** The loop while its branch runs. */
  function Busy(c: Node, answer: Status, hasElse: bool): Node {
    var go, other := LeafNode(2), LeafNode(3);
    NewNode(0, WhileDoElse, [c.(status := answer), if answer == Success then go.(status := Running) else go] +
      if hasElse then [if answer == Success then other else other.(status := Running)] else []).(status := Running)
  }

  ghost predicate BranchesRun(w: World) {
    forall l: Log :: JustTicked(l, 2) || JustTicked(l, 3) ==> w.reply(l).answer == Running
  }

  lemma BranchRuns(c: Node, answer: Status, hasElse: bool, w: World, t: Log)
    requires (answer == Success || (answer == Failure && hasElse)) && BranchesRun(w)
    requires Gives(ExecuteTick(c, w, Noted(c, t)), c.(status := answer), answer)
    ensures Gives(ExecuteTick(Guarded(c, hasElse), w, t), Busy(c, answer, hasElse), Running)
  {
    hide ExecuteTick;
    var n := Guarded(c, hasElse);
    var cs := n.children;
    var t1 := ExecuteTick(c, w, Noted(c, t)).log;
    GuardTicks(n, w, t);
    assert cs[0] == c && cs[1] == LeafNode(2) && (hasElse ==> cs[2] == LeafNode(3));
    assert ResetChild(cs[1]) == cs[1] && (hasElse ==> ResetChild(cs[2]) == cs[2]);
    var n1 := n.(status := Running, children := cs[0 := c.(status := answer)]);
    if answer == Success {
      PlainProceeds(cs[1], w, Noted(cs[1], t1));
      var n2 := if |cs| == 3 then n1.(children := n1.children[2 := ResetChild(cs[2])]) else n1;
      assert n2.children[1 := cs[1].(status := Running)] == Busy(c, answer, hasElse).children;
    } else {
      PlainProceeds(cs[2], w, Noted(cs[2], t1));
      var n2 := n1.(children := n1.children[1 := ResetChild(cs[1])]);
      assert n2.children[2 := cs[2].(status := Running)] == Busy(c, answer, hasElse).children;
    }
  }

  /** Does the condition throw or skip, or does it let the loop go on? */
  predicate Refuses(o: Outcome) {
    o.Threw? || o.answer == Skipped
  }

  predicate LetsGoOn(o: Outcome) {
    o.Done? && (o.answer == Running || o.answer == Failure)
  }

  /** The condition is asked again. */
  lemma AskedAgain(c: Node, answer: Status, hasElse: bool, w: World, t: Log)
    requires IsCompleted(answer) && BranchesRun(w)
    ensures var o, r := ExecuteTick(c.(status := answer), w, Noted(c, t)), ExecuteTick(Busy(c, answer, hasElse), w, t);
            (Refuses(o) ==> r.Threw?) && (LetsGoOn(o) ==> r.Done?)
  {
    hide ExecuteTick, ResetAll;
    var n := Busy(c, answer, hasElse);
    var cs := n.children;
    GuardTicks(n, w, t);
    assert cs[0] == c.(status := answer) && Noted(cs[0], t) == Noted(c, t);
    var o := ExecuteTick(cs[0], w, Noted(cs[0], t));
    if o.Done? && o.answer == Failure && hasElse {
      PlainProceeds(cs[2], w, Noted(cs[2], o.log));
    }
  }

  lemma SecondRun(c: Node, answer: Status, hasElse: bool, w: World, refuses: bool)
    requires (answer == Success || (answer == Failure && hasElse)) && BranchesRun(w)
    requires forall t: Log :: Gives(ExecuteTick(c, w, t), c.(status := answer), answer)
    requires forall t: Log :: var o := ExecuteTick(c.(status := answer), w, t);
             if refuses then Refuses(o) else LetsGoOn(o)
    ensures TickRoot(WhileRunning, Guarded(c, hasElse), w, [], 2) == RootThrew <==> refuses
  {
    hide ExecuteTick, Guarded, Busy;
    var tree, busy := Guarded(c, hasElse), Busy(c, answer, hasElse);
    BranchRuns(c, answer, hasElse, w, Noted(tree, []));
    var t := ExecuteTick(tree, w, Noted(tree, [])).log + [Listened];
    AskedAgain(c, answer, hasElse, w, Noted(busy, t));
    assert TickRoot(WhileRunning, tree, w, [], 2) == TickRoot(WhileRunning, busy, w, t, 1);
    var o := ExecuteTick(busy, w, Noted(busy, t));
    assert o.Done? ==> TickRoot(WhileRunning, o.node, w, o.log + [Listened], 0) == StillRunning;
  }

  // ---------------------------------------------------------------- the stale memory shows

  lemma {:induction false} OthersSkip(n: Node, cs: seq<Node>, w: World, t: Log)
    requires n.kind.Fallback? && |n.children| == |cs| && 1 <= n.memo.idx <= |cs| && cs == Leaves(|cs|)
    requires forall l: Log, uid | uid > 4 && JustTicked(l, uid) :: w.reply(l).answer == Skipped
    ensures var o := FallbackLoop(n, cs, w, t);
            o.Done? && o.answer == if n.memo.skipped + |cs| - n.memo.idx == |cs| then Skipped else Failure
    decreases |cs| - n.memo.idx
  {
    hide ExecuteTick;
    var i := n.memo.idx;
    if i < |cs| {
      var t1 := Noted(cs[i], t);
      assert cs[i] == LeafNode(i + 4) && JustTicked(t1, i + 4);
      PlainProceeds(cs[i], w, t1);
      OthersSkip(n.(children := n.children[i := cs[i]],
                    memo := n.memo.(idx := i + 1, skipped := n.memo.skipped + 1)), cs, w, t1);
    }
  }

  lemma FallbackSpoils(c: Node, stale: nat, answer: Status, hasElse: bool, single: bool)
    requires c.kind.Fallback? && |c.children| >= 2 && c == Condition(c.kind, c.pre, |c.children|) && stale <= 1
    requires CanAnswer(c.pre, hasElse, answer)
    ensures var n := Guarded(c.(memo := BLANK.(skipped := stale)), hasElse);
            TickRoot(WhileRunning, n, SecondWorld(answer, Failure, single), [], 2) == RootThrew <==> stale == 1
  {
    hide ExecuteTick, TickRoot, Guarded;
    var d, w := c.(memo := BLANK.(skipped := stale)), SecondWorld(answer, Failure, single);
    forall t: Log
      ensures Gives(ExecuteTick(d, w, t), d.(status := answer), answer)
      ensures var o := ExecuteTick(d.(status := answer), w, t); if stale == 1 then Refuses(o) else LetsGoOn(o)
    {
      ScriptAnswers(d, answer, w, t);
      CountsAgain(c, stale, answer, w, t);
    }
    SecondRun(d, answer, hasElse, w, stale == 1);
  }

  /** The first leaf fails and the others skip. */
  lemma CountsAgain(c: Node, stale: nat, answer: Status, w: World, t: Log)
    requires c.kind.Fallback? && |c.children| >= 2 && c == Condition(c.kind, c.pre, |c.children|) && stale <= 1
    requires IsCompleted(answer) && w.reply(t + [Ticked(4)]).answer == Failure && !w.wakeUp
    requires forall l: Log, uid | uid > 4 && JustTicked(l, uid) :: w.reply(l).answer == Skipped
    ensures var o := ExecuteTick(c.(status := answer, memo := BLANK.(skipped := stale)), w, t);
            if stale == 1 then Refuses(o) else LetsGoOn(o)
  {
    hide ExecuteTick, Tick;
    var again := c.(status := answer, memo := BLANK.(skipped := stale));
    var cs, t1 := c.children, t + [Ticked(4)];
    CompletedUnchecked(c.uid, c.pre, answer, 0, w, t);
    Proceeds(again, w, t);
    PlainProceeds(cs[0], w, t1);
    assert cs == Leaves(|cs|) && cs[0] == LeafNode(4);
    var n := again.(status := Running);
    var n1 := n.(children := cs[0 := cs[0].(status := Failure)], memo := n.memo.(idx := 1));
    assert FallbackLoop(n, cs, w, t) == FallbackLoop(n1, cs, w, t1);
    OthersSkip(n1, cs, w, t1);
  }

  lemma ReactiveSpoils(c: Node, stale: int, answer: Status, hasElse: bool)
    requires c.kind.ReactiveFallback? && |c.children| >= 2 && c == Condition(c.kind, c.pre, |c.children|)
    requires (stale == -1 || stale == 1) && CanAnswer(c.pre, hasElse, answer)
    ensures var n := Guarded(c.(memo := BLANK.(runningChild := stale)), hasElse);
            TickRoot(WhileRunning, n, SecondWorld(answer, Running, true), [], 2) == RootThrew <==> stale == 1
  {
    hide ExecuteTick, TickRoot, Guarded;
    var d, w := c.(memo := BLANK.(runningChild := stale)), SecondWorld(answer, Running, true);
    forall t: Log
      ensures Gives(ExecuteTick(d, w, t), d.(status := answer), answer)
      ensures var o := ExecuteTick(d.(status := answer), w, t); if stale == 1 then Refuses(o) else LetsGoOn(o)
    {
      ScriptAnswers(d, answer, w, t);
      RunsAgain(c, stale, answer, w, t);
    }
    SecondRun(d, answer, hasElse, w, stale == 1);
  }

  /** The first leaf runs. */
  lemma RunsAgain(c: Node, stale: int, answer: Status, w: World, t: Log)
    requires c.kind.ReactiveFallback? && |c.children| >= 2 && c == Condition(c.kind, c.pre, |c.children|)
    requires (stale == -1 || stale == 1) && IsCompleted(answer) && w.singleRunning
    requires w.reply(t + [Ticked(4)]).answer == Running
    ensures var o := ExecuteTick(c.(status := answer, memo := BLANK.(runningChild := stale)), w, t);
            if stale == 1 then Refuses(o) else LetsGoOn(o)
  {
    hide ExecuteTick;
    var again := c.(status := answer, memo := BLANK.(runningChild := stale));
    var cs, t1 := c.children, t + [Ticked(4)];
    CompletedUnchecked(c.uid, c.pre, answer, 0, w, t);
    ReactiveTicks(again, w, t);
    PlainProceeds(cs[0], w, t1);
    assert cs == Leaves(|cs|) && cs[0] == LeafNode(4);
    var n := again.(status := Running);
    assert ReactiveLoop(n, cs, 0, true, w, t) ==
           ReactiveRunning(n.(children := cs[0 := cs[0].(status := Running)]), 0, w, t1);
  }
}
