/** Trees that no later tick can tell apart. A bisimulation: alike trees tick the same nodes in the same
    order, give the same answers, and stay alike. */
module Alike {
  import opened NodeTypes
  import opened TickModel
  import opened Quiescence

  /** What it takes to notice a stale memory of a node: the completed statuses with which the node may
      be ticked, and whether a second running child of a reactive fallback is an error. */
  datatype View = View(exposed: set<Status>, single: bool)

  /** Only a condition is asked again while it stores its answer: that of a WhileDoElse, unless the answer
      ended the tick, and that of an IfThenElse without an else-branch. */
  function Exposed(k: Kind, count: nat, i: nat): (r: set<Status>)
    ensures r <= {Success, Failure}
  {
    if i != 0 then {}
    else if k.WhileDoElse? then (if count == 3 then {Success, Failure} else {Success})
    else if k.IfThenElse? && count == 2 then {Failure}
    else {}
  }

  function Below(v: View, k: Kind, count: nat, i: nat): View {
    View(Exposed(k, count, i), v.single)
  }

  /** The root is reset to Idle when it has completed. */
  function Root(single: bool): View {
    View({}, single)
  }

  // ---------------------------------------------------------------- nothing completed is asked again

  /** The children of a node that may store a completed status between ticks. */
  predicate Rests(n: Node, i: nat) {
    match n.kind
    case Fallback(_) => i < n.memo.idx
    case Parallel(_, _) => i in n.memo.completed
    case ParallelAll(_) => i in n.memo.completed
    case IfThenElse => i == 0 && n.memo.idx > 0
    case _ => false
  }

  ghost predicate PromptNode(n: Node) {
    Askable(n, n.children)
  }

  /** Children that store a completed status are at rest, or are conditions exposed with it. */
  ghost predicate Askable(n: Node, cs: seq<Node>) {
    forall i | 0 <= i < |cs| && IsCompleted(cs[i].status) ::
      Rests(n, i) || cs[i].status in Exposed(n.kind, |cs|, i)
  }

  /** An invariant of every reachable tree, whatever its shape. */
  ghost predicate Prompt(n: Node) {
    PromptNode(n) && forall i | 0 <= i < |n.children| :: Prompt(n.children[i])
  }

  ghost predicate PromptKids(cs: seq<Node>) {
    forall i | 0 <= i < |cs| :: Prompt(cs[i])
  }

  lemma {:induction false} IdleIsPrompt(n: Node)
    requires AllIdle(n)
    ensures Prompt(n)
  {
    forall i | 0 <= i < |n.children| ensures Prompt(n.children[i]) {
      IdleIsPrompt(n.children[i]);
    }
  }

  lemma {:induction false} HaltPrompt(n: Node)
    requires Prompt(n)
    ensures Prompt(Halt(n)) && Prompt(ResetChild(n))
    decreases n, 1
  {
    ResetAllPrompt(n.children);
  }

  lemma {:induction false} ResetAllPrompt(cs: seq<Node>)
    requires PromptKids(cs)
    ensures PromptKids(ResetAll(cs)) && forall i | 0 <= i < |cs| :: ResetAll(cs)[i].status == Idle
    decreases cs, 0
  {
    forall i | 0 <= i < |cs| ensures Prompt(ResetAll(cs)[i]) {
      HaltPrompt(cs[i]);
    }
  }

  // ---------------------------------------------------------------- alike

  /** Memories that no later tick can tell apart. A fallback rewrites its skip count, and a reactive
      fallback its running child, when it is next ticked from Idle; with less than two children neither
      makes a difference. */
  ghost predicate LikeMemo(k: Kind, count: nat, s: Status, v: View, a: Memo, b: Memo) {
    match k
    case Leaf => true
    case Fallback(_) =>
      a.idx == b.idx && (s == Running || s in v.exposed || count < 2 ==> a.skipped == b.skipped)
    case ReactiveFallback =>
      if count < 2 then -1 <= a.runningChild <= 0 && -1 <= b.runningChild <= 0
      else v.single && (s == Running || s == Skipped || s in v.exposed) ==> a.runningChild == b.runningChild
    case Parallel(_, _) => a.completed == b.completed && a.successes == b.successes && a.failures == b.failures
    case ParallelAll(_) => a.completed == b.completed && a.failures == b.failures
    case WhileDoElse => true
    case IfThenElse => a.idx == b.idx
    case Decorator(_, _, _, _) => true
  }

  ghost predicate LikeNode(a: Node, b: Node, v: View) {
    a.uid == b.uid && a.kind == b.kind && a.pre == b.pre && a.status == b.status && |a.children| == |b.children| &&
    LikeMemo(a.kind, |a.children|, a.status, v, a.memo, b.memo)
  }

  ghost predicate Like(a: Node, b: Node, v: View) {
    LikeNode(a, b, v) &&
    forall i | 0 <= i < |a.children| :: Like(a.children[i], b.children[i], Below(v, a.kind, |a.children|, i))
  }

  /** Children of nodes of kind `k`. */
  ghost predicate LikeKids(k: Kind, xs: seq<Node>, ys: seq<Node>, v: View) {
    |xs| == |ys| && forall i | 0 <= i < |xs| :: Like(xs[i], ys[i], Below(v, k, |xs|, i))
  }

  /** No script can complete a node while a memory that it would be ticked with next is stale: a script
      answers without ticking the node, so nothing rewrites the memory. */
  predicate SteadyNode(n: Node, v: View) {
    (n.kind.Fallback? || (n.kind.ReactiveFallback? && v.single)) && |n.children| >= 2 ==>
      (Failure in v.exposed ==> !n.pre.failureIf) && (Success in v.exposed ==> !n.pre.successIf)
  }

  predicate Steady(n: Node, v: View) {
    SteadyNode(n, v) &&
    forall i | 0 <= i < |n.children| :: Steady(n.children[i], Below(v, n.kind, |n.children|, i))
  }

  /** A node may be ticked with the status it stores. */
  predicate Open(n: Node, v: View) {
    IsCompleted(n.status) ==> n.status in v.exposed
  }

  /** Ticks of alike nodes: both threw, or they answered the same after the same events and are alike; what is
      stored is the answer, or no completed status, or what was stored before. */
  ghost predicate LikeOutcome(o: Outcome, p: Outcome, was: Status, v: View) {
    (o.Threw? && p.Threw?) ||
    (o.Done? && p.Done? && o.answer == p.answer && o.log == p.log && Like(o.node, p.node, v) && Prompt(o.node) &&
     (IsCompleted(o.node.status) ==> o.node.status == o.answer || o.node.status == was))
  }

  /** The tick of a control node: alike, and still marked Running. */
  ghost predicate LikeTick(o: Outcome, p: Outcome, v: View) {
    (o.Threw? && p.Threw?) || (o.Done? && o.node.status == Running && LikeOutcome(o, p, Running, v))
  }

  /** Two nodes within a tick, and the children they had when it began. */
  ghost predicate LikeRunning(a: Node, b: Node, cs: seq<Node>, ds: seq<Node>, v: View) {
    Like(a, b, v) && a.status == Running && LikeKids(a.kind, cs, ds, v) && |a.children| == |cs| &&
    PromptKids(a.children) && PromptKids(cs) && Askable(a, cs) &&
    forall i | 0 <= i < |cs| :: Steady(cs[i], Below(v, a.kind, |cs|, i))
  }

  lemma {:induction false} LikeHalt(a: Node, b: Node, v: View)
    requires Like(a, b, v) && v.exposed <= {Success, Failure}
    ensures Like(Halt(a), Halt(b), v)
    decreases a, 1
  {
    LikeResetAll(a.kind, a.children, b.children, v);
  }

  lemma {:induction false} LikeReset(a: Node, b: Node, v: View)
    requires Like(a, b, v) && v.exposed <= {Success, Failure}
    ensures Like(ResetChild(a), ResetChild(b), v)
    decreases a, 2
  {
    LikeHalt(a, b, v);
  }

  lemma {:induction false} LikeResetAll(k: Kind, xs: seq<Node>, ys: seq<Node>, v: View)
    requires LikeKids(k, xs, ys, v)
    ensures LikeKids(k, ResetAll(xs), ResetAll(ys), v)
    decreases xs, 0
  {
    forall i | 0 <= i < |xs| ensures Like(ResetAll(xs)[i], ResetAll(ys)[i], Below(v, k, |xs|, i)) {
      LikeReset(xs[i], ys[i], Below(v, k, |xs|, i));
    }
  }

  // ---------------------------------------------------------------- ticking

  /** Two trees about to be ticked. */
  ghost predicate Paired(a: Node, b: Node, w: World, v: View) {
    Like(a, b, v) && Steady(a, v) && Prompt(a) && Open(a, v) && v.single == w.singleRunning &&
    v.exposed <= {Success, Failure}
  }

  lemma {:induction false} CheckScripts(uid: nat, pre: PreConditions, s: Status, index: nat, w: World, t: Log)
    requires index <= 4
    ensures var c := CheckFrom(uid, pre, s, index, w, t);
            c.Override? ==> (c.answer == Failure ==> pre.failureIf) && (c.answer == Success ==> pre.successIf)
    decreases 4 - index
  {
    if index < 4 {
      CheckScripts(uid, pre, s, index + 1, w, t);
      CheckScripts(uid, pre, s, index + 1, w, t + [Script(uid, index)]);
    }
  }

  /** The engine cannot tell alike trees apart: the same nodes are ticked and the same scripts run in the same
      order, and the answers are the same. */
  lemma {:induction false} LikeExecuteTick(a: Node, b: Node, w: World, t: Log, v: View)
    requires Paired(a, b, w, v)
    ensures LikeOutcome(ExecuteTick(a, w, t), ExecuteTick(b, w, t), a.status, v)
    decreases a, 3
  {
    match CheckFrom(a.uid, a.pre, a.status, 0, w, t)
    case Override(answer, halts, t1) =>
      LikeOverride(a, b, w, t, v);
    case Proceed(t1) =>
      if a.kind.Decorator? {
        LikeDecorator(a, b, w, t1, v);
      } else if !a.kind.Leaf? {
        LikeTickOf(a, b, w, t1, v);
        LikeStore(Tick(a, w, t1), Tick(b, w, t1), a.status, v);
      } else {
        LikeLeaf(a, b, w, t1, v);
      }
  }

  lemma LikeOverride(a: Node, b: Node, w: World, t: Log, v: View)
    requires Paired(a, b, w, v) && CheckFrom(a.uid, a.pre, a.status, 0, w, t).Override?
    ensures LikeOutcome(ExecuteTick(a, w, t), ExecuteTick(b, w, t), a.status, v)
  {
    var c := CheckFrom(a.uid, a.pre, a.status, 0, w, t);
    CheckAnswers(a.uid, a.pre, a.status, 0, w, t);
    CheckScripts(a.uid, a.pre, a.status, 0, w, t);
    LikeHalt(a, b, v);
    HaltPrompt(a);
    LikeUnstick(if c.halts then Halt(a) else a, if c.halts then Halt(b) else b, v);
    if IsCompleted(c.answer) {
      LikeStored(a, b, c.answer, v);
      LikeUnstick(a.(status := c.answer), b.(status := c.answer), v);
    }
  }

  /** A script has answered for a node that stored Idle. */
  lemma LikeStored(a: Node, b: Node, answer: Status, v: View)
    requires Like(a, b, v) && Steady(a, v) && v.exposed <= {Success, Failure}
    requires (answer == Failure && a.pre.failureIf) || (answer == Success && a.pre.successIf)
    ensures Like(a.(status := answer), b.(status := answer), v)
  {
  }

  lemma LikeLeaf(a: Node, b: Node, w: World, t: Log, v: View)
    requires Like(a, b, v) && Prompt(a) && a.kind.Leaf?
    ensures LikeOutcome(Finish(StoreOutcome(Tick(a, w, t))), Finish(StoreOutcome(Tick(b, w, t))), a.status, v)
  {
    var answer := w.reply(t).answer;
    assert Tick(a, w, t) == Done(a, answer, t) && Tick(b, w, t) == Done(b, answer, t);
    assert Like(a.(status := answer), b.(status := answer), v) && Prompt(a.(status := answer));
  }

  lemma LikeUnstick(a: Node, b: Node, v: View)
    requires Like(a, b, v) && (Prompt(a) || (a.kind.Decorator? && PromptKids(a.children)))
    ensures Like(Unstick(a), Unstick(b), v) && Unstick(a).status == a.status
    ensures Prompt(a) || |a.children| == 1 ==> Prompt(Unstick(a))
  {
    if a.kind.Decorator? && |a.children| == 1 && IsCompleted(a.children[0].status) {
      var kid := a.children[0].(status := Idle);
      assert Prompt(kid) && Unstick(a).children == [kid];
    }
  }

  lemma LikeStore(o: Outcome, p: Outcome, was: Status, v: View)
    requires LikeTick(o, p, v) && v.exposed <= {Success, Failure}
    ensures LikeOutcome(Finish(StoreOutcome(o)), Finish(StoreOutcome(p)), was, v)
  {
    if o.Done? {
      LikeUnstick(o.node, p.node, v);
      var c, d := o.node.(status := o.answer), p.node.(status := o.answer);
      assert Like(c, d, v) && Prompt(c);
      LikeUnstick(c, d, v);
    }
  }

  lemma {:induction false} LikeTickOf(a: Node, b: Node, w: World, t: Log, v: View)
    requires Paired(a, b, w, v) && !a.kind.Leaf? && !a.kind.Decorator?
    ensures LikeTick(Tick(a, w, t), Tick(b, w, t), v)
    decreases a, 2
  {
    LikeRunningStarts(a, b, w, v);
    var ra, rb := Started(a), Started(b);
    match a.kind
    case Fallback(_) =>
      assert Tick(a, w, t) == FallbackTick(a, w, t) && Tick(b, w, t) == FallbackTick(b, w, t);
      LikeFallback(ra, rb, a.children, b.children, w, t, v);
    case ReactiveFallback =>
      assert Tick(a, w, t) == ReactiveTick(a, w, t) && Tick(b, w, t) == ReactiveTick(b, w, t);
      LikeReactive(ra, rb, a.children, b.children, 0, true, w, t, v);
    case Parallel(_, _) =>
      assert Tick(a, w, t) == ParallelTick(a, w, t) && Tick(b, w, t) == ParallelTick(b, w, t);
      LikeParallel(ra, rb, a.children, b.children, 0, 0, w, t, v);
    case ParallelAll(_) =>
      assert Tick(a, w, t) == ParallelAllTick(a, w, t) && Tick(b, w, t) == ParallelAllTick(b, w, t);
      LikeParallelAll(ra, rb, a.children, b.children, 0, 0, w, t, v);
    case WhileDoElse =>
      assert Tick(a, w, t) == WhileTick(a, w, t) && Tick(b, w, t) == WhileTick(b, w, t);
      LikeWhile(a, b, w, t, v);
    case IfThenElse =>
      assert Tick(a, w, t) == IfTick(a, w, t) && Tick(b, w, t) == IfTick(b, w, t);
      LikeIf(a, b, w, t, v);
  }

  /** The node as the loop of its tick finds it. */
  function Started(n: Node): Node {
    var memo :=
      if n.kind.Fallback? && !IsActive(n.status) then n.memo.(skipped := 0)
      else if n.kind.ReactiveFallback? && n.status == Idle then n.memo.(runningChild := -1)
      else n.memo;
    n.(status := Running, memo := memo)
  }

  /** A memory that is not rewritten at the start of a tick is not stale. */
  lemma LikeRunningStarts(a: Node, b: Node, w: World, v: View)
    requires Paired(a, b, w, v)
    ensures LikeRunning(Started(a), Started(b), a.children, b.children, v) && PromptNode(Started(a))
  {
  }

  lemma {:induction false} LikeFallback(a: Node, b: Node, cs: seq<Node>, ds: seq<Node>, w: World, t: Log, v: View)
    requires LikeRunning(a, b, cs, ds, v) && PromptNode(a) && a.kind.Fallback? && v.single == w.singleRunning
    ensures LikeTick(FallbackLoop(a, cs, w, t), FallbackLoop(b, ds, w, t), v)
    decreases cs, |cs| - a.memo.idx
  {
    hide ExecuteTick, FallbackVisit;
    var i := a.memo.idx;
    if i >= |cs| {
      LikeResetAll(a.kind, a.children, b.children, v);
      ResetAllPrompt(a.children);
    } else {
      var u := Below(v, a.kind, |cs|, i);
      LikeExecuteTick(cs[i], ds[i], w, Noted(cs[i], t), u);
      var o, p := ExecuteTick(cs[i], w, Noted(cs[i], t)), ExecuteTick(ds[i], w, Noted(ds[i], t));
      if o.Done? {
        LikeKid(a, b, cs, ds, i, o, p, v);
        var a1, b1 := a.(children := a.children[i := o.node]), b.(children := b.children[i := p.node]);
        LikeFallbackVisit(a1, b1, cs[i].status, o.answer, w, o.log, v);
        var x, y := FallbackVisit(a1, cs[i].status, o.answer, w, o.log),
          FallbackVisit(b1, ds[i].status, o.answer, w, o.log);
        if x.Next? {
          LikeFallback(x.node, y.node, cs, ds, w, o.log, v);
        }
      }
    }
  }

  /** Child `i` has been ticked in both: the nodes are alike again, and what the child stores is its answer
      unless it is not completed or was exposed. */
  lemma LikeKid(a: Node, b: Node, cs: seq<Node>, ds: seq<Node>, i: nat, o: Outcome, p: Outcome, v: View)
    requires LikeRunning(a, b, cs, ds, v) && i < |cs| && o.Done?
    requires LikeOutcome(o, p, cs[i].status, Below(v, a.kind, |cs|, i))
    ensures var a1, b1 := a.(children := a.children[i := o.node]), b.(children := b.children[i := p.node]);
            Like(a1, b1, v) && PromptKids(a1.children)
    ensures !Rests(a, i) && IsCompleted(o.node.status) ==>
              o.node.status == o.answer || o.node.status in Exposed(a.kind, |cs|, i)
  {
  }

  lemma LikeFallbackVisit(a: Node, b: Node, prev: Status, answer: Status, w: World, t: Log, v: View)
    requires Like(a, b, v) && a.status == Running && a.kind.Fallback? && PromptKids(a.children)
    requires a.memo.idx < |a.children|
    requires forall j | 0 <= j < |a.children| && j != a.memo.idx && IsCompleted(a.children[j].status) :: Rests(a, j)
    requires IsCompleted(a.children[a.memo.idx].status) ==> a.children[a.memo.idx].status == answer
    ensures var x, y := FallbackVisit(a, prev, answer, w, t), FallbackVisit(b, prev, answer, w, t);
            if x.Stop? then y.Stop? && LikeTick(x.outcome, y.outcome, v)
            else y.Next? && Like(x.node, y.node, v) && x.node.status == Running && x.node.kind == a.kind &&
                 PromptNode(x.node) &&
                 x.node.children == a.children && x.node.memo.idx == a.memo.idx + 1
  {
    LikeResetAll(a.kind, a.children, b.children, v);
    ResetAllPrompt(a.children);
  }

  lemma {:induction false} LikeReactive(
    a: Node, b: Node, cs: seq<Node>, ds: seq<Node>, i: nat, allSkipped: bool, w: World, t: Log, v: View)
    requires LikeRunning(a, b, cs, ds, v) && a.kind.ReactiveFallback? && i <= |cs| && v.single == w.singleRunning
    ensures LikeTick(ReactiveLoop(a, cs, i, allSkipped, w, t), ReactiveLoop(b, ds, i, allSkipped, w, t), v)
    decreases cs, |cs| - i
  {
    hide ExecuteTick, ReactiveVisit;
    if i == |cs| {
      LikeResetAll(a.kind, a.children, b.children, v);
      ResetAllPrompt(a.children);
    } else {
      LikeExecuteTick(cs[i], ds[i], w, Noted(cs[i], t), Below(v, a.kind, |cs|, i));
      var o, p := ExecuteTick(cs[i], w, Noted(cs[i], t)), ExecuteTick(ds[i], w, Noted(ds[i], t));
      if o.Done? {
        LikeKid(a, b, cs, ds, i, o, p, v);
        var a1, b1 := a.(children := a.children[i := o.node]), b.(children := b.children[i := p.node]);
        LikeReactiveVisit(a1, b1, i, o.answer, w, o.log, v);
        var x, y := ReactiveVisit(a1, i, o.answer, w, o.log), ReactiveVisit(b1, i, o.answer, w, o.log);
        if x.Next? {
          LikeReactive(x.node, y.node, cs, ds, i + 1, allSkipped && o.answer == Skipped, w, o.log, v);
        }
      }
    }
  }

  lemma LikeReactiveVisit(a: Node, b: Node, i: nat, answer: Status, w: World, t: Log, v: View)
    requires Like(a, b, v) && a.status == Running && a.kind.ReactiveFallback? && PromptKids(a.children)
    requires i < |a.children|
    requires v.single == w.singleRunning && (IsCompleted(a.children[i].status) ==> a.children[i].status == answer)
    ensures var x, y := ReactiveVisit(a, i, answer, w, t), ReactiveVisit(b, i, answer, w, t);
            if x.Stop? then y.Stop? && LikeTick(x.outcome, y.outcome, v)
            else y.Next? && Like(x.node, y.node, v) && x.node.status == Running && x.node.kind == a.kind &&
                 |x.node.children| == |a.children| && PromptKids(x.node.children)
  {
    hide ReactiveRunning, ResetAll, ResetChild;
    match answer
    case Running => LikeReactiveRunning(a, b, i, w, t, v);
    case Success =>
      LikeResetAll(a.kind, a.children, b.children, v);
      ResetAllPrompt(a.children);
    case Skipped => LikeOther(a, b, i, v);
    case _ =>
  }

  lemma LikeReactiveRunning(a: Node, b: Node, i: nat, w: World, t: Log, v: View)
    requires Like(a, b, v) && a.status == Running && a.kind.ReactiveFallback? && PromptKids(a.children)
    requires i < |a.children|
    requires v.single == w.singleRunning && !IsCompleted(a.children[i].status)
    ensures LikeTick(ReactiveRunning(a, i, w, t), ReactiveRunning(b, i, w, t), v)
  {
    hide ResetAll;
    LikeResetAll(a.kind, a.children, b.children, v);
    ResetAllPrompt(a.children);
    var xs, ys := ResetAll(a.children)[i := a.children[i]], ResetAll(b.children)[i := b.children[i]];
    assert LikeKids(a.kind, xs, ys, v) && PromptKids(xs) && forall j | 0 <= j < |xs| :: !IsCompleted(xs[j].status);
  }

  lemma {:induction false} LikeParallel(
    a: Node, b: Node, cs: seq<Node>, ds: seq<Node>, i: nat, skipped: nat, w: World, t: Log, v: View)
    requires LikeRunning(a, b, cs, ds, v) && PromptNode(a) && a.kind.Parallel? && i <= |cs|
    requires v.single == w.singleRunning
    ensures LikeTick(ParallelLoop(a, cs, i, skipped, w, t), ParallelLoop(b, ds, i, skipped, w, t), v)
    decreases cs, |cs| - i
  {
    if i < |cs| {
      LikeAsk(a, b, cs, ds, i, w, t, v);
      var o, p := AskKid(a, cs, i, w, t), AskKid(b, ds, i, w, t);
      if o.Done? {
        var skipped1 := if o.answer == Skipped then skipped + 1 else skipped;
        LikeJudge(o.node, p.node, skipped1, o.log, v);
        LikeParallel(o.node, p.node, cs, ds, i + 1, skipped1, w, o.log, v);
      }
    }
  }

  lemma {:induction false} LikeAsk(a: Node, b: Node, cs: seq<Node>, ds: seq<Node>, i: nat, w: World, t: Log, v: View)
    requires LikeRunning(a, b, cs, ds, v) && PromptNode(a) && (a.kind.Parallel? || a.kind.ParallelAll?) && i < |cs|
    requires v.single == w.singleRunning
    ensures LikeTick(AskKid(a, cs, i, w, t), AskKid(b, ds, i, w, t), v)
    ensures var o, p := AskKid(a, cs, i, w, t), AskKid(b, ds, i, w, t);
            o.Done? ==> LikeRunning(o.node, p.node, cs, ds, v) && PromptNode(o.node)
    decreases cs, 0
  {
    hide ExecuteTick;
    if i !in a.memo.completed {
      LikeExecuteTick(cs[i], ds[i], w, Noted(cs[i], t), Below(v, a.kind, |cs|, i));
      var o, p := ExecuteTick(cs[i], w, Noted(cs[i], t)), ExecuteTick(ds[i], w, Noted(ds[i], t));
      if o.Done? {
        LikeKid(a, b, cs, ds, i, o, p, v);
        LikeCount(a.(children := a.children[i := o.node]), b.(children := b.children[i := p.node]), cs, ds, i, o.answer,
                  v);
      }
    }
  }

  lemma LikeCount(a: Node, b: Node, cs: seq<Node>, ds: seq<Node>, i: nat, answer: Status, v: View)
    requires Like(a, b, v) && a.status == Running && LikeKids(a.kind, cs, ds, v) && |a.children| == |cs|
    requires PromptKids(a.children) && PromptKids(cs) && Askable(a, cs)
    requires forall i | 0 <= i < |cs| :: Steady(cs[i], Below(v, a.kind, |cs|, i))
    requires (a.kind.Parallel? || a.kind.ParallelAll?) && i < |cs|
    requires forall j | 0 <= j < |cs| && j != i && IsCompleted(a.children[j].status) :: Rests(a, j)
    requires IsCompleted(a.children[i].status) ==> a.children[i].status == answer
    ensures var x, y := CountKid(a, i, answer), CountKid(b, i, answer);
            LikeRunning(x, y, cs, ds, v) && PromptNode(x)
  {
    hide Steady, Prompt, Exposed;
    CountLike(a, b, i, answer, v);
  }

  lemma CountLike(a: Node, b: Node, i: nat, answer: Status, v: View)
    requires Like(a, b, v) && a.status == Running && (a.kind.Parallel? || a.kind.ParallelAll?)
    ensures Like(CountKid(a, i, answer), CountKid(b, i, answer), v)
    ensures var x := CountKid(a, i, answer);
            x == a.(memo := x.memo) &&
            x.memo.completed == a.memo.completed + if IsCompleted(answer) then {i} else {}
  {
  }

  lemma LikeJudge(a: Node, b: Node, skipped: nat, t: Log, v: View)
    requires Like(a, b, v) && Prompt(a) && a.status == Running && a.kind.Parallel?
    ensures var x, y := ParallelJudge(a, skipped, t), ParallelJudge(b, skipped, t);
            if x.Stop? then y.Stop? && LikeTick(x.outcome, y.outcome, v) else y.Next?
  {
    LikeResetAll(a.kind, a.children, b.children, v);
    ResetAllPrompt(a.children);
  }

  lemma {:induction false} LikeParallelAll(
    a: Node, b: Node, cs: seq<Node>, ds: seq<Node>, i: nat, skipped: nat, w: World, t: Log, v: View)
    requires LikeRunning(a, b, cs, ds, v) && PromptNode(a) && a.kind.ParallelAll? && i <= |cs|
    requires v.single == w.singleRunning
    ensures LikeTick(ParallelAllLoop(a, cs, i, skipped, w, t), ParallelAllLoop(b, ds, i, skipped, w, t), v)
    decreases cs, |cs| - i
  {
    if i == |cs| {
      LikeResetAll(a.kind, a.children, b.children, v);
      ResetAllPrompt(a.children);
    } else {
      LikeAsk(a, b, cs, ds, i, w, t, v);
      var o, p := AskKid(a, cs, i, w, t), AskKid(b, ds, i, w, t);
      if o.Done? {
        LikeParallelAll(o.node, p.node, cs, ds, i + 1, if o.answer == Skipped then skipped + 1 else skipped, w, o.log,
                        v);
      }
    }
  }

  lemma LikeThrew(v: View)
    ensures LikeTick(Threw, Threw, v)
  {
  }

  lemma AllIdlePrompt(a: Node)
    requires forall j | 0 <= j < |a.children| :: a.children[j].status == Idle
    ensures PromptNode(a)
  {
  }

  lemma {:induction false} LikeWhile(a: Node, b: Node, w: World, t: Log, v: View)
    requires Paired(a, b, w, v) && a.kind.WhileDoElse?
    ensures LikeTick(WhileTick(a, w, t), WhileTick(b, w, t), v)
    decreases a, 1
  {
    hide ExecuteTick, ResetChild, ResetAll, WhileBranch, LikeTick;
    var cs, ds := a.children, b.children;
    if |cs| == 2 || |cs| == 3 {
      LikeChild(a, b, 0, w, t, v);
      var o, p := ExecuteTick(cs[0], w, Noted(cs[0], t)), ExecuteTick(ds[0], w, Noted(ds[0], t));
      if o.Threw? {
        LikeThrew(v);
      } else if o.answer == Success {
        LikeWhileGoesOn(a, b, 1, o, p, w, v);
      } else if o.answer == Failure && |cs| == 3 {
        LikeWhileGoesOn(a, b, 2, o, p, w, v);
      } else {
        LikeWhileEnds(a, b, o, p, w, v);
      }
    } else {
      LikeThrew(v);
    }
  }

  /** No branch is ticked. */
  lemma LikeWhileEnds(a: Node, b: Node, o: Outcome, p: Outcome, w: World, v: View)
    requires Paired(a, b, w, v) && a.kind.WhileDoElse? && 2 <= |a.children| <= 3 && o.Done?
    requires LikeOutcome(o, p, a.children[0].status, Below(v, a.kind, |a.children|, 0))
    requires IsCompleted(o.node.status) ==>
               o.node.status == o.answer || o.node.status in Exposed(a.kind, |a.children|, 0)
    ensures var a1 := a.(status := Running, children := a.children[0 := o.node]);
            var b1 := b.(status := Running, children := b.children[0 := p.node]);
            var answer := if o.answer == Failure then Failure else Idle;
            LikeTick(Done(a1.(children := ResetAll(a1.children)), answer, o.log),
                     Done(b1.(children := ResetAll(b1.children)), answer, p.log), v) &&
            (o.answer == Running ==> LikeTick(Done(a1, Running, o.log), Done(b1, Running, p.log), v))
  {
    hide ResetAll;
    var xs, ys := a.children[0 := o.node], b.children[0 := p.node];
    LikeResetAll(a.kind, xs, ys, v);
    ResetAllPrompt(xs);
  }

  /** The condition has been ticked and branch `i` is chosen. */
  lemma {:induction false} LikeWhileGoesOn(a: Node, b: Node, i: nat, o: Outcome, p: Outcome, w: World, v: View)
    requires Paired(a, b, w, v) && a.kind.WhileDoElse? && 2 <= |a.children| <= 3 && 1 <= i < |a.children| && o.Done?
    requires LikeOutcome(o, p, a.children[0].status, Below(v, a.kind, |a.children|, 0))
    requires IsCompleted(o.node.status) ==> o.node.status in Exposed(a.kind, |a.children|, 0)
    ensures var a1 := a.(status := Running, children := a.children[0 := o.node]);
            var b1 := b.(status := Running, children := b.children[0 := p.node]);
            LikeTick(WhileBranch(Spared(a1, 3 - i), i, ExecuteTick(a.children[i], w, Noted(a.children[i], o.log))),
                     WhileBranch(Spared(b1, 3 - i), i, ExecuteTick(b.children[i], w, Noted(b.children[i], o.log))), v)
    decreases a, 1, 0
  {
    hide *;
    LikeSpared(a, b, i, o, p, w, v);
    var a1 := a.(status := Running, children := a.children[0 := o.node]);
    var b1 := b.(status := Running, children := b.children[0 := p.node]);
    LikeChild(a, b, i, w, o.log, v);
    LikeWhileBranch(Spared(a1, 3 - i), Spared(b1, 3 - i), i,
                    ExecuteTick(a.children[i], w, Noted(a.children[i], o.log)),
                    ExecuteTick(b.children[i], w, Noted(b.children[i], o.log)), v);
  }

  /** ... and the other branch has been reset. */
  lemma LikeSpared(a: Node, b: Node, i: nat, o: Outcome, p: Outcome, w: World, v: View)
    requires Paired(a, b, w, v) && a.kind.WhileDoElse? && 2 <= |a.children| <= 3 && 1 <= i < |a.children| && o.Done?
    requires LikeOutcome(o, p, a.children[0].status, Below(v, a.kind, |a.children|, 0))
    requires IsCompleted(o.node.status) ==> o.node.status in Exposed(a.kind, |a.children|, 0)
    ensures |b.children| == |a.children| && !Rests(a, i) && p.Done? && Exposed(a.kind, |a.children|, i) == {}
    ensures var a1 := a.(status := Running, children := a.children[0 := o.node]);
            var b1 := b.(status := Running, children := b.children[0 := p.node]);
            var x := Spared(a1, 3 - i);
            Like(x, Spared(b1, 3 - i), v) && x.status == Running && x.kind == a.kind && PromptKids(x.children) &&
            |x.children| == |a.children| && x.children[i] == a.children[i] &&
            forall j | 0 <= j < |x.children| && j != i && IsCompleted(x.children[j].status) ::
              x.children[j].status in Exposed(x.kind, |x.children|, j)
  {
    hide ResetChild, Like, PromptKids, Paired, LikeOutcome;
    LikeBegun(a, b, o, p, w, v);
    var a1 := a.(status := Running, children := a.children[0 := o.node]);
    var b1 := b.(status := Running, children := b.children[0 := p.node]);
    LikeOther(a1, b1, 3 - i, v);
  }

  lemma LikeBegun(a: Node, b: Node, o: Outcome, p: Outcome, w: World, v: View)
    requires Paired(a, b, w, v) && a.kind.WhileDoElse? && 2 <= |a.children| <= 3 && o.Done?
    requires LikeOutcome(o, p, a.children[0].status, Below(v, a.kind, |a.children|, 0))
    requires IsCompleted(o.node.status) ==> o.node.status in Exposed(a.kind, |a.children|, 0)
    ensures p.Done? && |b.children| == |a.children|
    ensures var a1 := a.(status := Running, children := a.children[0 := o.node]);
            var b1 := b.(status := Running, children := b.children[0 := p.node]);
            Like(a1, b1, v) && PromptKids(a1.children) &&
            forall j | 0 <= j < |a.children| && IsCompleted(a1.children[j].status) ::
              a1.children[j].status in Exposed(a.kind, |a.children|, j)
  {
    hide Steady;
  }

  /** The branch that is not chosen has been reset. */
  function Spared(n: Node, i: nat): Node {
    if i < |n.children| then n.(children := n.children[i := ResetChild(n.children[i])]) else n
  }

  lemma LikeOther(a: Node, b: Node, i: nat, v: View)
    requires Like(a, b, v) && PromptKids(a.children)
    ensures Like(Spared(a, i), Spared(b, i), v) && PromptKids(Spared(a, i).children)
    ensures forall j | 0 <= j < |a.children| :: IsCompleted(Spared(a, i).children[j].status) ==>
            Spared(a, i).children[j] == a.children[j]
  {
    if i < |a.children| {
      LikeReset(a.children[i], b.children[i], Below(v, a.kind, |a.children|, i));
      HaltPrompt(a.children[i]);
    }
  }

  /** A child of a node that is not a loop, ticked. */
  lemma {:induction false} LikeChild(a: Node, b: Node, i: nat, w: World, t: Log, v: View)
    requires Paired(a, b, w, v) && i < |a.children| && !Rests(a, i)
    ensures var o, p := ExecuteTick(a.children[i], w, Noted(a.children[i], t)),
              ExecuteTick(b.children[i], w, Noted(b.children[i], t));
            LikeOutcome(o, p, a.children[i].status, Below(v, a.kind, |a.children|, i))
    ensures var o := ExecuteTick(a.children[i], w, Noted(a.children[i], t));
            o.Done? && IsCompleted(o.node.status) ==>
              o.node.status == o.answer || o.node.status in Exposed(a.kind, |a.children|, i)
    decreases a, 0, 0
  {
    LikeExecuteTick(a.children[i], b.children[i], w, Noted(a.children[i], t), Below(v, a.kind, |a.children|, i));
  }

  lemma {:induction false} LikeWhileBranch(a: Node, b: Node, i: nat, o: Outcome, p: Outcome, v: View)
    requires Like(a, b, v) && a.status == Running && a.kind.WhileDoElse? && 0 < i < |a.children|
    requires PromptKids(a.children)
    requires LikeOutcome(o, p, a.children[i].status, Below(v, a.kind, |a.children|, i))
    requires o.Done? && IsCompleted(o.node.status) ==> o.node.status == o.answer
    requires forall j | 0 <= j < |a.children| && j != i && IsCompleted(a.children[j].status) ::
               a.children[j].status in Exposed(a.kind, |a.children|, j)
    ensures LikeTick(WhileBranch(a, i, o), WhileBranch(b, i, p), v)
  {
    hide ResetAll, PromptNode;
    if o.Done? {
      var xs, ys := a.children[i := o.node], b.children[i := p.node];
      assert LikeKids(a.kind, xs, ys, v) && PromptKids(xs);
      if o.answer == Running {
        WhileRunsPrompt(a.(children := xs));
      } else {
        LikeResetAll(a.kind, xs, ys, v);
        ResetAllPrompt(xs);
        AllIdlePrompt(a.(children := ResetAll(xs)));
      }
    }
  }

  lemma WhileRunsPrompt(a: Node)
    requires forall j | 0 <= j < |a.children| && IsCompleted(a.children[j].status) ::
               a.children[j].status in Exposed(a.kind, |a.children|, j)
    ensures PromptNode(a)
  {
  }

  lemma {:induction false} LikeIf(a: Node, b: Node, w: World, t: Log, v: View)
    requires Paired(a, b, w, v) && a.kind.IfThenElse?
    ensures LikeTick(IfTick(a, w, t), IfTick(b, w, t), v)
    decreases a, 1
  {
    hide ExecuteTick, IfBranch, LikeTick;
    var cs, ds := a.children, b.children;
    if |cs| == 2 || |cs| == 3 {
      var i := a.memo.idx;
      if i > 0 {
        if i < |cs| {
          LikeChild(a, b, i, w, t, v);
          LikeIfBranch(a.(status := Running), b.(status := Running), ExecuteTick(cs[i], w, Noted(cs[i], t)),
                       ExecuteTick(ds[i], w, Noted(ds[i], t)), v);
        } else {
          LikeThrew(v);
        }
      } else {
        LikeChild(a, b, 0, w, t, v);
        LikeIfAsked(a, b, w, t, v);
      }
    } else {
      LikeThrew(v);
    }
  }

  /** The condition of an IfThenElse has been ticked. */
  lemma {:induction false} LikeIfAsked(a: Node, b: Node, w: World, t: Log, v: View)
    requires Paired(a, b, w, v) && a.kind.IfThenElse? && 2 <= |a.children| <= 3 && a.memo.idx == 0
    requires var o, p := ExecuteTick(a.children[0], w, Noted(a.children[0], t)),
               ExecuteTick(b.children[0], w, Noted(b.children[0], t));
             LikeOutcome(o, p, a.children[0].status, Below(v, a.kind, |a.children|, 0)) &&
             (o.Done? && IsCompleted(o.node.status) ==>
               o.node.status == o.answer || o.node.status in Exposed(a.kind, |a.children|, 0))
    ensures LikeTick(IfTick(a, w, t), IfTick(b, w, t), v)
    decreases a, 0, 2
  {
    hide ExecuteTick, IfBranch;
    var cs, ds := a.children, b.children;
    var o, p := ExecuteTick(cs[0], w, Noted(cs[0], t)), ExecuteTick(ds[0], w, Noted(ds[0], t));
    if o.Done? {
      if o.answer == Success {
        LikeIfGoesOn(a, b, 1, o, p, w, v);
      } else if o.answer == Failure && |cs| == 3 {
        LikeIfGoesOn(a, b, 2, o, p, w, v);
      }
    }
  }

  /** Branch `i` is chosen. */
  lemma {:induction false} LikeIfGoesOn(a: Node, b: Node, i: nat, o: Outcome, p: Outcome, w: World, v: View)
    requires Paired(a, b, w, v) && a.kind.IfThenElse? && 2 <= |a.children| <= 3 && a.memo.idx == 0
    requires 1 <= i < |a.children| && o.Done?
    requires LikeOutcome(o, p, a.children[0].status, Below(v, a.kind, |a.children|, 0))
    ensures var a1 := a.(status := Running, children := a.children[0 := o.node], memo := a.memo.(idx := i));
            var b1 := b.(status := Running, children := b.children[0 := p.node], memo := b.memo.(idx := i));
            LikeTick(IfBranch(a1, ExecuteTick(a.children[i], w, Noted(a.children[i], o.log))),
                     IfBranch(b1, ExecuteTick(b.children[i], w, Noted(b.children[i], o.log))), v)
    decreases a, 0, 1
  {
    hide ExecuteTick, IfBranch;
    LikeChild(a, b, i, w, o.log, v);
    var a1 := a.(status := Running, children := a.children[0 := o.node], memo := a.memo.(idx := i));
    var b1 := b.(status := Running, children := b.children[0 := p.node], memo := b.memo.(idx := i));
    LikeIfBranch(a1, b1, ExecuteTick(a.children[i], w, Noted(a.children[i], o.log)),
                 ExecuteTick(b.children[i], w, Noted(b.children[i], o.log)), v);
  }

  lemma LikeIfBranch(a: Node, b: Node, o: Outcome, p: Outcome, v: View)
    requires Like(a, b, v) && a.status == Running && a.kind.IfThenElse? && 0 < a.memo.idx < |a.children|
    requires PromptKids(a.children)
    requires LikeOutcome(o, p, a.children[a.memo.idx].status, Below(v, a.kind, |a.children|, a.memo.idx))
    requires o.Done? && IsCompleted(o.node.status) ==> o.node.status == o.answer
    requires forall j | 0 < j < |a.children| && j != a.memo.idx :: !IsCompleted(a.children[j].status)
    ensures LikeTick(IfBranch(a, o), IfBranch(b, p), v)
  {
    hide ResetAll, PromptNode;
    if o.Done? {
      var xs, ys := a.children[a.memo.idx := o.node], b.children[b.memo.idx := p.node];
      assert LikeKids(a.kind, xs, ys, v) && PromptKids(xs);
      if o.answer == Running {
        IfRunsPrompt(a, xs);
      } else {
        LikeResetAll(a.kind, xs, ys, v);
        ResetAllPrompt(xs);
        AllIdlePrompt(a.(children := ResetAll(xs), memo := a.memo.(idx := 0)));
      }
    }
  }

  lemma IfRunsPrompt(a: Node, xs: seq<Node>)
    requires a.kind.IfThenElse? && a.memo.idx > 0 && forall j | 0 < j < |xs| :: !IsCompleted(xs[j].status)
    ensures PromptNode(a.(children := xs))
  {
  }

  lemma {:induction false} LikeDecorator(a: Node, b: Node, w: World, t: Log, v: View)
    requires Paired(a, b, w, v) && a.kind.Decorator?
    ensures LikeOutcome(Finish(StoreOutcome(Tick(a, w, t))), Finish(StoreOutcome(Tick(b, w, t))), a.status, v)
    decreases a, 1
  {
    assert Tick(a, w, t) == DecoratorTick(a, w, t) && Tick(b, w, t) == DecoratorTick(b, w, t);
    if |a.children| == 1 {
      LikeChild(a, b, 0, w, t, v);
      var o, p := ExecuteTick(a.children[0], w, Noted(a.children[0], t)),
        ExecuteTick(b.children[0], w, Noted(b.children[0], t));
      if o.Done? {
        var a1, b1 := a.(children := [o.node]), b.(children := [p.node]);
        var answer := Translate(a.kind, o.answer);
        LikeUnstick(a1, b1, v);
        LikeUnstick(a1.(status := answer), b1.(status := answer), v);
      }
    }
  }
}
