/** The vocabulary of the tick engine: statuses, node kinds, pre-conditions, and the
    outside world as the nodes see it. */
module NodeTypes {

  datatype Status = Idle | Running | Success | Failure | Skipped

  predicate IsActive(s: Status) {
    s != Idle && s != Skipped
  }

  predicate IsCompleted(s: Status) {
    s == Success || s == Failure
  }

  /** Which of the four pre-condition scripts a node carries, in the order they are run:
      0 is "fail if", 1 is "succeed if", 2 is "skip if", 3 is "while". */
  datatype PreConditions = PreConditions(failureIf: bool, successIf: bool, skipIf: bool, whileTrue: bool) {
    predicate Present(index: nat)
      requires index < 4
    {
      if index == 0 then failureIf
      else if index == 1 then successIf
      else if index == 2 then skipIf
      else whileTrue
    }

    predicate None() {
      !failureIf && !successIf && !skipIf && !whileTrue
    }
  }

  /** What happens in a tree: a node is ticked, one of its scripts is run, or `tickRoot` looks for a
      wake-up signal. Nodes are named by their unique number, the `uid` of the code. */
  datatype Event = Ticked(uid: nat) | Script(uid: nat, index: nat) | Listened

  /** Who was ticked or asked, in that order. A node is noted by whoever ticks it. */
  type Log = seq<Event>

  /** Everything that comes from outside at one event: what a leaf's own code answers when it is ticked,
      what a script evaluates to, whether a wake-up signal is pending. */
  datatype Reply = Reply(answer: Status, holds: bool)

  /** The world replies to the last event of a log, knowing all earlier ones. Nothing is assumed about the
      replies, so every behaviour of leaves and scripts, including one that depends on the past, is some
      world; and two runs in one world that end with the same log have ticked the same nodes and run the
      same scripts in the same order, and were told the same. */
  datatype World = World(reply: Log -> Reply, wakeUp: bool, singleRunning: bool)

  datatype Kind =
    | Leaf
    | Fallback(asynch: bool)
    | ReactiveFallback
    | Parallel(successAt: int, failureAt: int)
    | ParallelAll(maxFailures: int)
    | WhileDoElse
    | IfThenElse
    | Decorator(onRunning: Status, onSuccess: Status, onFailure: Status, onSkipped: Status)

  /** What control nodes remember between ticks. Each kind uses some of the fields only. */
  datatype Memo = Memo(idx: nat, skipped: nat, completed: set<nat>, successes: nat, failures: nat, runningChild: int)

  const BLANK: Memo := Memo(0, 0, {}, 0, 0, -1)

  /** A threshold counted from the end when negative, as Python indexes are: -1 stands for the whole count, and
      every number below for one less, down to zero. */
  function Threshold(at: int, count: nat): (r: nat)
    ensures at == -1 ==> r == count
    ensures at < 0 ==> r <= count && count - r <= -at - 1 && (r > 0 ==> count - r == -at - 1)
  {
    if at >= 0 then at
    else if count + at + 1 >= 0 then count + at + 1
    else 0
  }

  /** The functor of a simple decorator, as a table. */
  function Translate(k: Kind, s: Status): Status
    requires k.Decorator?
  {
    match s
    case Idle => Idle
    case Running => k.onRunning
    case Success => k.onSuccess
    case Failure => k.onFailure
    case Skipped => k.onSkipped
  }
}

/** The tick engine on values: a tree of nodes is a value, and one tick, one halt and one reset
    are functions from trees to trees. `TickEngine` proves that the objects do exactly this. */
module TickModel {
  import opened NodeTypes

  datatype Node = Node(uid: nat, kind: Kind, pre: PreConditions, status: Status, memo: Memo, children: seq<Node>)

  datatype Outcome = Threw | Done(node: Node, answer: Status, log: Log)

  /** How the loop of a control node goes on once a child has answered: it returns, or it moves on. */
  datatype Visit = Stop(outcome: Outcome) | Next(node: Node, skipped: nat)

  // ---------------------------------------------------------------- halting

  /** What a node's own `halt` forgets, before it resets its children. */
  function ClearedMemo(k: Kind, m: Memo): Memo {
    match k
    case Leaf => m
    case Fallback(_) => m.(idx := 0, skipped := 0)
    case ReactiveFallback => m.(runningChild := -1)
    case Parallel(_, _) => m.(completed := {}, successes := 0, failures := 0)
    case ParallelAll(_) => m.(completed := {}, failures := 0)
    case WhileDoElse => m
    case IfThenElse => m.(idx := 0)
    case Decorator(_, _, _, _) => m
  }

  function Halt(n: Node): Node
    decreases n, 1
  {
    n.(memo := ClearedMemo(n.kind, n.memo), children := ResetAll(n.children), status := Idle)
  }

  /** `haltChild`: a running child is halted, any child ends up storing Idle. */
  function ResetChild(c: Node): (r: Node)
    decreases c, 2
  {
    (if c.status == Running then Halt(c) else c).(status := Idle)
  }

  function ResetAll(cs: seq<Node>): (rs: seq<Node>)
    ensures |rs| == |cs|
    decreases cs, 0
  {
    seq(|cs|, i requires 0 <= i < |cs| => ResetChild(cs[i]))
  }

  // ---------------------------------------------------------------- shape

  /** The tree as it was built: every status Idle, every memory blank. */
  ghost function Fresh(n: Node): Node {
    Node(n.uid, n.kind, n.pre, Idle, BLANK, FreshKids(n.children))
  }

  ghost function FreshKids(cs: seq<Node>): (fs: seq<Node>)
    ensures |fs| == |cs|
  {
    seq(|cs|, i requires 0 <= i < |cs| => Fresh(cs[i]))
  }

  lemma FreshUpdate(cs: seq<Node>, i: nat, c: Node)
    requires i < |cs| && Fresh(c) == Fresh(cs[i])
    ensures FreshKids(cs[i := c]) == FreshKids(cs)
  {
    assert forall j | 0 <= j < |cs| :: FreshKids(cs[i := c])[j] == FreshKids(cs)[j];
  }

  lemma {:induction false} HaltFresh(n: Node)
    ensures Fresh(Halt(n)) == Fresh(n)
  {
    forall i | 0 <= i < |n.children|
      ensures Fresh(ResetChild(n.children[i])) == Fresh(n.children[i])
    {
      HaltFresh(n.children[i]);
    }
    assert FreshKids(ResetAll(n.children)) == FreshKids(n.children);
  }

  // ---------------------------------------------------------------- pre-conditions

  datatype PreCheck = Proceed(log: Log) | Override(answer: Status, halts: bool, log: Log)

  function CheckFrom(uid: nat, pre: PreConditions, status: Status, index: nat, w: World, t: Log): PreCheck
    requires index <= 4
    decreases 4 - index
  {
    if index == 4 then Proceed(t)
    else if !pre.Present(index) then CheckFrom(uid, pre, status, index + 1, w, t)
    else
      var t1 := t + [Script(uid, index)];
      if status == Idle || status == Skipped then
        if w.reply(t1).holds && index == 0 then Override(Failure, false, t1)
        else if w.reply(t1).holds && index == 1 then Override(Success, false, t1)
        else if w.reply(t1).holds && index == 2 then Override(Skipped, false, t1)
        else if !w.reply(t1).holds && index == 3 then Override(Skipped, false, t1)
        else CheckFrom(uid, pre, status, index + 1, w, t1)
      else if status == Running && index == 3 then
        if !w.reply(t1).holds then Override(Skipped, true, t1)
        else CheckFrom(uid, pre, status, index + 1, w, t1)
      else CheckFrom(uid, pre, status, index + 1, w, t)
  }

  // ---------------------------------------------------------------- one tick

  /** Storing the answer: Skipped is told to the parent but not stored, Idle is refused. */
  function Store(n: Node, answer: Status, t: Log): Outcome {
    if answer == Skipped then Done(n, Skipped, t)
    else if answer == Idle then Threw
    else Done(n.(status := answer), answer, t)
  }

  function StoreOutcome(o: Outcome): Outcome {
    if o.Threw? then Threw else Store(o.node, o.answer, o.log)
  }

  /** A decorator, once ticked, resets a child that stores a completed status. */
  function Unstick(n: Node): Node {
    if n.kind.Decorator? && |n.children| == 1 && IsCompleted(n.children[0].status) then
      n.(children := [n.children[0].(status := Idle)])
    else n
  }

  function Finish(o: Outcome): Outcome {
    if o.Threw? then Threw else o.(node := Unstick(o.node))
  }

  /** The log once `n` is ticked. */
  function Noted(n: Node, t: Log): Log {
    t + [Ticked(n.uid)]
  }

  /** A tick that has been noted in the log `t`. */
  function ExecuteTick(n: Node, w: World, t: Log): Outcome
    decreases n, 3
  {
    match CheckFrom(n.uid, n.pre, n.status, 0, w, t)
    case Override(answer, halts, t1) => Finish(Store(if halts then Halt(n) else n, answer, t1))
    case Proceed(t1) => Finish(StoreOutcome(Tick(n, w, t1)))
  }

  function Tick(n: Node, w: World, t: Log): Outcome
    decreases n, 2
  {
    match n.kind
    case Leaf => Done(n, w.reply(t).answer, t)
    case Fallback(_) => FallbackTick(n, w, t)
    case ReactiveFallback => ReactiveTick(n, w, t)
    case Parallel(_, _) => ParallelTick(n, w, t)
    case ParallelAll(_) => ParallelAllTick(n, w, t)
    case WhileDoElse => WhileTick(n, w, t)
    case IfThenElse => IfTick(n, w, t)
    case Decorator(_, _, _, _) => DecoratorTick(n, w, t)
  }

  // The loops below carry the node as it is now, `n`, and the children as they were when the tick
  // began, `cs`; a tick visits no child twice, so `cs[i]` is the child about to be ticked.

  function FallbackTick(n: Node, w: World, t: Log): Outcome
    requires n.kind.Fallback?
    decreases n, 1
  {
    var memo := if IsActive(n.status) then n.memo else n.memo.(skipped := 0);
    FallbackLoop(n.(status := Running, memo := memo), n.children, w, t)
  }

  function FallbackLoop(n: Node, cs: seq<Node>, w: World, t: Log): Outcome
    requires n.kind.Fallback? && |n.children| == |cs|
    decreases cs, |cs| - n.memo.idx
  {
    var i := n.memo.idx;
    if i >= |cs| then FallbackEnd(n, t)
    else
      match ExecuteTick(cs[i], w, Noted(cs[i], t))
      case Threw => Threw
      case Done(c, answer, t1) =>
        match FallbackVisit(n.(children := n.children[i := c]), cs[i].status, answer, w, t1)
        case Stop(o) => o
        case Next(n1, _) => FallbackLoop(n1, cs, w, t1)
  }

  /** The child at the index, which stored `prev`, has been ticked. */
  function FallbackVisit(n: Node, prev: Status, answer: Status, w: World, t: Log): Visit
    requires n.kind.Fallback?
  {
    var i := n.memo.idx;
    match answer
    case Running => Stop(Done(n, Running, t))
    case Success => Stop(Done(n.(children := ResetAll(n.children), memo := n.memo.(idx := 0)), Success, t))
    case Failure =>
      var n1 := n.(memo := n.memo.(idx := i + 1));
      if n.kind.asynch && w.wakeUp && prev == Idle &&
        i + 1 < |n.children| then Stop(Done(n1, Running, t)) else Next(n1, 0)
    case Skipped => Next(n.(memo := n.memo.(idx := i + 1, skipped := n.memo.skipped + 1)), 0)
    case Idle => Stop(Threw)
  }

  function FallbackEnd(n: Node, t: Log): Outcome {
    var answer := if n.memo.skipped == |n.children| then Skipped else Failure;
    if n.memo.idx == |n.children| then
      Done(n.(children := ResetAll(n.children), memo := n.memo.(idx := 0, skipped := 0)), answer, t)
    else Done(n, answer, t)
  }

  function ReactiveTick(n: Node, w: World, t: Log): Outcome
    requires n.kind.ReactiveFallback?
    decreases n, 1
  {
    var memo := if n.status == Idle then n.memo.(runningChild := -1) else n.memo;
    ReactiveLoop(n.(status := Running, memo := memo), n.children, 0, true, w, t)
  }

  function ReactiveLoop(n: Node, cs: seq<Node>, i: nat, allSkipped: bool, w: World, t: Log): Outcome
    requires n.kind.ReactiveFallback? && |n.children| == |cs| && i <= |cs|
    decreases cs, |cs| - i
  {
    if i == |cs| then
      Done(n.(children := ResetAll(n.children)), if allSkipped then Skipped else Failure, t)
    else
      match ExecuteTick(cs[i], w, Noted(cs[i], t))
      case Threw => Threw
      case Done(c, answer, t1) =>
        match ReactiveVisit(n.(children := n.children[i := c]), i, answer, w, t1)
        case Stop(o) => o
        case Next(n1, _) => ReactiveLoop(n1, cs, i + 1, allSkipped && answer == Skipped, w, t1)
  }

  function ReactiveVisit(n: Node, i: nat, answer: Status, w: World, t: Log): Visit
    requires n.kind.ReactiveFallback? && i < |n.children|
  {
    match answer
    case Running => Stop(ReactiveRunning(n, i, w, t))
    case Failure => Next(n, 0)
    case Success => Stop(Done(n.(children := ResetAll(n.children)), Success, t))
    case Skipped => Next(n.(children := n.children[i := ResetChild(n.children[i])]), 0)
    case Idle => Stop(Threw)
  }

  /** Child `i` answered Running: every other child is halted, and remembered is the first to run. */
  function ReactiveRunning(n: Node, i: nat, w: World, t: Log): Outcome
    requires i < |n.children|
  {
    var n1 := n.(children := ResetAll(n.children)[i := n.children[i]]);
    if n.memo.runningChild == -1 then Done(n1.(memo := n.memo.(runningChild := i)), Running, t)
    else if w.singleRunning && n.memo.runningChild != i then Threw
    else Done(n1, Running, t)
  }

  function ParallelTick(n: Node, w: World, t: Log): Outcome
    requires n.kind.Parallel?
    decreases n, 1
  {
    var count := |n.children|;
    if count < Threshold(n.kind.successAt, count) || count < Threshold(n.kind.failureAt, count) then Threw
    else ParallelLoop(n.(status := Running), n.children, 0, 0, w, t)
  }

  function ParallelLoop(n: Node, cs: seq<Node>, i: nat, skipped: nat, w: World, t: Log): Outcome
    requires n.kind.Parallel? && |n.children| == |cs| && i <= |cs|
    decreases cs, |cs| - i
  {
    if i == |cs| then Done(n, if skipped == |cs| then Skipped else Running, t)
    else
      match AskKid(n, cs, i, w, t)
      case Threw => Threw
      case Done(n1, answer, t1) =>
        var skipped1 := if answer == Skipped then skipped + 1 else skipped;
        match ParallelJudge(n1, skipped1, t1)
        case Stop(o) => o
        case Next(_, _) => ParallelLoop(n1, cs, i + 1, skipped1, w, t1)
  }

  /** Both parallel nodes tick a child unless it has finished earlier in the run; Idle stands for "not asked". */
  function AskKid(n: Node, cs: seq<Node>, i: nat, w: World, t: Log): (o: Outcome)
    requires |n.children| == |cs| && i < |cs|
    ensures o.Done? ==> o.node.kind == n.kind && |o.node.children| == |cs|
    decreases cs, 0
  {
    if i in n.memo.completed then Done(n, Idle, t)
    else
      match ExecuteTick(cs[i], w, Noted(cs[i], t))
      case Threw => Threw
      case Done(c, answer, t1) =>
        if answer == Idle then Threw
        else Done(CountKid(n.(children := n.children[i := c]), i, answer), answer, t1)
  }

  /** Which child has finished is noted by both; only one of them counts successes. */
  function CountKid(n: Node, i: nat, answer: Status): Node {
    var done := n.memo.completed + {i};
    match answer
    case Success =>
      if n.kind.Parallel? then n.(memo := n.memo.(completed := done, successes := n.memo.successes + 1))
      else n.(memo := n.memo.(completed := done))
    case Failure => n.(memo := n.memo.(completed := done, failures := n.memo.failures + 1))
    case _ => n
  }

  /** Can the parallel node answer already? Successes are looked at first. */
  function ParallelJudge(n: Node, skipped: nat, t: Log): Visit
    requires n.kind.Parallel?
  {
    var count := |n.children|;
    var required := Threshold(n.kind.successAt, count);
    var cleared := n.(memo := ClearedMemo(n.kind, n.memo), children := ResetAll(n.children));
    if n.memo.successes >= required || (n.kind.successAt < 0 && n.memo.successes + skipped >= required) then
      Stop(Done(cleared, Success, t))
    else if count - n.memo.failures < required || n.memo.failures == Threshold(n.kind.failureAt, count) then
      Stop(Done(cleared, Failure, t))
    else Next(n, skipped)
  }

  function ParallelAllTick(n: Node, w: World, t: Log): Outcome
    requires n.kind.ParallelAll?
    decreases n, 1
  {
    if |n.children| < Threshold(n.kind.maxFailures, |n.children|) then Threw
    else ParallelAllLoop(n.(status := Running), n.children, 0, 0, w, t)
  }

  function ParallelAllLoop(n: Node, cs: seq<Node>, i: nat, skipped: nat, w: World, t: Log): Outcome
    requires n.kind.ParallelAll? && |n.children| == |cs| && i <= |cs|
    decreases cs, |cs| - i
  {
    if i == |cs| then ParallelAllEnd(n, skipped, t)
    else
      match AskKid(n, cs, i, w, t)
      case Threw => Threw
      case Done(n1, answer, t1) =>
        ParallelAllLoop(n1, cs, i + 1, if answer == Skipped then skipped + 1 else skipped, w, t1)
  }

  function ParallelAllEnd(n: Node, skipped: nat, t: Log): Outcome
    requires n.kind.ParallelAll?
  {
    var count := |n.children|;
    if skipped == count then Done(n, Skipped, t)
    else if skipped + |n.memo.completed| >= count then
      Done(n.(memo := ClearedMemo(n.kind, n.memo), children := ResetAll(n.children)),
           if n.memo.failures >= Threshold(n.kind.maxFailures, count) then Failure else Success, t)
    else Done(n, Running, t)
  }

  function WhileTick(n: Node, w: World, t: Log): Outcome
    requires n.kind.WhileDoElse?
    decreases n, 1
  {
    var cs := n.children;
    if |cs| != 2 && |cs| != 3 then Threw
    else
      match ExecuteTick(cs[0], w, Noted(cs[0], t))
      case Threw => Threw
      case Done(c, answer, t1) =>
        var n1 := n.(status := Running, children := cs[0 := c]);
        if answer == Running then Done(n1, Running, t1)
        else if answer == Success then
          var n2 := if |cs| == 3 then n1.(children := n1.children[2 := ResetChild(cs[2])]) else n1;
          WhileBranch(n2, 1, ExecuteTick(cs[1], w, Noted(cs[1], t1)))
        else if answer == Failure && |cs| == 3 then
          WhileBranch(n1.(children := n1.children[1 := ResetChild(cs[1])]), 2, ExecuteTick(cs[2], w, Noted(cs[2], t1)))
        else
          // with two children a failed condition is the answer; a skipped one leaves Idle as the answer
          Done(n1.(children := ResetAll(n1.children)), if answer == Failure then Failure else Idle, t1)
  }

  /** The end of a WhileDoElse tick, once branch `i` has been ticked. */
  function WhileBranch(n: Node, i: nat, o: Outcome): Outcome
    requires i < |n.children|
  {
    if o.Threw? then Threw
    else
      var n1 := n.(children := n.children[i := o.node]);
      if o.answer == Running then Done(n1, Running, o.log)
      else Done(n1.(children := ResetAll(n1.children)), o.answer, o.log)
  }

  function IfTick(n: Node, w: World, t: Log): Outcome
    requires n.kind.IfThenElse?
    decreases n, 1
  {
    var cs := n.children;
    if |cs| != 2 && |cs| != 3 then Threw
    else if n.memo.idx > 0 then
      if n.memo.idx >= |cs| then Threw
      else IfBranch(n.(status := Running), ExecuteTick(cs[n.memo.idx], w, Noted(cs[n.memo.idx], t)))
    else
      match ExecuteTick(cs[0], w, Noted(cs[0], t))
      case Threw => Threw
      case Done(c, answer, t1) =>
        match IfChoose(n.(status := Running, children := cs[0 := c]), answer, t1)
        case Stop(o) => o
        case Next(n1, _) => IfBranch(n1, ExecuteTick(cs[n1.memo.idx], w, Noted(cs[n1.memo.idx], t1)))
  }

  /** The condition has answered: which branch is it? */
  function IfChoose(n: Node, answer: Status, t: Log): (v: Visit)
    requires 2 <= |n.children| <= 3
    ensures v.Next? ==> 0 < v.node.memo.idx < |n.children| == |v.node.children|
  {
    match answer
    case Running => Stop(Done(n, Running, t))
    case Success => Next(n.(memo := n.memo.(idx := 1)), 0)
    case Failure => if |n.children| == 3 then Next(n.(memo := n.memo.(idx := 2)), 0) else Stop(Done(n, Failure, t))
    case _ => Stop(Threw)
  }

  /** The end of an IfThenElse tick, once the chosen branch has been ticked. */
  function IfBranch(n: Node, o: Outcome): Outcome
    requires n.memo.idx < |n.children|
  {
    if o.Threw? then Threw
    else
      var n1 := n.(children := n.children[n.memo.idx := o.node]);
      if o.answer == Running then Done(n1, Running, o.log)
      else Done(n1.(children := ResetAll(n1.children), memo := n.memo.(idx := 0)), o.answer, o.log)
  }

  function DecoratorTick(n: Node, w: World, t: Log): Outcome
    requires n.kind.Decorator?
    decreases n, 1
  {
    if |n.children| != 1 then Threw
    else
      match ExecuteTick(n.children[0], w, Noted(n.children[0], t))
      case Threw => Threw
      case Done(c, answer, t1) => Done(n.(children := [c]), Translate(n.kind, answer), t1)
  }

  // ---------------------------------------------------------------- the tree

  /** `haltNode` on every node, parents before children. */
  ghost function Sweep(n: Node): (r: Node)
    decreases Fresh(n)
  {
    HaltFresh(n);
    var h := Halt(n);
    assert forall i | 0 <= i < |h.children| :: Fresh(h.children[i]) == Fresh(h).children[i];
    h.(children := seq(|h.children|, i requires 0 <= i < |h.children| => Sweep(h.children[i])))
  }

  lemma SweepUnfolds(n: Node)
    ensures var s, h := Sweep(n), Halt(n);
            s == h.(children := s.children) && |s.children| == |h.children| == |n.children| &&
            forall i | 0 <= i < |s.children| :: s.children[i] == Sweep(h.children[i])
  {
  }

  /** `Tree::haltTree`: halt from the root, sweep over all nodes to be sure, reset the root. */
  ghost function HaltTree(n: Node): Node {
    Sweep(Halt(n)).(status := Idle)
  }

  datatype TickOption = ExactlyOnce | OnceUnlessWokenUp | WhileRunning

  datatype RootOutcome = RootThrew | StillRunning | Returned(root: Node, answer: Status, log: Log)

  /** `Tree::tickRoot`, given up after `fuel` ticks of the root. While the root is running, a pending
      wake-up signal makes the once-only option tick again. */
  function TickRoot(opt: TickOption, n: Node, w: World, t: Log, fuel: nat): RootOutcome
    decreases fuel
  {
    if fuel == 0 then StillRunning
    else
      match ExecuteTick(n, w, Noted(n, t))
      case Threw => RootThrew
      case Done(n1, answer, t1) =>
        if answer == Running && opt != ExactlyOnce then
          var t2 := t1 + [Listened];
          if w.reply(t2).holds || opt == WhileRunning then TickRoot(opt, n1, w, t2, fuel - 1)
          else Returned(n1, Running, t2)
        else if IsCompleted(answer) then Returned(n1.(status := Idle), answer, t1)
        else Returned(n1, answer, t1)
  }
}
