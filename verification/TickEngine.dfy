/** The tick engine as it runs: node objects that tick, halt and reset one another in place. Every
    method is proved to do what the functions of `TickModel` say. */
module TickEngine {
  import opened NodeTypes
  import opened TickModel
  import opened FallbackRuns
  import opened Quiescence
  import opened Restart

  datatype Result = Thrown | Answered(answer: Status, log: Log)

  class TreeNode {
    // fixed when the tree is built
    const uid: nat
    const kind: Kind
    const pre: PreConditions
    const children: seq<TreeNode>
    ghost const Below: set<TreeNode>
    ghost const Repr: set<TreeNode>
    ghost const height: nat

    // what ticks and halts change
    var status: Status
    var currentChild: nat
    var skippedCount: nat
    var completed: set<nat>
    var successCount: nat
    var failureCount: nat
    var runningChild: int

    /** The objects form a tree. Nothing here changes after construction, so this reads no state. */
    ghost predicate WellFormed()
      decreases height
    {
      this !in Below && Repr == Below + {this} &&
      (forall i | 0 <= i < |children| ::
         children[i].Repr <= Below && children[i].height < height && children[i].WellFormed()) &&
      (forall i, j | 0 <= i < j < |children| :: children[i].Repr !! children[j].Repr)
    }

    function MemoNow(): Memo
      reads this
    {
      Memo(currentChild, skippedCount, completed, successCount, failureCount, runningChild)
    }

    /** The first `k` children as values. */
    ghost function Kids(k: nat): (s: seq<Node>)
      requires WellFormed() && k <= |children|
      reads Below
      ensures |s| == k && forall j | 0 <= j < k :: s[j] == children[j].Model()
      decreases height, k
    {
      if k == 0 then [] else Kids(k - 1) + [children[k - 1].Model()]
    }

    /** The tree of objects as a value. */
    ghost function Model(): Node
      requires WellFormed()
      reads Repr
      decreases height, |children| + 1
    {
      Node(uid, kind, pre, status, MemoNow(), Kids(|children|))
    }

    ghost predicate Agrees(o: Outcome, r: Result)
      requires WellFormed()
      reads Repr
    {
      if o.Threw? then r.Thrown? else r == Answered(o.answer, o.log) && Model() == o.node
    }

    constructor (uid: nat, kind: Kind, pre: PreConditions, children: seq<TreeNode>, ghost height: nat)
      requires forall i | 0 <= i < |children| :: children[i].WellFormed() && children[i].height < height
      requires forall i, j | 0 <= i < j < |children| :: children[i].Repr !! children[j].Repr
      ensures WellFormed() && fresh(this) && this.uid == uid && this.kind == kind && this.pre == pre
      ensures this.children == children
      ensures status == Idle && MemoNow() == BLANK
      ensures Below == set c, o | c in children && o in c.Repr :: o
    {
      this.uid, this.kind, this.pre, this.children, this.height := uid, kind, pre, children, height;
      status, currentChild, skippedCount, completed := Idle, 0, 0, {};
      successCount, failureCount, runningChild := 0, 0, -1;
      var below := set c, o | c in children && o in c.Repr :: o;
      Below := below;
      Repr := below + {this};
      new;
      assert forall i | 0 <= i < |children| :: children[i] in children;
    }

    /** Everything below but the subtree of child `i` is as it was. */
    twostate lemma ChildChanged(i: nat)
      requires WellFormed() && i < |children|
      requires forall o | o in Below && o !in children[i].Repr :: unchanged(o)
      ensures Kids(|children|) == old(Kids(|children|))[i := children[i].Model()]
    {
      forall j | 0 <= j < |children| && j != i
        ensures children[j].Model() == old(children[j].Model())
      {
        assert children[j].Repr !! children[i].Repr;
      }
    }

    // -------------------------------------------------------------- status and halting

    method ResetStatus()
      modifies this`status
      ensures status == Idle
    {
      status := Idle;
    }

    method HaltChild(i: nat)
      requires WellFormed() && i < |children|
      modifies children[i].Repr
      ensures children[i].Model() == ResetChild(old(children[i].Model()))
      ensures Model() == old(Model()).(children := old(Model()).children[i := ResetChild(old(Model()).children[i])])
      decreases height, 0
    {
      var child := children[i];
      if child.status == Running {
        child.HaltNode();
      }
      child.ResetStatus();
      ChildChanged(i);
    }

    method ResetChildren()
      requires WellFormed()
      modifies Below
      ensures Model() == old(Model()).(children := ResetAll(old(Model()).children))
      decreases height, 1
    {
      var i := 0;
      ghost var was := Kids(|children|);
      while i < |children|
        invariant i <= |children|
        invariant Model() == old(Model()).(children := Kids(|children|))
        invariant forall j | 0 <= j < |children| :: Kids(|children|)[j] == if j < i then ResetChild(was[j]) else was[j]
      {
        HaltChild(i);
        i := i + 1;
      }
    }

    method HaltNode()
      requires WellFormed()
      modifies Repr
      ensures Model() == Halt(old(Model()))
      decreases height, 2
    {
      Forget();
      ResetChildren();
      ResetStatus();
    }

    /** The part of `halt` that each kind of node adds. */
    method Forget()
      modifies this
      ensures MemoNow() == ClearedMemo(kind, old(MemoNow())) && status == old(status)
    {
      match kind {
        case Leaf =>
        case Fallback(_) => currentChild, skippedCount := 0, 0;
        case ReactiveFallback => runningChild := -1;
        case Parallel(_, _) => Clear();
        case ParallelAll(_) => completed, failureCount := {}, 0;
        case WhileDoElse =>
        case IfThenElse => currentChild := 0;
        case Decorator(_, _, _, _) =>
      }
    }

    method Clear()
      modifies this`completed, this`successCount, this`failureCount
      ensures completed == {} && successCount == 0 && failureCount == 0
    {
      completed := {};
      successCount := 0;
      failureCount := 0;
    }

    /** Store an answer; true if the engine refuses it. */
    method SetStatus(newStatus: Status) returns (refused: bool)
      modifies this`status
      ensures refused <==> newStatus == Idle
      ensures status == if refused then old(status) else newStatus
    {
      refused := newStatus == Idle;
      if !refused {
        status := newStatus;
      }
    }

    // -------------------------------------------------------------- one tick

    method CheckPreConditions(w: World, t: Log) returns (c: PreCheck)
      requires WellFormed()
      modifies Repr
      ensures c == CheckFrom(uid, pre, old(status), 0, w, t)
      ensures Model() == if c.Override? && c.halts then Halt(old(Model())) else old(Model())
      decreases height, 3
    {
      var index, log := 0, t;
      while index < 4
        invariant index <= 4 && CheckFrom(uid, pre, status, index, w, log) == CheckFrom(uid, pre, old(status), 0, w, t)
        invariant Model() == old(Model())
      {
        if pre.Present(index) {
          if status == Idle || status == Skipped {
            log := log + [Script(uid, index)];
            var holds := w.reply(log).holds;
            if holds && index == 0 {
              return Override(Failure, false, log);
            } else if holds && index == 1 {
              return Override(Success, false, log);
            } else if holds && index == 2 {
              return Override(Skipped, false, log);
            } else if !holds && index == 3 {
              return Override(Skipped, false, log);
            }
          } else if status == Running && index == 3 {
            log := log + [Script(uid, index)];
            var holds := w.reply(log).holds;
            if !holds {
              HaltNode();
              return Override(Skipped, true, log);
            }
          }
        }
        index := index + 1;
      }
      return Proceed(log);
    }

    method ExecuteTick(w: World, t: Log) returns (r: Result)
      requires WellFormed()
      modifies Repr
      ensures Agrees(TickModel.ExecuteTick(old(Model()), w, t), r)
      decreases height, 8
    {
      var c := CheckPreConditions(w, t);
      if c.Override? {
        r := Keep(Answered(c.answer, c.log));
      } else {
        r := Tick(w, c.log);
        r := Keep(r);
      }
      UnstickChild();
    }

    /** Store the answer of a tick, unless it is Skipped. */
    method Keep(r: Result) returns (kept: Result)
      requires WellFormed()
      modifies this`status
      ensures r.Thrown? ==> kept.Thrown?
      ensures r.Answered? ==> Agrees(Store(old(Model()), r.answer, r.log), kept)
    {
      kept := r;
      if r.Answered? && r.answer != Skipped {
        var refused := SetStatus(r.answer);
        if refused {
          kept := Thrown;
        }
      }
    }

    /** `DecoratorNode::executeTick` resets a child that has completed. */
    method UnstickChild()
      requires WellFormed()
      modifies Below
      ensures Model() == Unstick(old(Model()))
    {
      if kind.Decorator? && |children| == 1 {
        var child := children[0];
        if child.status == Success || child.status == Failure {
          child.ResetStatus();
          ChildChanged(0);
          assert Kids(1) == [children[0].Model()];
        }
      }
    }

    method Tick(w: World, t: Log) returns (r: Result)
      requires WellFormed()
      modifies Repr
      ensures Agrees(TickModel.Tick(old(Model()), w, t), r)
      decreases height, 7
    {
      match kind {
        case Leaf => r := Answered(w.reply(t).answer, t);
        case Fallback(_) => r := TickFallback(w, t);
        case ReactiveFallback => r := TickReactive(w, t);
        case Parallel(_, _) => r := TickParallel(w, t);
        case ParallelAll(_) => r := TickParallelAll(w, t);
        case WhileDoElse => r := TickWhile(w, t);
        case IfThenElse => r := TickIf(w, t);
        case Decorator(_, _, _, _) => r := TickDecorator(w, t);
      }
    }

    /** `child->executeTick()`, and what it means for this node. */
    method TickChild(i: nat, w: World, t: Log) returns (r: Result)
      requires WellFormed() && i < |children|
      modifies children[i].Repr
      ensures var c := old(children[i].Model()); children[i].Agrees(TickModel.ExecuteTick(c, w, Noted(c, t)), r)
      ensures Model() == old(Model()).(children := old(Model()).children[i := children[i].Model()])
      decreases height, 0
    {
      r := children[i].ExecuteTick(w, t + [Ticked(children[i].uid)]);
      ChildChanged(i);
    }

    method TickFallback(w: World, t: Log) returns (r: Result)
      requires WellFormed() && kind.Fallback?
      modifies Repr
      ensures Agrees(FallbackTick(old(Model()), w, t), r)
      decreases height, 5
    {
      hide TickModel.ExecuteTick, FallbackVisit, FallbackEnd, ResetAll;
      ghost var cs := Kids(|children|);
      ghost var spec := FallbackTick(Model(), w, t);
      if !IsActive(status) {
        skippedCount := 0;
      }
      status := Running;
      var log := t;
      while currentChild < |children|
        invariant spec == FallbackLoop(Model(), cs, w, log) && |cs| == |children|
        invariant forall j | currentChild <= j < |children| :: children[j].Model() == cs[j]
        decreases |children| - currentChild
      {
        var stop;
        stop, r, log := StepFallback(cs, w, log);
        if stop {
          return;
        }
      }
      r := EndFallback(log);
    }

    /** One round of the loop of a fallback. */
    method StepFallback(ghost cs: seq<Node>, w: World, t: Log) returns (stop: bool, r: Result, log: Log)
      requires WellFormed() && kind.Fallback? && currentChild < |children| == |cs|
      requires children[currentChild].Model() == cs[currentChild]
      modifies Repr
      ensures stop ==> Agrees(FallbackLoop(old(Model()), cs, w, t), r)
      ensures !stop ==> FallbackLoop(Model(), cs, w, log) == FallbackLoop(old(Model()), cs, w, t)
      ensures !stop ==> currentChild == old(currentChild) + 1
      ensures !stop ==> forall j | currentChild <= j < |children| :: children[j].Model() == old(children[j].Model())
      decreases height, 4
    {
      var prev := children[currentChild].status;
      var c := TickChild(currentChild, w, t);
      if c.Thrown? {
        return true, Thrown, t;
      }
      log := c.log;
      stop, r := VisitFallback(prev, c.answer, w, log);
    }

    ghost predicate Went(v: Visit, stop: bool, r: Result)
      requires WellFormed()
      reads Repr
    {
      match v
      case Stop(o) => stop && Agrees(o, r)
      case Next(n, _) => !stop && Model() == n
    }

    method VisitFallback(prev: Status, answer: Status, w: World, log: Log) returns (stop: bool, r: Result)
      requires WellFormed() && kind.Fallback?
      modifies Repr
      ensures Went(FallbackVisit(old(Model()), prev, answer, w, log), stop, r)
      ensures !stop ==> currentChild == old(currentChild) + 1 && unchanged(Below)
      decreases height, 3
    {
      hide TickModel.ExecuteTick, ResetAll, Kids;
      stop, r := false, Thrown;
      match answer {
        case Running =>
          return true, Answered(Running, log);
        case Success =>
          ResetChildren();
          currentChild := 0;
          return true, Answered(Success, log);
        case Failure =>
          currentChild := currentChild + 1;
          if kind.asynch && w.wakeUp && prev == Idle && currentChild < |children| {
            return true, Answered(Running, log);
          }
        case Skipped =>
          currentChild := currentChild + 1;
          skippedCount := skippedCount + 1;
        case Idle =>
          return true, Thrown;
      }
    }

    method EndFallback(log: Log) returns (r: Result)
      requires WellFormed()
      modifies Repr
      ensures Agrees(FallbackEnd(old(Model()), log), r)
      decreases height, 3
    {
      var allSkipped := skippedCount == |children|;
      if currentChild == |children| {
        ResetChildren();
        currentChild := 0;
        skippedCount := 0;
      }
      return Answered(if allSkipped then Skipped else Failure, log);
    }

    method TickReactive(w: World, t: Log) returns (r: Result)
      requires WellFormed() && kind.ReactiveFallback?
      modifies Repr
      ensures Agrees(ReactiveTick(old(Model()), w, t), r)
      decreases height, 6
    {
      hide TickModel.ExecuteTick, ReactiveVisit;
      ghost var cs := Kids(|children|);
      ghost var spec := ReactiveTick(Model(), w, t);
      var allSkipped := true;
      if status == Idle {
        runningChild := -1;
      }
      status := Running;
      var log, index := t, 0;
      while index < |children|
        invariant index <= |children| == |cs|
        invariant spec == ReactiveLoop(Model(), cs, index, allSkipped, w, log)
        invariant forall j | index <= j < |children| :: children[j].Model() == cs[j]
      {
        var stop;
        stop, r, allSkipped, log := StepReactive(cs, index, allSkipped, w, log);
        if stop {
          return;
        }
        index := index + 1;
      }
      ResetChildren();
      return Answered(if allSkipped then Skipped else Failure, log);
    }

    method StepReactive(ghost cs: seq<Node>, i: nat, allSkipped: bool, w: World, t: Log)
      returns (stop: bool, r: Result, allSkipped1: bool, log: Log)
      requires WellFormed() && kind.ReactiveFallback? && i < |children| == |cs| && children[i].Model() == cs[i]
      modifies Repr
      ensures stop ==> Agrees(ReactiveLoop(old(Model()), cs, i, allSkipped, w, t), r)
      ensures !stop ==>
              ReactiveLoop(Model(), cs, i + 1, allSkipped1, w, log) ==
                ReactiveLoop(old(Model()), cs, i, allSkipped, w, t)
      ensures !stop ==> forall j | i < j < |children| :: children[j].Model() == old(children[j].Model())
      decreases height, 5
    {
      var c := TickChild(i, w, t);
      if c.Thrown? {
        return true, Thrown, allSkipped, t;
      }
      log := c.log;
      allSkipped1 := allSkipped && c.answer == Skipped;
      stop, r := VisitReactive(i, c.answer, w, log);
    }

    method VisitReactive(index: nat, answer: Status, w: World, log: Log) returns (stop: bool, r: Result)
      requires WellFormed() && kind.ReactiveFallback? && index < |children|
      modifies Repr
      ensures Went(ReactiveVisit(old(Model()), index, answer, w, log), stop, r)
      ensures !stop ==> forall o | o in Below && o !in children[index].Repr :: unchanged(o)
      decreases height, 4
    {
      stop, r := false, Thrown;
      match answer {
        case Running =>
          stop := true;
          r := HaltOthers(index, w, log);
        case Failure =>
        case Success =>
          ResetChildren();
          return true, Answered(Success, log);
        case Skipped =>
          HaltChild(index);
        case Idle =>
          return true, Thrown;
      }
    }

    /** The answer Running of child `index` to a reactive fallback. */
    method HaltOthers(index: nat, w: World, log: Log) returns (r: Result)
      requires WellFormed() && index < |children|
      modifies Repr
      ensures Agrees(ReactiveRunning(old(Model()), index, w, log), r)
      decreases height, 3
    {
      HaltAllBut(index);
      if runningChild == -1 {
        runningChild := index;
      } else if w.singleRunning && runningChild != index {
        return Thrown;
      }
      return Answered(Running, log);
    }

    method HaltAllBut(index: nat)
      requires WellFormed() && index < |children|
      modifies Below
      ensures var cs := old(Model()).children;
              Model() == old(Model()).(children := ResetAll(cs)[index := cs[index]])
      decreases height, 1
    {
      ghost var was := Kids(|children|);
      var i := 0;
      while i < |children|
        invariant i <= |children|
        invariant Model() == old(Model()).(children := Kids(|children|))
        invariant forall j | 0 <= j < |children| ::
          Kids(|children|)[j] == if j < i && j != index then ResetChild(was[j]) else was[j]
      {
        if i != index {
          HaltChild(i);
        }
        i := i + 1;
      }
    }

    method TickParallel(w: World, t: Log) returns (r: Result)
      requires WellFormed() && kind.Parallel?
      modifies Repr
      ensures Agrees(ParallelTick(old(Model()), w, t), r)
      decreases height, 4
    {
      hide AskKid, ParallelJudge, TickModel.ExecuteTick, ResetAll, Threshold, CountKid;
      ghost var cs := Kids(|children|);
      var required := Threshold(kind.successAt, |children|);
      if |children| < required {
        return Thrown;
      }
      if |children| < Threshold(kind.failureAt, |children|) {
        return Thrown;
      }
      ghost var spec := ParallelTick(Model(), w, t);
      status := Running;
      var log, skipped, i := t, 0, 0;
      while i < |children|
        invariant i <= |children| == |cs|
        invariant spec == ParallelLoop(Model(), cs, i, skipped, w, log)
        invariant forall j | i <= j < |children| :: children[j].Model() == cs[j]
      {
        var stop;
        stop, r, skipped, log := StepParallel(cs, i, required, skipped, w, log);
        if stop {
          return;
        }
        i := i + 1;
      }
      return Answered(if skipped == |children| then Skipped else Running, log);
    }

    /** One round of the loop of a parallel node. */
    method StepParallel(ghost cs: seq<Node>, i: nat, required: nat, skipped: nat, w: World, t: Log)
      returns (stop: bool, r: Result, skipped1: nat, log: Log)
      requires WellFormed() && kind.Parallel? && required == Threshold(kind.successAt, |children|)
      requires i < |children| == |cs| && children[i].Model() == cs[i]
      modifies Repr
      ensures stop ==> Agrees(ParallelLoop(old(Model()), cs, i, skipped, w, t), r)
      ensures !stop ==>
              ParallelLoop(Model(), cs, i + 1, skipped1, w, log) == ParallelLoop(old(Model()), cs, i, skipped, w, t)
      ensures !stop ==> forall j | i < j < |children| :: children[j].Model() == old(children[j].Model())
      decreases height, 3
    {
      hide TickModel.ExecuteTick, AskKid, ParallelJudge, Kids, ResetAll, CountKid;
      AsksOneChild(Model(), cs, i, w, t);
      skipped1, log := skipped, t;
      var c := Ask(i, w, t);
      if c.Thrown? {
        return true, Thrown, skipped1, log;
      }
      log := c.log;
      if c.answer == Skipped {
        skipped1 := skipped + 1;
      }
      stop, r := Judge(required, skipped1, log);
    }

    /** Tick child `i` unless it has finished, and note whether it has now. */
    method Ask(i: nat, w: World, t: Log) returns (r: Result)
      requires WellFormed() && i < |children| && (kind.Parallel? || kind.ParallelAll?)
      modifies this`completed, this`successCount, this`failureCount, children[i].Repr
      ensures Agrees(AskKid(old(Model()), old(Model()).children, i, w, t), r)
      ensures forall j | 0 <= j < |children| && j != i :: children[j].Model() == old(children[j].Model())
      decreases height, 2
    {
      hide TickModel.ExecuteTick;
      if i in completed {
        return Answered(Idle, t);
      }
      r := TickChild(i, w, t);
      if r.Answered? {
        if r.answer == Idle {
          return Thrown;
        }
        Tally(i, r.answer);
      }
    }

    /** Note that child `i` has finished, if it has. */
    method Tally(i: nat, answer: Status)
      requires WellFormed()
      modifies this`completed, this`successCount, this`failureCount
      ensures Model() == CountKid(old(Model()), i, answer)
    {
      match answer {
        case Success =>
          completed := completed + {i};
          if kind.Parallel? {
            successCount := successCount + 1;
          }
        case Failure =>
          completed := completed + {i};
          failureCount := failureCount + 1;
        case _ =>
      }
    }

    method Judge(required: nat, skipped: nat, log: Log) returns (stop: bool, r: Result)
      requires WellFormed() && kind.Parallel? && required == Threshold(kind.successAt, |children|)
      modifies Repr
      ensures Went(ParallelJudge(old(Model()), skipped, log), stop, r)
      ensures !stop ==> unchanged(Repr)
      decreases height, 2
    {
      stop, r := false, Thrown;
      if successCount >= required || (kind.successAt < 0 && successCount + skipped >= required) {
        Clear();
        ResetChildren();
        return true, Answered(Success, log);
      }
      if |children| - failureCount < required || failureCount == Threshold(kind.failureAt, |children|) {
        Clear();
        ResetChildren();
        return true, Answered(Failure, log);
      }
    }

    method TickParallelAll(w: World, t: Log) returns (r: Result)
      requires WellFormed() && kind.ParallelAll?
      modifies Repr
      ensures Agrees(ParallelAllTick(old(Model()), w, t), r)
      decreases height, 4
    {
      ghost var cs := Kids(|children|);
      ghost var spec := ParallelAllTick(Model(), w, t);
      var limit := Threshold(kind.maxFailures, |children|);
      var skipped := 0;
      if |children| < limit {
        return Thrown;
      }
      status := Running;
      var log, index := t, 0;
      while index < |children|
        invariant index <= |children| == |cs|
        invariant spec == ParallelAllLoop(Model(), cs, index, skipped, w, log)
        invariant forall j | index <= j < |children| :: children[j].Model() == cs[j]
      {
        var threw;
        threw, skipped, log := StepParallelAll(cs, index, skipped, w, log);
        if threw {
          return Thrown;
        }
        index := index + 1;
      }
      r := EndParallelAll(skipped, limit, log);
    }

    method StepParallelAll(
      ghost cs: seq<Node>, i: nat, skipped: nat, w: World, t: Log)
      returns (threw: bool, skipped1: nat, log: Log)
      requires WellFormed() && kind.ParallelAll? && i < |children| == |cs| && children[i].Model() == cs[i]
      modifies Repr
      ensures threw ==> ParallelAllLoop(old(Model()), cs, i, skipped, w, t).Threw?
      ensures !threw ==>
              ParallelAllLoop(Model(), cs, i + 1, skipped1, w, log) ==
                ParallelAllLoop(old(Model()), cs, i, skipped, w, t)
      ensures !threw ==> forall j | i < j < |children| :: children[j].Model() == old(children[j].Model())
      decreases height, 3
    {
      skipped1, log := skipped, t;
      var c := Ask(i, w, t);
      threw := c.Thrown?;
      if !threw {
        log := c.log;
        if c.answer == Skipped {
          skipped1 := skipped + 1;
        }
      }
    }

    method EndParallelAll(skipped: nat, limit: nat, log: Log) returns (r: Result)
      requires WellFormed() && kind.ParallelAll? && limit == Threshold(kind.maxFailures, |children|)
      modifies Repr
      ensures Agrees(ParallelAllEnd(old(Model()), skipped, log), r)
      decreases height, 3
    {
      if skipped == |children| {
        return Answered(Skipped, log);
      }
      if skipped + |completed| >= |children| {
        ResetChildren();
        completed := {};
        var answer := if failureCount >= limit then Failure else Success;
        failureCount := 0;
        return Answered(answer, log);
      }
      return Answered(Running, log);
    }

    method TickWhile(w: World, t: Log) returns (r: Result)
      requires WellFormed() && kind.WhileDoElse?
      modifies Repr
      ensures Agrees(WhileTick(old(Model()), w, t), r)
      decreases height, 4
    {
      hide TickModel.ExecuteTick, WhileBranch, ResetChild, ResetAll, Kids;
      if |children| != 2 && |children| != 3 {
        return Thrown;
      }
      ghost var cs := Kids(|children|);
      status := Running;
      var c := TickChild(0, w, t);
      if c.Thrown? {
        return Thrown;
      }
      if c.answer == Running {
        return c;
      }
      if c.answer == Success {
        if |children| == 3 {
          HaltChild(2);
        }
        assert Model().children[1] == cs[1];
        r := TickAndReset(1, w, c.log);
      } else if c.answer == Failure && |children| == 3 {
        HaltChild(1);
        assert Model().children[2] == cs[2];
        r := TickAndReset(2, w, c.log);
      } else {
        // with two children a failed condition is the answer; a skipped one leaves Idle as the answer
        ResetChildren();
        return Answered(if c.answer == Failure then Failure else Idle, c.log);
      }
    }

    /** Tick branch `i`; unless it keeps running, the children are reset. */
    method TickAndReset(i: nat, w: World, log: Log) returns (r: Result)
      requires WellFormed() && i < |children|
      modifies Below
      ensures var c := old(Model()).children[i];
              Agrees(WhileBranch(old(Model()), i, TickModel.ExecuteTick(c, w, Noted(c, log))), r)
      decreases height, 3
    {
      r := TickChild(i, w, log);
      if r.Answered? && r.answer != Running {
        ResetChildren();
      }
    }

    method TickIf(w: World, t: Log) returns (r: Result)
      requires WellFormed() && kind.IfThenElse?
      modifies Repr
      ensures Agrees(IfTick(old(Model()), w, t), r)
      decreases height, 4
    {
      hide TickModel.ExecuteTick, IfChoose, IfBranch, ResetAll, Kids;
      if |children| != 2 && |children| != 3 {
        return Thrown;
      }
      ghost var cs := Kids(|children|);
      status := Running;
      var log := t;
      if currentChild == 0 {
        r := TickChild(0, w, t);
        if r.Thrown? {
          return;
        }
        log := r.log;
        var stop;
        stop, r := Choose(r.answer, log);
        if stop {
          return;
        }
      }
      if currentChild >= |children| {
        return Thrown;
      }
      assert Model().children[currentChild] == cs[currentChild];
      r := TickBranch(w, log);
    }

    /** The condition of an IfThenElse has answered. */
    method Choose(answer: Status, log: Log) returns (stop: bool, r: Result)
      requires WellFormed() && 2 <= |children| <= 3
      modifies this`currentChild
      ensures Went(IfChoose(old(Model()), answer, log), stop, r)
      ensures Model().children == old(Model()).children
    {
      stop, r := answer != Success && !(answer == Failure && |children| == 3), Thrown;
      if answer == Success {
        currentChild := 1;
      } else if answer == Failure && |children| == 3 {
        currentChild := 2;
      } else if answer == Running || answer == Failure {
        r := Answered(answer, log);
      }
    }

    method TickBranch(w: World, log: Log) returns (r: Result)
      requires WellFormed() && currentChild < |children|
      modifies Repr
      ensures var c := old(Model()).children[old(currentChild)];
              Agrees(IfBranch(old(Model()), TickModel.ExecuteTick(c, w, Noted(c, log))), r)
      decreases height, 3
    {
      hide TickModel.ExecuteTick, ResetAll, Kids;
      ghost var n := Model();
      assert n.children[currentChild] == children[currentChild].Model();
      r := TickChild(currentChild, w, log);
      if r.Answered? && r.answer != Running {
        ResetChildren();
        currentChild := 0;
      }
    }

    method TickDecorator(w: World, t: Log) returns (r: Result)
      requires WellFormed() && kind.Decorator?
      modifies Repr
      ensures Agrees(DecoratorTick(old(Model()), w, t), r)
      decreases height, 4
    {
      if |children| != 1 {
        return Thrown;
      }
      var c := TickChild(0, w, t);
      if c.Thrown? {
        return Thrown;
      }
      assert Kids(1) == [children[0].Model()];
      return Answered(Translate(kind, c.answer), c.log);
    }

    /** `applyRecursiveVisitor` with `haltNode` as the visitor. */
    method HaltEverywhere()
      requires WellFormed()
      modifies Repr
      ensures Model() == Sweep(old(Model()))
      decreases height, 9
    {
      hide Sweep, Halt, Kids;
      SweepUnfolds(Model());
      HaltNode();
      VisitChildren();
    }

    method VisitChildren()
      requires WellFormed()
      modifies Below
      ensures var n := old(Model());
              Model() == n.(children := Model().children) && |Model().children| == |n.children| &&
              forall j | 0 <= j < |n.children| :: Model().children[j] == Sweep(n.children[j])
      decreases height, 1
    {
      hide Sweep;
      var i := 0;
      ghost var was := Kids(|children|);
      while i < |children|
        invariant i <= |children|
        invariant Model() == old(Model()).(children := Kids(|children|))
        invariant forall j | 0 <= j < |children| :: Kids(|children|)[j] == if j < i then Sweep(was[j]) else was[j]
      {
        VisitChild(i);
        i := i + 1;
      }
    }

    method VisitChild(i: nat)
      requires WellFormed() && i < |children|
      modifies children[i].Repr
      ensures Model() == old(Model()).(children := old(Model()).children[i := Sweep(old(Model()).children[i])])
      decreases height, 0
    {
      hide Sweep;
      children[i].HaltEverywhere();
      ChildChanged(i);
    }
  }

  datatype RootResult = RootThrown | GaveUp | Answer(answer: Status, log: Log)

  class Tree {
    const root: TreeNode

    constructor (root: TreeNode)
      ensures this.root == root
    {
      this.root := root;
    }

    /** The tree is quiet and its memories are in order. */
    ghost predicate Orderly()
      requires root.WellFormed()
      reads root.Repr
    {
      Tame(root.Model()) && Settled(root.Model()) && Quiet(root.Model())
    }

    method HaltTree()
      requires root.WellFormed()
      modifies root.Repr
      ensures root.Model() == TickModel.HaltTree(old(root.Model()))
      ensures old(Orderly()) ==> Orderly() && Clean(root.Model(), old(root.Model()))
    {
      hide Tame, Settled, Quiet, Clean, Sweep, Halt;
      ghost var n := root.Model();
      root.HaltNode();
      root.HaltEverywhere();
      root.ResetStatus();
      if Tame(n) && Settled(n) && Quiet(n) {
        HaltKeepsQuiet(n);
      }
    }

    ghost predicate Reached(o: RootOutcome, r: RootResult)
      requires root.WellFormed()
      reads root, root.Repr
    {
      match o
      case RootThrew => r.RootThrown?
      case StillRunning => r.GaveUp?
      case Returned(n, answer, log) => r == Answer(answer, log) && root.Model() == n
    }

    /** What is still due of the call, once the root has been ticked with the result `c`. */
    ghost predicate Due(whole: RootOutcome, opt: TickOption, c: Result, woken: bool, w: World, t: Log, left: nat)
      requires root.WellFormed()
      reads root.Repr
    {
      if c.Thrown? then whole == RootThrew
      else if woken then whole == TickModel.TickRoot(opt, root.Model(), w, t, left)
      else c.answer != Idle && whole == AfterTick(opt, root.Model(), c.answer, w, t, left)
    }

    /** One tick of the root, and a look for a wake-up signal. */
    method TickAndListen(
      opt: TickOption, w: World, t: Log, ghost left: nat)
      returns (c: Result, woken: bool, log: Log)
      requires root.WellFormed()
      modifies root.Repr
      ensures Due(TickModel.TickRoot(opt, old(root.Model()), w, t, left + 1), opt, c, woken, w, log, left)
    {
      ghost var n := root.Model();
      woken, log := false, t;
      c := root.ExecuteTick(w, t + [Ticked(root.uid)]);
      if c.Answered? {
        AnswerNotIdle(n, w, Noted(n, t));
        log := c.log;
        if opt != ExactlyOnce && c.answer == Running {
          log := log + [Listened];
          woken := w.reply(log).holds;
        }
      }
    }

    /** Tick, and tick again as long as a wake-up signal is pending. */
    method TickWhileWoken(
      opt: TickOption, w: World, t: Log, fuel: nat)
      returns (c: Result, log: Log, left: nat, gaveUp: bool)
      requires root.WellFormed() && fuel > 0
      modifies root.Repr
      ensures gaveUp ==> TickModel.TickRoot(opt, old(root.Model()), w, t, fuel) == StillRunning
      ensures !gaveUp ==>
              left < fuel && Due(TickModel.TickRoot(opt, old(root.Model()), w, t, fuel), opt, c, false, w, log, left)
    {
      hide TickModel.ExecuteTick, TreeNode.Kids, TreeNode.Model, TreeNode.WellFormed;
      ghost var whole := TickModel.TickRoot(opt, root.Model(), w, t, fuel);
      var woken;
      gaveUp, left := false, fuel - 1;
      c, woken, log := TickAndListen(opt, w, t, left);
      while c.Answered? && woken
        invariant left < fuel
        invariant Due(whole, opt, c, woken, w, log, left)
        decreases left
      {
        if left == 0 {
          gaveUp := true;
          return;
        }
        left := left - 1;
        c, woken, log := TickAndListen(opt, w, log, left);
      }
    }

    method TickRoot(opt: TickOption, w: World, t: Log, fuel: nat) returns (r: RootResult)
      requires root.WellFormed()
      modifies root.Repr
      ensures Reached(TickModel.TickRoot(opt, old(root.Model()), w, t, fuel), r)
      ensures old(Orderly()) && r.Answer? ==> Orderly()
      ensures old(Orderly()) && r.Answer? && IsCompleted(r.answer) ==> Clean(root.Model(), old(root.Model()))
    {
      hide TickModel.ExecuteTick, Clean, TreeNode.Kids, Tame, Settled, Quiet, Fresh;
      if Orderly() {
        RunKeepsQuiet(opt, root.Model(), w, t, fuel);
        CompletedRunIsClean(opt, root.Model(), w, t, fuel);
      }
      ghost var spec := TickModel.TickRoot(opt, root.Model(), w, t, fuel);
      var answer, log, left := Idle, t, fuel;
      while answer == Idle || (opt == WhileRunning && answer == Running)
        invariant if answer == Idle || (opt == WhileRunning && answer == Running)
                  then spec == TickModel.TickRoot(opt, root.Model(), w, log, left)
                  else spec == Returned(root.Model(), answer, log)
        decreases left
      {
        if left == 0 {
          return GaveUp;
        }
        var c, gaveUp;
        c, log, left, gaveUp := TickWhileWoken(opt, w, log, left);
        if gaveUp {
          return GaveUp;
        }
        if c.Thrown? {
          return RootThrown;
        }
        answer := c.answer;
        if IsCompleted(answer) {
          root.ResetStatus();
        }
      }
      return Answer(answer, log);
    }
  }

  /** Asking a child looks at that child alone. */
  lemma AsksOneChild(n: Node, cs: seq<Node>, i: nat, w: World, t: Log)
    requires |n.children| == |cs| && i < |cs| && n.children[i] == cs[i]
    ensures AskKid(n, n.children, i, w, t) == AskKid(n, cs, i, w, t)
  {
  }

  /** What is left to do once no wake-up signal is pending. */
  ghost function AfterTick(opt: TickOption, n: Node, answer: Status, w: World, t: Log, left: nat): RootOutcome {
    if answer == Running && opt == WhileRunning then TickModel.TickRoot(opt, n, w, t, left)
    else if IsCompleted(answer) then Returned(n.(status := Idle), answer, t)
    else Returned(n, answer, t)
  }
}
