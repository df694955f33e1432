/** Halting is complete: in every tree of well-behaved nodes, a node that does not store Running
    has only Idle nodes below it. Hence a halt leaves the whole tree Idle. */
module Quiescence {
  import opened NodeTypes
  import opened TickModel

  ghost predicate AllIdle(n: Node) {
    n.status == Idle && forall i | 0 <= i < |n.children| :: AllIdle(n.children[i])
  }

  ghost predicate Asleep(cs: seq<Node>) {
    forall i | 0 <= i < |cs| :: AllIdle(cs[i])
  }

  /** Quiescence: only below a node storing Running can anything be other than Idle. */
  ghost predicate Quiet(n: Node) {
    (n.status == Running || Asleep(n.children)) && forall i | 0 <= i < |n.children| :: Quiet(n.children[i])
  }

  /** The functors of decorators for which quiescence holds: wherever a child may be left storing Running, the
      answer is Running (or Idle, which the engine refuses). A leaf that skips has not started to run. */
  predicate TameTable(k: Kind, overLeaf: bool)
    requires k.Decorator?
  {
    (k.onRunning == Running || k.onRunning == Idle) &&
    (k.onSkipped == Running || k.onSkipped == Idle || (k.onSkipped == Skipped && overLeaf))
  }

  /** The shapes for which quiescence holds: an IfThenElse has three children, and decorators are tame. */
  predicate TameNode(n: Node) {
    (n.kind.Leaf? ==> |n.children| == 0) &&
    (n.kind.IfThenElse? ==> |n.children| == 3) &&
    (n.kind.Decorator? ==> |n.children| == 1 && TameTable(n.kind, n.children[0].kind.Leaf?))
  }

  predicate Tame(n: Node) {
    TameNode(n) && forall i | 0 <= i < |n.children| :: Tame(n.children[i])
  }

  /** The memory of a node that does not store Running is as it was when the node was built, except
      for fields that are rewritten before they are next read; the counters of the parallel nodes
      always count the completed set. */
  ghost predicate MemoOk(k: Kind, s: Status, m: Memo, count: nat) {
    match k
    case Leaf => true
    case Fallback(_) => m.idx <= count && (s != Running ==> m.idx == 0) && (count < 2 ==> m.skipped <= m.idx)
    case ReactiveFallback => m.runningChild == -1 || 0 <= m.runningChild < count
    case Parallel(_, _) =>
      (forall i | i in m.completed :: i < count) && m.successes + m.failures == |m.completed| &&
      (s != Running ==> m.completed == {})
    case ParallelAll(_) =>
      (forall i | i in m.completed :: i < count) && m.failures <= |m.completed| &&
      (s != Running ==> m.completed == {})
    case WhileDoElse => true
    case IfThenElse => m.idx <= 2 && (m.idx == 2 ==> count == 3) && (s != Running ==> m.idx == 0)
    case Decorator(_, _, _, _) => true
  }

  ghost predicate Settled(n: Node) {
    MemoOk(n.kind, n.status, n.memo, |n.children|) && forall i | 0 <= i < |n.children| :: Settled(n.children[i])
  }

  /** The invariant of every reachable tree. The `strict` part is quiescence, claimed of tame trees. */
  ghost predicate SoundNode(n: Node, strict: bool) {
    MemoOk(n.kind, n.status, n.memo, |n.children|) &&
    (strict ==> TameNode(n) && (n.status == Running || Asleep(n.children)))
  }

  ghost predicate Sound(n: Node, strict: bool) {
    SoundNode(n, strict) && forall i | 0 <= i < |n.children| :: Sound(n.children[i], strict)
  }

  ghost predicate SoundKids(cs: seq<Node>, strict: bool) {
    forall i | 0 <= i < |cs| :: Sound(cs[i], strict)
  }

  lemma {:induction false} SoundMeans(n: Node, strict: bool)
    ensures Sound(n, strict) <==> Settled(n) && (strict ==> Tame(n) && Quiet(n))
  {
    forall i | 0 <= i < |n.children|
      ensures Sound(n.children[i], strict) <==>
              Settled(n.children[i]) && (strict ==> Tame(n.children[i]) && Quiet(n.children[i]))
    {
      SoundMeans(n.children[i], strict);
    }
  }

  // ---------------------------------------------------------------- building

  lemma {:induction false} FreshIsSound(n: Node, strict: bool)
    requires strict ==> Tame(n)
    ensures Sound(Fresh(n), strict) && AllIdle(Fresh(n))
  {
    forall i | 0 <= i < |n.children|
      ensures Sound(Fresh(n).children[i], strict) && AllIdle(Fresh(n).children[i])
    {
      FreshIsSound(n.children[i], strict);
    }
    if n.kind.Decorator? && |n.children| == 1 {
      assert Fresh(n).children[0] == Fresh(n.children[0]);
      assert |FreshKids(n.children[0].children)| == |n.children[0].children|;
    }
  }

  // ---------------------------------------------------------------- halting

  lemma {:induction false} HaltSound(n: Node, strict: bool)
    requires Sound(n, strict)
    ensures Sound(Halt(n), strict) && Fresh(Halt(n)) == Fresh(n) && Halt(n).status == Idle
    ensures strict ==> AllIdle(Halt(n))
    decreases n, 1
  {
    ResetAllSound(n.children, strict);
    if n.kind.Decorator? && |n.children| == 1 {
      assert Fresh(ResetAll(n.children)[0]) == FreshKids(n.children)[0] == Fresh(n.children[0]);
      assert |FreshKids(ResetAll(n.children)[0].children)| == |FreshKids(n.children[0].children)|;
    }
  }

  lemma {:induction false} ResetSound(c: Node, strict: bool)
    requires Sound(c, strict)
    ensures Sound(ResetChild(c), strict) && Fresh(ResetChild(c)) == Fresh(c)
    ensures strict ==> AllIdle(ResetChild(c))
    decreases c, 2
  {
    if c.status == Running {
      HaltSound(c, strict);
    }
  }

  lemma {:induction false} ResetAllSound(cs: seq<Node>, strict: bool)
    requires SoundKids(cs, strict)
    ensures SoundKids(ResetAll(cs), strict) && FreshKids(ResetAll(cs)) == FreshKids(cs)
    ensures strict ==> Asleep(ResetAll(cs))
    decreases cs, 0
  {
    var rs := ResetAll(cs);
    forall i | 0 <= i < |cs|
      ensures Sound(rs[i], strict) && Fresh(rs[i]) == Fresh(cs[i]) && (strict ==> AllIdle(rs[i]))
    {
      ResetSound(cs[i], strict);
    }
    assert forall i | 0 <= i < |cs| :: FreshKids(rs)[i] == FreshKids(cs)[i];
  }

  // ---------------------------------------------------------------- ticking

  /** What a tick of a control node hands to `Store`: still marked Running, and fit to be stored
      with its answer. */
  ghost predicate SoundTick(n: Node, o: Outcome, strict: bool) {
    o.Threw? ||
    (o.node.status == Running && Fresh(o.node) == Fresh(n) && Sound(o.node, strict) &&
     (IsCompleted(o.answer) ==> SoundNode(o.node.(status := o.answer), strict)))
  }

  lemma {:induction false} CheckAnswers(uid: nat, pre: PreConditions, s: Status, index: nat, w: World, t: Log)
    requires index <= 4
    ensures var c := CheckFrom(uid, pre, s, index, w, t);
            c.Override? ==> (c.answer == Skipped && (c.halts ==> s == Running)) ||
                            (IsCompleted(c.answer) && !c.halts && (s == Idle || s == Skipped))
    decreases 4 - index
  {
    if index < 4 {
      CheckAnswers(uid, pre, s, index + 1, w, t);
      CheckAnswers(uid, pre, s, index + 1, w, t + [Script(uid, index)]);
    }
  }

  lemma {:induction false} NoScripts(uid: nat, pre: PreConditions, s: Status, index: nat, w: World, t: Log)
    requires pre.None() && index <= 4
    ensures CheckFrom(uid, pre, s, index, w, t) == Proceed(t)
    decreases 4 - index
  {
    if index < 4 {
      NoScripts(uid, pre, s, index + 1, w, t);
    }
  }

  /** What `executeTick` hands to the parent. */
  ghost predicate SoundOutcome(n: Node, o: Outcome, strict: bool) {
    o.Threw? ||
    (Sound(o.node, strict) && Fresh(o.node) == Fresh(n) && o.answer != Idle &&
     (IsCompleted(o.answer) ==> o.node.status == o.answer))
  }

  /** One tick keeps the invariant, whatever the world answers. */
  lemma {:induction false} ExecuteTickSound(n: Node, w: World, t: Log, strict: bool)
    requires Sound(n, strict)
    ensures SoundOutcome(n, ExecuteTick(n, w, t), strict)
    decreases n, 3
  {
    match CheckFrom(n.uid, n.pre, n.status, 0, w, t)
    case Override(_, _, _) => OverrideSound(n, w, t, strict);
    case Proceed(t1) =>
      if n.kind.Decorator? {
        DecoratorSound(n, w, t1, strict);
      } else if n.kind.Leaf? {
        LeafSound(n, w, t1, strict);
      } else {
        TickSound(n, w, t1, strict);
        StoreSound(n, Tick(n, w, t1), strict);
      }
  }

  lemma OverrideSound(n: Node, w: World, t: Log, strict: bool)
    requires Sound(n, strict) && CheckFrom(n.uid, n.pre, n.status, 0, w, t).Override?
    ensures SoundOutcome(n, ExecuteTick(n, w, t), strict)
  {
    CheckAnswers(n.uid, n.pre, n.status, 0, w, t);
    var c := CheckFrom(n.uid, n.pre, n.status, 0, w, t);
    HaltSound(n, strict);
    UnstickSound(if c.halts then Halt(n) else n, strict);
    if IsCompleted(c.answer) {
      UnstickSound(n.(status := c.answer), strict);
    }
  }

  lemma LeafSound(n: Node, w: World, t: Log, strict: bool)
    requires Sound(n, strict) && n.kind.Leaf?
    ensures SoundOutcome(n, Finish(StoreOutcome(Tick(n, w, t))), strict)
  {
  }

  lemma StoreSound(n: Node, o: Outcome, strict: bool)
    requires SoundTick(n, o, strict) && !n.kind.Decorator?
    ensures SoundOutcome(n, Finish(StoreOutcome(o)), strict)
  {
    assert Fresh(n).kind == n.kind;
    if o.Done? {
      assert Fresh(o.node).kind == o.node.kind;
    }
  }

  lemma UnstickSound(n: Node, strict: bool)
    requires Sound(n, strict)
    ensures Sound(Unstick(n), strict) && Fresh(Unstick(n)) == Fresh(n) && Unstick(n).status == n.status
  {
    if n.kind.Decorator? && |n.children| == 1 && IsCompleted(n.children[0].status) {
      assert Unstick(n).children == n.children[0 := n.children[0].(status := Idle)];
      FreshUpdate(n.children, 0, n.children[0].(status := Idle));
    }
  }

  lemma SetKid(n: Node, i: nat, c: Node, strict: bool)
    requires Sound(n, strict) && n.status == Running && !n.kind.Decorator?
    requires i < |n.children| && Sound(c, strict) && Fresh(c) == Fresh(n.children[i])
    ensures var n1 := n.(children := n.children[i := c]); Sound(n1, strict) && Fresh(n1) == Fresh(n)
  {
    FreshUpdate(n.children, i, c);
  }

  lemma ResetKids(n: Node, m: Memo, strict: bool)
    requires Sound(n, strict) && n.status == Running && !n.kind.Decorator?
    requires MemoOk(n.kind, Success, m, |n.children|)
    ensures var n1 := n.(children := ResetAll(n.children), memo := m);
            Sound(n1, strict) && Fresh(n1) == Fresh(n) && forall s :: SoundNode(n1.(status := s), strict)
  {
    ResetAllSound(n.children, strict);
  }

  lemma {:induction false} TickSound(n: Node, w: World, t: Log, strict: bool)
    requires Sound(n, strict) && !n.kind.Leaf? && !n.kind.Decorator?
    ensures SoundTick(n, Tick(n, w, t), strict)
    decreases n, 2
  {
    var r := n.(status := Running);
    match n.kind
    case Fallback(_) =>
      var memo := if IsActive(n.status) then n.memo else n.memo.(skipped := 0);
      FallbackSound(r.(memo := memo), n.children, w, t, strict);
    case ReactiveFallback =>
      var memo := if n.status == Idle then n.memo.(runningChild := -1) else n.memo;
      ReactiveSound(r.(memo := memo), n.children, 0, true, w, t, strict);
    case Parallel(_, _) => ParallelSound(r, n.children, 0, 0, w, t, strict);
    case ParallelAll(_) => ParallelAllSound(r, n.children, 0, 0, w, t, strict);
    case WhileDoElse => WhileSound(n, w, t, strict);
    case IfThenElse => IfSound(n, w, t, strict);
  }

  lemma {:induction false} FallbackSound(n: Node, cs: seq<Node>, w: World, t: Log, strict: bool)
    requires n.kind.Fallback? && Sound(n, strict) && n.status == Running
    requires SoundKids(cs, strict) && FreshKids(cs) == FreshKids(n.children)
    ensures SoundTick(n, FallbackLoop(n, cs, w, t), strict)
    decreases cs, |cs| - n.memo.idx
  {
    hide ExecuteTick, FallbackVisit;
    var i := n.memo.idx;
    if i >= |cs| {
      ResetKids(n, n.memo.(idx := 0, skipped := 0), strict);
    } else {
      ExecuteTickSound(cs[i], w, Noted(cs[i], t), strict);
      var o := ExecuteTick(cs[i], w, Noted(cs[i], t));
      if o.Done? {
        assert FreshKids(cs)[i] == FreshKids(n.children)[i];
        SetKid(n, i, o.node, strict);
        var n1 := n.(children := n.children[i := o.node]);
        FallbackVisitSound(n1, cs[i].status, o.answer, w, o.log, strict);
        var v := FallbackVisit(n1, cs[i].status, o.answer, w, o.log);
        if v.Next? {
          FallbackSound(v.node, cs, w, o.log, strict);
        }
      }
    }
  }

  lemma FallbackVisitSound(n: Node, prev: Status, answer: Status, w: World, t: Log, strict: bool)
    requires n.kind.Fallback? && Sound(n, strict) && n.status == Running && n.memo.idx < |n.children|
    ensures var v := FallbackVisit(n, prev, answer, w, t);
            if v.Stop? then SoundTick(n, v.outcome, strict)
            else Sound(v.node, strict) && v.node.status == Running && v.node.kind == n.kind &&
                 Fresh(v.node) == Fresh(n) &&
                 |v.node.children| == |n.children| && v.node.memo.idx == n.memo.idx + 1
  {
    ResetKids(n, n.memo.(idx := 0), strict);
  }

  lemma {:induction false} ReactiveSound(
    n: Node, cs: seq<Node>, i: nat, allSkipped: bool, w: World, t: Log, strict: bool)
    requires n.kind.ReactiveFallback? && Sound(n, strict) && n.status == Running && i <= |cs|
    requires SoundKids(cs, strict) && FreshKids(cs) == FreshKids(n.children)
    ensures SoundTick(n, ReactiveLoop(n, cs, i, allSkipped, w, t), strict)
    decreases cs, |cs| - i
  {
    if i == |cs| {
      ResetKids(n, n.memo, strict);
    } else {
      ExecuteTickSound(cs[i], w, Noted(cs[i], t), strict);
      var o := ExecuteTick(cs[i], w, Noted(cs[i], t));
      if o.Done? {
        assert FreshKids(cs)[i] == FreshKids(n.children)[i];
        SetKid(n, i, o.node, strict);
        var n1 := n.(children := n.children[i := o.node]);
        ReactiveVisitSound(n1, i, o.answer, w, o.log, strict);
        var v := ReactiveVisit(n1, i, o.answer, w, o.log);
        if v.Next? {
          ReactiveSound(v.node, cs, i + 1, allSkipped && o.answer == Skipped, w, o.log, strict);
        }
      }
    }
  }

  lemma ReactiveVisitSound(n: Node, i: nat, answer: Status, w: World, t: Log, strict: bool)
    requires n.kind.ReactiveFallback? && Sound(n, strict) && n.status == Running && i < |n.children|
    ensures var v := ReactiveVisit(n, i, answer, w, t);
            if v.Stop? then SoundTick(n, v.outcome, strict)
            else Sound(v.node, strict) && v.node.status == Running && v.node.kind == n.kind && Fresh(v.node) == Fresh(n)
  {
    if answer == Running {
      ReactiveRunningSound(n, i, w, t, strict);
    }
    ResetKids(n, n.memo, strict);
    ResetOther(n, i, strict);
  }

  lemma ReactiveRunningSound(n: Node, i: nat, w: World, t: Log, strict: bool)
    requires n.kind.ReactiveFallback? && Sound(n, strict) && n.status == Running && i < |n.children|
    ensures SoundTick(n, ReactiveRunning(n, i, w, t), strict)
  {
    ResetAllSound(n.children, strict);
    assert FreshKids(ResetAll(n.children))[i] == FreshKids(n.children)[i];
    FreshUpdate(ResetAll(n.children), i, n.children[i]);
  }

  lemma {:induction false} ParallelSound(n: Node, cs: seq<Node>, i: nat, skipped: nat, w: World, t: Log, strict: bool)
    requires n.kind.Parallel? && Sound(n, strict) && n.status == Running && i <= |cs|
    requires SoundKids(cs, strict) && FreshKids(cs) == FreshKids(n.children)
    ensures SoundTick(n, ParallelLoop(n, cs, i, skipped, w, t), strict)
    decreases cs, |cs| - i
  {
    if i < |cs| {
      AskSound(n, cs, i, w, t, strict);
      var o := AskKid(n, cs, i, w, t);
      if o.Done? {
        var skipped1 := if o.answer == Skipped then skipped + 1 else skipped;
        JudgeSound(o.node, skipped1, o.log, strict);
        ParallelSound(o.node, cs, i + 1, skipped1, w, o.log, strict);
      }
    }
  }

  lemma {:induction false} AskSound(n: Node, cs: seq<Node>, i: nat, w: World, t: Log, strict: bool)
    requires (n.kind.Parallel? || n.kind.ParallelAll?) && Sound(n, strict) && n.status == Running
    requires SoundKids(cs, strict) && FreshKids(cs) == FreshKids(n.children) && i < |cs|
    ensures var o := AskKid(n, cs, i, w, t);
            o.Done? ==> Sound(o.node, strict) && Fresh(o.node) == Fresh(n) && o.node.status == Running &&
                        FreshKids(cs) == FreshKids(o.node.children)
    decreases cs, 0
  {
    if i !in n.memo.completed {
      ExecuteTickSound(cs[i], w, Noted(cs[i], t), strict);
      var o := ExecuteTick(cs[i], w, Noted(cs[i], t));
      if o.Done? {
        assert FreshKids(cs)[i] == FreshKids(n.children)[i];
        CountSound(n, i, o.node, o.answer, strict);
      }
    }
  }

  lemma CountSound(n: Node, i: nat, c: Node, answer: Status, strict: bool)
    requires (n.kind.Parallel? || n.kind.ParallelAll?) && Sound(n, strict) && n.status == Running
    requires i !in n.memo.completed
    requires i < |n.children| && Sound(c, strict) && Fresh(c) == Fresh(n.children[i])
    ensures var n1 := CountKid(n.(children := n.children[i := c]), i, answer);
            Sound(n1, strict) && Fresh(n1) == Fresh(n) && n1.status == Running && n1.kind == n.kind
  {
    SetKid(n, i, c, strict);
  }

  lemma JudgeSound(n: Node, skipped: nat, t: Log, strict: bool)
    requires n.kind.Parallel? && Sound(n, strict) && n.status == Running
    ensures var v := ParallelJudge(n, skipped, t);
            v.Stop? ==> SoundTick(n, v.outcome, strict)
  {
    ResetKids(n, ClearedMemo(n.kind, n.memo), strict);
  }

  lemma {:induction false} ParallelAllSound(
    n: Node, cs: seq<Node>, i: nat, skipped: nat, w: World, t: Log, strict: bool)
    requires n.kind.ParallelAll? && Sound(n, strict) && n.status == Running && i <= |cs|
    requires SoundKids(cs, strict) && FreshKids(cs) == FreshKids(n.children)
    ensures SoundTick(n, ParallelAllLoop(n, cs, i, skipped, w, t), strict)
    decreases cs, |cs| - i
  {
    if i == |cs| {
      ParallelAllEndSound(n, skipped, t, strict);
    } else {
      AskSound(n, cs, i, w, t, strict);
      var o := AskKid(n, cs, i, w, t);
      if o.Done? {
        ParallelAllSound(o.node, cs, i + 1, if o.answer == Skipped then skipped + 1 else skipped, w, o.log, strict);
      }
    }
  }

  lemma ParallelAllEndSound(n: Node, skipped: nat, t: Log, strict: bool)
    requires n.kind.ParallelAll? && Sound(n, strict) && n.status == Running
    ensures SoundTick(n, ParallelAllEnd(n, skipped, t), strict)
  {
    ResetKids(n, ClearedMemo(n.kind, n.memo), strict);
  }

  /** A tick of child `i` followed by a change of nothing else keeps the invariant of a running node. */
  lemma {:induction false} KidTicked(n: Node, i: nat, w: World, t: Log, strict: bool)
    requires Sound(n, strict) && !n.kind.Decorator? && i < |n.children|
    ensures var o := ExecuteTick(n.children[i], w, Noted(n.children[i], t));
            o.Done? ==> var n1 := n.(status := Running, children := n.children[i := o.node]);
                        Sound(n1, strict) && Fresh(n1) == Fresh(n) && o.answer != Idle
    decreases n, 0
  {
    ExecuteTickSound(n.children[i], w, Noted(n.children[i], t), strict);
    var o := ExecuteTick(n.children[i], w, Noted(n.children[i], t));
    if o.Done? {
      SetKid(n.(status := Running), i, o.node, strict);
    }
  }

  lemma {:induction false} WhileSound(n: Node, w: World, t: Log, strict: bool)
    requires n.kind.WhileDoElse? && Sound(n, strict)
    ensures SoundTick(n, WhileTick(n, w, t), strict)
    decreases n, 1
  {
    var cs := n.children;
    if |cs| == 2 || |cs| == 3 {
      KidTicked(n, 0, w, t, strict);
      var o := ExecuteTick(cs[0], w, Noted(cs[0], t));
      if o.Done? {
        var n1 := n.(status := Running, children := cs[0 := o.node]);
        ResetKids(n1, n.memo, strict);
        if o.answer == Success {
          ResetOther(n1, 2, strict);
          var n2 := if |cs| == 3 then n1.(children := n1.children[2 := ResetChild(cs[2])]) else n1;
          ExecuteTickSound(cs[1], w, Noted(cs[1], o.log), strict);
          WhileBranchSound(n2, 1, ExecuteTick(cs[1], w, Noted(cs[1], o.log)), strict);
        } else if o.answer == Failure && |cs| == 3 {
          ResetOther(n1, 1, strict);
          ExecuteTickSound(cs[2], w, Noted(cs[2], o.log), strict);
          WhileBranchSound(n1.(children := n1.children[1 := ResetChild(cs[1])]), 2,
                           ExecuteTick(cs[2], w, Noted(cs[2], o.log)), strict);
        }
      }
    }
  }

  lemma ResetOther(n: Node, i: nat, strict: bool)
    requires Sound(n, strict) && n.status == Running && !n.kind.Decorator?
    ensures i < |n.children| ==>
              var n1 := n.(children := n.children[i := ResetChild(n.children[i])]);
              Sound(n1, strict) && Fresh(n1) == Fresh(n)
  {
    if i < |n.children| {
      ResetSound(n.children[i], strict);
      SetKid(n, i, ResetChild(n.children[i]), strict);
    }
  }

  lemma {:induction false} WhileBranchSound(n: Node, i: nat, o: Outcome, strict: bool)
    requires n.kind.WhileDoElse? && Sound(n, strict) && n.status == Running && i < |n.children|
    requires o.Done? ==> Sound(o.node, strict) && Fresh(o.node) == Fresh(n.children[i])
    ensures SoundTick(n, WhileBranch(n, i, o), strict)
  {
    if o.Done? {
      SetKid(n, i, o.node, strict);
      ResetKids(n.(children := n.children[i := o.node]), n.memo, strict);
    }
  }

  lemma {:induction false} IfSound(n: Node, w: World, t: Log, strict: bool)
    requires n.kind.IfThenElse? && Sound(n, strict)
    ensures SoundTick(n, IfTick(n, w, t), strict)
    decreases n, 1
  {
    var cs := n.children;
    if |cs| == 2 || |cs| == 3 {
      if n.memo.idx > 0 {
        if n.memo.idx < |cs| {
          ExecuteTickSound(cs[n.memo.idx], w, Noted(cs[n.memo.idx], t), strict);
          IfBranchSound(n.(status := Running), ExecuteTick(cs[n.memo.idx], w, Noted(cs[n.memo.idx], t)), strict);
        }
      } else {
        KidTicked(n, 0, w, t, strict);
        var o := ExecuteTick(cs[0], w, Noted(cs[0], t));
        if o.Done? {
          var n1 := n.(status := Running, children := cs[0 := o.node]);
          if o.answer == Success {
            ExecuteTickSound(cs[1], w, Noted(cs[1], o.log), strict);
            IfBranchSound(n1.(memo := n.memo.(idx := 1)), ExecuteTick(cs[1], w, Noted(cs[1], o.log)), strict);
          } else if o.answer == Failure && |cs| == 3 {
            ExecuteTickSound(cs[2], w, Noted(cs[2], o.log), strict);
            IfBranchSound(n1.(memo := n.memo.(idx := 2)), ExecuteTick(cs[2], w, Noted(cs[2], o.log)), strict);
          }
        }
      }
    }
  }

  lemma IfBranchSound(n: Node, o: Outcome, strict: bool)
    requires n.kind.IfThenElse? && Sound(n, strict) && n.status == Running && n.memo.idx < |n.children|
    requires o.Done? ==> Sound(o.node, strict) && Fresh(o.node) == Fresh(n.children[n.memo.idx])
    ensures SoundTick(n, IfBranch(n, o), strict)
  {
    if o.Done? {
      SetKid(n, n.memo.idx, o.node, strict);
      ResetKids(n.(children := n.children[n.memo.idx := o.node]), n.memo.(idx := 0), strict);
    }
  }

  lemma AnswerNotIdle(n: Node, w: World, t: Log)
    ensures var o := ExecuteTick(n, w, t); o.Done? ==> o.answer != Idle
  {
    CheckAnswers(n.uid, n.pre, n.status, 0, w, t);
  }

  /** A leaf that answers Skipped is left as it was, or was halted by its own while-condition. */
  lemma SkippedLeaf(c: Node, w: World, t: Log)
    requires c.kind.Leaf?
    ensures var o := ExecuteTick(c, w, t);
            o.Done? && o.answer == Skipped ==> o.node.status == c.status || o.node.status == Idle
  {
    CheckAnswers(c.uid, c.pre, c.status, 0, w, t);
  }

  lemma {:induction false} DecoratorSound(n: Node, w: World, t: Log, strict: bool)
    requires n.kind.Decorator? && Sound(n, strict)
    ensures SoundOutcome(n, Finish(StoreOutcome(Tick(n, w, t))), strict)
    decreases n, 1
  {
    if |n.children| == 1 {
      var c := n.children[0];
      ExecuteTickSound(c, w, Noted(c, t), strict);
      if c.kind.Leaf? {
        SkippedLeaf(c, w, Noted(c, t));
      }
      var k := ExecuteTick(c, w, Noted(c, t));
      if k.Done? {
        assert [k.node] == n.children[0 := k.node];
        FreshUpdate(n.children, 0, k.node);
        assert Fresh(k.node).kind == Fresh(c).kind && |Fresh(k.node).children| == |Fresh(c).children|;
        var d := n.(children := [k.node]);
        assert Fresh(d) == Fresh(n) && (strict ==> TameNode(d));
        DecoratorEndSound(n, d, k, strict);
      }
    }
  }

  lemma DecoratorEndSound(n: Node, d: Node, k: Outcome, strict: bool)
    requires n.kind.Decorator? && Sound(n, strict) && |n.children| == 1
    requires k.Done? && SoundOutcome(n.children[0], k, strict)
    requires d == n.(children := [k.node]) && Fresh(d) == Fresh(n) && (strict ==> TameNode(d))
    requires n.children[0].kind.Leaf? && k.answer == Skipped ==>
               k.node.status == n.children[0].status || k.node.status == Idle
    ensures SoundOutcome(n, Finish(Store(d, Translate(n.kind, k.answer), k.log)), strict)
  {
    var o := Store(d, Translate(n.kind, k.answer), k.log);
    if o.Done? {
      var u := Unstick(o.node);
      var kid := if IsCompleted(k.node.status) then k.node.(status := Idle) else k.node;
      assert u.children == [kid] && Sound(kid, strict);
      assert [kid] == d.children[0 := kid];
      FreshUpdate(d.children, 0, kid);
      assert Fresh(k.node).kind == Fresh(n.children[0]).kind;
      if strict && u.status != Running {
        assert AllIdle(kid);
      }
    }
  }

  // ---------------------------------------------------------------- results

  /** A tick keeps quiescence in every tame tree, for every behaviour of leaves and scripts. */
  lemma TickKeepsQuiet(n: Node, w: World, t: Log)
    requires Tame(n) && Settled(n) && Quiet(n)
    ensures var o := ExecuteTick(n, w, t);
            o.Threw? || (Tame(o.node) && Settled(o.node) && Quiet(o.node))
  {
    SoundMeans(n, true);
    ExecuteTickSound(n, w, t, true);
    var o := ExecuteTick(n, w, t);
    if o.Done? {
      SoundMeans(o.node, true);
    }
  }

  /** The memory part of the invariant needs no assumption on the shape. */
  lemma TickKeepsSettled(n: Node, w: World, t: Log)
    requires Settled(n)
    ensures var o := ExecuteTick(n, w, t);
            o.Threw? || (Settled(o.node) && Fresh(o.node) == Fresh(n))
  {
    SoundMeans(n, false);
    ExecuteTickSound(n, w, t, false);
    var o := ExecuteTick(n, w, t);
    if o.Done? {
      SoundMeans(o.node, false);
    }
  }

  lemma {:induction false} HaltQuiets(n: Node)
    requires Quiet(n)
    ensures AllIdle(Halt(n))
  {
    forall i | 0 <= i < |n.children| ensures AllIdle(ResetChild(n.children[i])) {
      HaltQuiets(n.children[i]);
    }
  }

  lemma {:induction false} IdleIsQuiet(n: Node)
    requires AllIdle(n)
    ensures Quiet(n)
  {
    forall i | 0 <= i < |n.children| ensures Quiet(n.children[i]) {
      IdleIsQuiet(n.children[i]);
    }
  }

  /** Sweeping puts every node of any tree to sleep. */
  lemma {:induction false} SweepIdle(n: Node)
    ensures AllIdle(Sweep(n))
    decreases Fresh(n)
  {
    HaltFresh(n);
    var h := Halt(n);
    forall i | 0 <= i < |h.children| ensures AllIdle(Sweep(h.children[i])) {
      assert Fresh(h.children[i]) == Fresh(h).children[i];
      SweepIdle(h.children[i]);
    }
  }

  /** So `haltTree` does, whatever state the tree is in. */
  lemma HaltTreeIdles(n: Node)
    ensures AllIdle(HaltTree(n))
  {
    hide Sweep;
    SweepIdle(Halt(n));
  }

  ghost predicate SameStatuses(a: Node, b: Node) {
    a.status == b.status && |a.children| == |b.children| &&
    forall i | 0 <= i < |a.children| :: SameStatuses(a.children[i], b.children[i])
  }

  lemma {:induction false} IdleAlike(a: Node, b: Node)
    requires AllIdle(a) && AllIdle(b) && Fresh(a) == Fresh(b)
    ensures SameStatuses(a, b)
  {
    assert |Fresh(a).children| == |Fresh(b).children|;
    forall i | 0 <= i < |a.children| ensures SameStatuses(a.children[i], b.children[i]) {
      assert Fresh(a).children[i] == Fresh(b).children[i];
      IdleAlike(a.children[i], b.children[i]);
    }
  }

  lemma {:induction false} SweepFresh(n: Node)
    ensures Fresh(Sweep(n)) == Fresh(n)
    decreases Fresh(n)
  {
    HaltFresh(n);
    var h := Halt(n);
    var s := Sweep(n);
    forall i | 0 <= i < |h.children| ensures Fresh(s.children[i]) == Fresh(h.children[i]) {
      assert Fresh(h.children[i]) == Fresh(h).children[i];
      SweepFresh(h.children[i]);
    }
    assert FreshKids(s.children) == FreshKids(h.children);
  }

  /** The comment in `haltTree` is right for quiet trees: the halt of the root has put every node to
      sleep, and the second sweep changes no status. */
  lemma SecondSweepIsNoOp(n: Node)
    requires Quiet(n)
    ensures AllIdle(Halt(n)) && SameStatuses(Sweep(Halt(n)), Halt(n)) && AllIdle(HaltTree(n))
    ensures Fresh(HaltTree(n)) == Fresh(n)
  {
    HaltQuiets(n);
    SweepIdle(Halt(n));
    SweepFresh(Halt(n));
    HaltFresh(n);
    IdleAlike(Sweep(Halt(n)), Halt(n));
  }

  /** Where quiescence fails: an IfThenElse with two children keeps it in a tick exactly when the tick
      does not end with its condition answering Failure, for then the condition is not reset. */
  lemma TwoChildIfThenElse(n: Node, w: World, t: Log)
    requires n.kind.IfThenElse? && |n.children| == 2 && Sound(n, false) && SoundKids(n.children, true)
    requires n.status == Running || Asleep(n.children)
    ensures var o := ExecuteTick(n, w, t);
            var check := CheckFrom(n.uid, n.pre, n.status, 0, w, t);
            o.Done? ==>
              (Quiet(o.node) <==>
               !(check.Proceed? && n.memo.idx == 0 &&
                 var k := ExecuteTick(n.children[0], w, Noted(n.children[0], check.log));
                 k.Done? && k.answer == Failure))
  {
    hide ExecuteTick, Tick, CheckFrom, Halt;
    var o := ExecuteTick(n, w, t);
    CheckAnswers(n.uid, n.pre, n.status, 0, w, t);
    forall i | 0 <= i < 2 ensures Quiet(n.children[i]) {
      SoundMeans(n.children[i], true);
    }
    match CheckFrom(n.uid, n.pre, n.status, 0, w, t)
    case Override(_, _, _) => OverrideQuiets(n, w, t);
    case Proceed(t1) =>
      var r := n.(status := Running);
      Proceeds(n, w, t);
      if n.memo.idx == 1 {
        ExecuteTickSound(n.children[1], w, Noted(n.children[1], t1), true);
        TwoChildBranch(r, ExecuteTick(n.children[1], w, Noted(n.children[1], t1)));
      } else {
        ExecuteTickSound(n.children[0], w, Noted(n.children[0], t1), true);
        var k := ExecuteTick(n.children[0], w, Noted(n.children[0], t1));
        if k.Done? {
          SoundMeans(k.node, true);
          if k.answer == Success {
            ExecuteTickSound(n.children[1], w, Noted(n.children[1], k.log), true);
            TwoChildBranch(r.(children := n.children[0 := k.node], memo := n.memo.(idx := 1)),
                           ExecuteTick(n.children[1], w, Noted(n.children[1], k.log)));
          } else if k.answer == Failure {
            assert o == Done(n.(status := Failure, children := n.children[0 := k.node]), Failure, k.log);
            assert o.node.children[0].status == Failure;
          }
        }
      }
  }

  /** When a script answers for a node, the node is as it was, or halted. */
  lemma OverrideQuiets(n: Node, w: World, t: Log)
    requires CheckFrom(n.uid, n.pre, n.status, 0, w, t).Override? && (n.status == Running || Asleep(n.children))
    requires forall i | 0 <= i < |n.children| :: Quiet(n.children[i])
    ensures var o := ExecuteTick(n, w, t); o.Done? ==> Quiet(o.node)
  {
    CheckAnswers(n.uid, n.pre, n.status, 0, w, t);
    HaltQuiets(n);
    IdleIsQuiet(Halt(n));
  }

  lemma TwoChildBranch(n: Node, o: Outcome)
    requires n.kind.IfThenElse? && n.status == Running && |n.children| == 2 && n.memo.idx == 1
    requires SoundKids(n.children, true) && SoundOutcome(n.children[1], o, true)
    ensures var s := Finish(StoreOutcome(IfBranch(n, o)));
            s.Done? ==> Quiet(s.node)
  {
    if o.Done? {
      var n1 := n.(children := n.children[1 := o.node]);
      ResetAllSound(n1.children, true);
      forall c | c in n1.children || c in ResetAll(n1.children) ensures Quiet(c) {
        SoundMeans(c, true);
      }
    }
  }

  /** A node whose scripts let it be ticked. */
  lemma Proceeds(n: Node, w: World, t: Log)
    requires CheckFrom(n.uid, n.pre, n.status, 0, w, t).Proceed?
    ensures var t1 := CheckFrom(n.uid, n.pre, n.status, 0, w, t).log;
            ExecuteTick(n, w, t) == Finish(StoreOutcome(Tick(n, w, t1))) &&
            (n.kind.Decorator? ==> Tick(n, w, t1) == DecoratorTick(n, w, t1)) &&
            (n.kind.IfThenElse? ==> Tick(n, w, t1) == IfTick(n, w, t1)) &&
            (n.kind.WhileDoElse? ==> Tick(n, w, t1) == WhileTick(n, w, t1)) &&
            (n.kind.ReactiveFallback? ==> Tick(n, w, t1) == ReactiveTick(n, w, t1)) &&
            (n.kind.Fallback? ==> Tick(n, w, t1) == FallbackTick(n, w, t1))
  {
    hide CheckFrom, DecoratorTick, IfTick, WhileTick, ReactiveTick, FallbackTick;
  }

  lemma PlainProceeds(n: Node, w: World, t: Log)
    requires n.pre.None()
    ensures ExecuteTick(n, w, t) == Finish(StoreOutcome(Tick(n, w, t)))
    ensures n.kind.Leaf? ==> ExecuteTick(n, w, t) == Store(n, w.reply(t).answer, t)
    ensures n.kind.Decorator? ==> Tick(n, w, t) == DecoratorTick(n, w, t)
    ensures n.kind.IfThenElse? ==> Tick(n, w, t) == IfTick(n, w, t)
    ensures n.kind.WhileDoElse? ==> Tick(n, w, t) == WhileTick(n, w, t)
    ensures n.kind.Fallback? ==> Tick(n, w, t) == FallbackTick(n, w, t)
  {
    NoScripts(n.uid, n.pre, n.status, 0, w, t);
    Proceeds(n, w, t);
  }

  /** Does a decorator that stored `s` store Running once its child has answered? */
  predicate StaysRunning(k: Kind, s: Status, answer: Status)
    requires k.Decorator?
  {
    Translate(k, answer) == Running || (Translate(k, answer) == Skipped && s == Running)
  }

  /** Where the restriction on decorators comes from: whatever its functor is, a tick of a decorator keeps
      quiescence exactly when it does not leave a child Running under a decorator that does not store
      Running itself. */
  lemma DecoratorQuiets(n: Node, w: World, t: Log)
    requires n.kind.Decorator? && |n.children| == 1 && Sound(n.children[0], true)
    requires n.status == Running || AllIdle(n.children[0])
    ensures var o := ExecuteTick(n, w, t);
            var check := CheckFrom(n.uid, n.pre, n.status, 0, w, t);
            o.Done? ==>
              (Quiet(o.node) <==>
               !(check.Proceed? &&
                 var k := ExecuteTick(n.children[0], w, Noted(n.children[0], check.log));
                 k.Done? && k.node.status != Idle && !IsCompleted(k.node.status) &&
                 !StaysRunning(n.kind, n.status, k.answer)))
  {
    hide ExecuteTick, Tick, CheckFrom, Halt;
    CheckAnswers(n.uid, n.pre, n.status, 0, w, t);
    var c := n.children[0];
    SoundMeans(c, true);
    match CheckFrom(n.uid, n.pre, n.status, 0, w, t)
    case Override(_, _, _) => OverrideQuiets(n, w, t);
    case Proceed(t1) =>
      Proceeds(n, w, t);
      ExecuteTickSound(c, w, Noted(c, t1), true);
      var k := ExecuteTick(c, w, Noted(c, t1));
      if k.Done? {
        SoundMeans(k.node, true);
        var o := Finish(Store(n.(children := [k.node]), Translate(n.kind, k.answer), k.log));
        if o.Done? {
          var kid := if IsCompleted(k.node.status) then k.node.(status := Idle) else k.node;
          assert o.node.children == [kid] && Quiet(kid);
          assert Asleep(o.node.children) <==> AllIdle(kid);
        }
      }
  }

  const PLAIN: PreConditions := PreConditions(false, false, false, false)

  function NewNode(uid: nat, kind: Kind, children: seq<Node>): Node {
    Node(uid, kind, PLAIN, Idle, BLANK, children)
  }

  /** Was node `uid` the last to be ticked? */
  predicate JustTicked(l: Log, uid: nat) {
    l != [] && l[|l| - 1] == Ticked(uid)
  }

  /** A new fallback over two children: the first fails or skips, the second runs. */
  lemma SecondRuns(n: Node, first: Node, second: Node, w: World, t: Log)
    requires n == NewNode(n.uid, Fallback(false), [first, second])
    requires var o := ExecuteTick(first, w, Noted(first, t));
             o.Done? && (o.answer == Failure || o.answer == Skipped) && second.kind.Leaf? && second.pre.None() &&
             w.reply(Noted(second, o.log)).answer == Running
    ensures var o, r := ExecuteTick(first, w, Noted(first, t)), ExecuteTick(n, w, t);
            r.Done? && r.answer == Running && r.node.status == Running && r.node.kind == n.kind &&
            r.node.children == [o.node, second.(status := Running)]
  {
    hide ExecuteTick, Tick;
    var o := ExecuteTick(first, w, Noted(first, t));
    PlainProceeds(n, w, t);
    PlainProceeds(second, w, Noted(second, o.log));
    var n0 := n.(status := Running);
    var m := BLANK.(idx := 1, skipped := if o.answer == Skipped then 1 else 0);
    var n1 := n0.(children := [o.node, second], memo := m);
    assert n0.children[0 := o.node] == [o.node, second];
    assert FallbackLoop(n0, n.children, w, t) == FallbackLoop(n1, n.children, w, o.log);
    assert n1.children[1 := second.(status := Running)] == [o.node, second.(status := Running)];
  }

  /** What a halt of a running parent passes over is reset by the sweep after it. */
  lemma HaltPassesOver(n: Node)
    requires n.status == Running && |n.children| > 0 && |n.children[0].children| > 0
    requires n.children[0].status != Running && n.children[0].children[0].status != Idle
    ensures !Quiet(n) && !AllIdle(Halt(n)) && !SameStatuses(Sweep(Halt(n)), Halt(n))
  {
    var kid := n.children[0];
    assert !AllIdle(kid.children[0]);
    assert !Quiet(kid);
    assert Halt(n).children[0] == ResetAll(n.children)[0] == ResetChild(kid);
    SweepReaches(Halt(n));
  }

  /** A two-child IfThenElse under a fallback: after one tick and a halt of the root, the condition
      still stores Failure, and the second sweep of `haltTree` is what resets it. */
  lemma SecondSweepMatters()
    ensures var inner := NewNode(1, IfThenElse, [NewNode(2, Leaf, []), NewNode(3, Leaf, [])]);
            var tree := NewNode(0, Fallback(false), [inner, NewNode(4, Leaf, [])]);
            var world := World((l: Log) => Reply(if JustTicked(l, 2) then Failure else Running, false), true, false);
            var o := ExecuteTick(tree, world, [Ticked(0)]);
            o.Done? && o.answer == Running && !Quiet(o.node) &&
            !AllIdle(Halt(o.node)) && !SameStatuses(Sweep(Halt(o.node)), Halt(o.node))
  {
    hide ExecuteTick, Tick, Halt, Quiet, AllIdle, SameStatuses;
    var guard, branch, last := NewNode(2, Leaf, []), NewNode(3, Leaf, []), NewNode(4, Leaf, []);
    var inner := NewNode(1, IfThenElse, [guard, branch]);
    var tree := NewNode(0, Fallback(false), [inner, last]);
    var world := World((l: Log) => Reply(if JustTicked(l, 2) then Failure else Running, false), true, false);
    var t0 := [Ticked(0)];
    var t1 := Noted(inner, t0);
    PlainProceeds(guard, world, Noted(guard, t1));
    PlainProceeds(inner, world, t1);
    var failed := guard.(status := Failure);
    assert ExecuteTick(inner, world, t1) ==
           Done(inner.(status := Failure, children := [guard, branch][0 := failed]), Failure, Noted(guard, t1));
    SecondRuns(tree, inner, last, world, t0);
    HaltPassesOver(ExecuteTick(tree, world, t0).node);
  }

  /** A decorator that passes every answer on, over a fallback whose child skips: the fallback keeps Running
      stored, the decorator stays Idle, and a halt from above passes the two over. */
  lemma SkippedDecorator()
    ensures var inner := NewNode(2, Fallback(false), [NewNode(3, Leaf, [])]);
            var passing := NewNode(1, Decorator(Running, Success, Failure, Skipped), [inner]);
            var tree := NewNode(0, Fallback(false), [passing, NewNode(4, Leaf, [])]);
            var world := World((l: Log) => Reply(if JustTicked(l, 3) then Skipped else Running, false), true, false);
            var o := ExecuteTick(tree, world, [Ticked(0)]);
            o.Done? && o.answer == Running && !Quiet(o.node) &&
            !AllIdle(Halt(o.node)) && !SameStatuses(Sweep(Halt(o.node)), Halt(o.node))
  {
    hide ExecuteTick, Tick, Halt, Quiet, AllIdle, SameStatuses;
    var leaf, last := NewNode(3, Leaf, []), NewNode(4, Leaf, []);
    var inner := NewNode(2, Fallback(false), [leaf]);
    var passing := NewNode(1, Decorator(Running, Success, Failure, Skipped), [inner]);
    var tree := NewNode(0, Fallback(false), [passing, last]);
    var world := World((l: Log) => Reply(if JustTicked(l, 3) then Skipped else Running, false), true, false);
    var t0 := [Ticked(0)];
    var t1 := Noted(passing, t0);
    var t2 := Noted(inner, t1);
    OnlyChildSkips(inner, leaf, world, t2);
    PlainProceeds(passing, world, t1);
    assert ExecuteTick(passing, world, t1) ==
           Done(passing.(children := [inner.(status := Running)]), Skipped, Noted(leaf, t2));
    SecondRuns(tree, passing, last, world, t0);
    HaltPassesOver(ExecuteTick(tree, world, t0).node);
  }

  /** A new fallback that skips because its only child does is left storing Running. */
  lemma OnlyChildSkips(n: Node, leaf: Node, w: World, t: Log)
    requires n == NewNode(n.uid, Fallback(false), [leaf]) && leaf == NewNode(leaf.uid, Leaf, [])
    requires w.reply(Noted(leaf, t)).answer == Skipped
    ensures ExecuteTick(n, w, t) == Done(n.(status := Running), Skipped, Noted(leaf, t))
  {
    hide ExecuteTick, Tick;
    var t1 := Noted(leaf, t);
    PlainProceeds(n, w, t);
    PlainProceeds(leaf, w, t1);
    var n0 := n.(status := Running);
    var n1 := n0.(memo := BLANK.(idx := 1, skipped := 1));
    assert n0.children[0 := leaf] == n.children && ResetAll([leaf]) == [leaf];
    assert FallbackLoop(n0, n.children, w, t) == FallbackLoop(n1, n.children, w, t1) == FallbackEnd(n1, t1);
  }

  // ---------------------------------------------------------------- which functors are tame

  /** Within two ticks of a decorator with that functor, over a new tame child, quiescence is lost. */
  ghost predicate Disturbs(k: Kind, c: Node, w: World)
    requires k.Decorator?
  {
    Fresh(c) == c && Tame(c) &&
    var n := NewNode(0, k, [c]);
    var o := ExecuteTick(n, w, [Ticked(0)]);
    o.Done? &&
    (!Quiet(o.node) ||
     var p := ExecuteTick(o.node, w, Noted(o.node, o.log));
     p.Done? && !Quiet(p.node))
  }

  /** The restriction on functors is exact: those outside it disturb some child in some world. (Over a leaf
      this needs a functor that does not refuse to run it.) */
  lemma TameTableExact(k: Kind)
    requires k.Decorator?
    ensures (exists c, w :: Disturbs(k, c, w)) <==> !TameTable(k, false)
    ensures k.onRunning != Idle ==>
              ((exists c: Node, w :: c.kind.Leaf? && Disturbs(k, c, w)) <==> !TameTable(k, true))
  {
    hide ExecuteTick, Quiet, Disturbs;
    forall c: Node, w | TameTable(k, c.kind.Leaf?) ensures !Disturbs(k, c, w) {
      TameUndisturbed(k, c, w);
    }
    if k.onRunning != Running && k.onRunning != Idle {
      RunningDisturbs(k);
    } else if k.onSkipped != Running && k.onSkipped != Idle {
      SkippingDisturbs(k);
      if k.onRunning == Running && k.onSkipped != Skipped {
        SkippingLeafDisturbs(k);
      }
    }
  }

  lemma TameUndisturbed(k: Kind, c: Node, w: World)
    requires k.Decorator? && TameTable(k, c.kind.Leaf?)
    ensures !Disturbs(k, c, w)
  {
    hide ExecuteTick;
    if Fresh(c) == c && Tame(c) {
      var n := NewNode(0, k, [c]);
      FreshIsSound(c, true);
      IdleIsQuiet(n);
      FreshIsSound(n, true);
      assert FreshKids(n.children) == [Fresh(c)];
      assert Fresh(n) == n;
      SoundMeans(n, true);
      TickKeepsQuiet(n, w, [Ticked(0)]);
      var o := ExecuteTick(n, w, [Ticked(0)]);
      if o.Done? {
        TickKeepsQuiet(o.node, w, Noted(o.node, o.log));
      }
    }
  }

  /** A leaf runs and the decorator does not. */
  lemma RunningDisturbs(k: Kind)
    requires k.Decorator? && k.onRunning != Running && k.onRunning != Idle
    ensures exists c: Node, w :: c.kind.Leaf? && Disturbs(k, c, w)
  {
    hide ExecuteTick, Tick;
    var c, w, t := NewNode(1, Leaf, []), World((l: Log) => Reply(Running, false), true, false), [Ticked(0)];
    var n := NewNode(0, k, [c]);
    PlainProceeds(n, w, t);
    PlainProceeds(c, w, Noted(c, t));
    var o := ExecuteTick(n, w, t);
    assert o.node.children == [c.(status := Running)] && o.node.status != Running;
    assert !AllIdle(o.node.children[0]);
    assert FreshKids([]) == [] && Fresh(c) == c;
    assert c.kind.Leaf? && Disturbs(k, c, w);
  }

  /** A fallback skips and is left storing Running; the decorator does not answer Running. */
  lemma SkippingDisturbs(k: Kind)
    requires k.Decorator? && k.onSkipped != Running && k.onSkipped != Idle
    ensures exists c, w :: Disturbs(k, c, w)
  {
    hide ExecuteTick, Tick;
    var w, t := World((l: Log) => Reply(Skipped, false), true, false), [Ticked(0)];
    var leaf := NewNode(2, Leaf, []);
    var c := NewNode(1, Fallback(false), [leaf]);
    var n := NewNode(0, k, [c]);
    PlainProceeds(n, w, t);
    OnlyChildSkips(c, leaf, w, Noted(c, t));
    var o := ExecuteTick(n, w, t);
    assert o.node.children == [c.(status := Running)] && o.node.status != Running;
    assert !AllIdle(o.node.children[0]);
    assert FreshKids([]) == [] && Fresh(leaf) == leaf && FreshKids([leaf]) == [leaf];
    assert Fresh(c) == c && Tame(leaf) && Tame(c);
    assert !Quiet(o.node);
    assert Disturbs(k, c, w);
  }

  /** A leaf runs, and skips when it is ticked again; the decorator then answers that it has completed. */
  lemma SkippingLeafDisturbs(k: Kind)
    requires k.Decorator? && k.onRunning == Running && IsCompleted(k.onSkipped)
    ensures exists c: Node, w :: c.kind.Leaf? && Disturbs(k, c, w)
  {
    hide ExecuteTick, Tick;
    var w := World((l: Log) => Reply(if |l| <= 2 then Running else Skipped, false), true, false);
    var c, t := NewNode(1, Leaf, []), [Ticked(0)];
    var n := NewNode(0, k, [c]);
    PlainProceeds(n, w, t);
    PlainProceeds(c, w, Noted(c, t));
    var o := ExecuteTick(n, w, t);
    var running := c.(status := Running);
    assert o.Done? && o.node == n.(status := Running, children := [running]);
    var t1 := Noted(o.node, o.log);
    PlainProceeds(o.node, w, t1);
    PlainProceeds(running, w, Noted(running, t1));
    var p := ExecuteTick(o.node, w, t1);
    assert p.node.children == [running] && p.node.status == k.onSkipped;
    assert !AllIdle(p.node.children[0]);
    assert FreshKids([]) == [] && Fresh(c) == c;
    assert c.kind.Leaf? && Disturbs(k, c, w);
  }

  /** The sweep resets a grandchild that a halt of the root has passed over. */
  lemma SweepReaches(n: Node)
    requires |n.children| > 0 && |n.children[0].children| > 0
    requires n.children[0].status == Idle && n.children[0].children[0].status != Idle
    ensures !AllIdle(n) && !SameStatuses(Sweep(n), n)
  {
    HaltFresh(n);
    var kid := n.children[0];
    var swept := Halt(n).children[0];
    assert Halt(n).children == ResetAll(n.children) && ResetAll(n.children)[0] == ResetChild(kid) == kid;
    HaltFresh(kid);
    assert Sweep(n).children[0] == Sweep(swept) == Sweep(kid);
    assert Sweep(kid).children[0] == Sweep(Halt(kid).children[0]);
    assert Sweep(Halt(kid).children[0]).status == Halt(Halt(kid).children[0]).status == Idle;
    assert !AllIdle(kid);
    assert !SameStatuses(Sweep(kid).children[0], kid.children[0]);
    assert !SameStatuses(Sweep(n).children[0], n.children[0]);
  }
}
