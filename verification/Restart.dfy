/** Every run starts from a clean slate: a tree whose run has ended, or that was halted, behaves from
    then on exactly as a newly built one, and exactly which trees do. */
module Restart {
  import opened NodeTypes
  import opened TickModel
  import opened Quiescence
  import opened Alike

  // ---------------------------------------------------------------- results

  lemma {:induction false} IdleLikeFresh(n: Node, v: View)
    requires AllIdle(n) && Settled(n) && v.exposed <= {Success, Failure}
    ensures Like(n, Fresh(n), v)
  {
    forall i | 0 <= i < |n.children|
      ensures Like(n.children[i], Fresh(n).children[i], Below(v, n.kind, |n.children|, i))
    {
      IdleLikeFresh(n.children[i], Below(v, n.kind, |n.children|, i));
    }
  }

  /** In every world alike to the tree as it was built. */
  ghost predicate Clean(n: Node, built: Node) {
    AllIdle(n) && Settled(n) && Fresh(n) == Fresh(built) && forall single :: Like(n, Fresh(built), Root(single))
  }

  lemma IdleIsClean(n: Node, built: Node)
    requires AllIdle(n) && Settled(n) && Fresh(n) == Fresh(built)
    ensures Clean(n, built)
  {
    forall single ensures Like(n, Fresh(built), Root(single)) {
      IdleLikeFresh(n, Root(single));
    }
  }

  /** A run of the root that ends in Success or Failure leaves the whole tree Idle, and alike to the
      tree as it was built. */
  lemma {:induction false} CompletedRunIsClean(opt: TickOption, n: Node, w: World, t: Log, fuel: nat)
    requires Tame(n) && Settled(n) && Quiet(n)
    ensures var r := TickRoot(opt, n, w, t, fuel);
            !r.Returned? || !IsCompleted(r.answer) || Clean(r.root, n)
    decreases fuel
  {
    hide ExecuteTick;
    if fuel > 0 {
      TickKeepsQuiet(n, w, Noted(n, t));
      TickKeepsSettled(n, w, Noted(n, t));
      SoundMeans(n, true);
      ExecuteTickSound(n, w, Noted(n, t), true);
      var o := ExecuteTick(n, w, Noted(n, t));
      if o.Done? {
        if IsCompleted(o.answer) {
          var root := o.node.(status := Idle);
          assert Fresh(root) == Fresh(o.node);
          IdleIsClean(root, n);
          assert Settled(root);
        } else {
          CompletedRunIsClean(opt, o.node, w, o.log + [Listened], fuel - 1);
        }
      }
    }
  }

  lemma {:induction false} SweepSettled(n: Node)
    requires Settled(n)
    ensures Settled(Sweep(n))
    decreases Fresh(n)
  {
    SoundMeans(n, false);
    HaltSound(n, false);
    SoundMeans(Halt(n), false);
    var h := Halt(n);
    forall i | 0 <= i < |h.children| ensures Settled(Sweep(h.children[i])) {
      assert Fresh(h.children[i]) == Fresh(h).children[i];
      SweepSettled(h.children[i]);
    }
  }

  /** So does `haltTree`, at any moment. */
  lemma HaltedTreeIsClean(n: Node)
    requires Settled(n) && Quiet(n)
    ensures Clean(HaltTree(n), n)
  {
    SecondSweepIsNoOp(n);
    SoundMeans(n, false);
    HaltSound(n, false);
    SoundMeans(Halt(n), false);
    SweepSettled(Halt(n));
    IdleIsClean(HaltTree(n), n);
  }

  /** The same outcome of `tickRoot` after the same events: the same nodes were ticked in the same order, and
      the trees it leaves are again alike. */
  ghost predicate SameVerdict(r: RootOutcome, q: RootOutcome, v: View) {
    (r == q && !r.Returned?) ||
    (r.Returned? && q.Returned? && r.answer == q.answer && r.log == q.log && Like(r.root, q.root, v))
  }

  lemma {:induction false} LikeTickRoot(opt: TickOption, a: Node, b: Node, w: World, t: Log, fuel: nat)
    requires Paired(a, b, w, Root(w.singleRunning)) && Settled(a)
    ensures SameVerdict(TickRoot(opt, a, w, t, fuel), TickRoot(opt, b, w, t, fuel), Root(w.singleRunning))
    decreases fuel
  {
    hide ExecuteTick;
    if fuel > 0 {
      var v := Root(w.singleRunning);
      LikeExecuteTick(a, b, w, Noted(a, t), v);
      TickKeepsSettled(a, w, Noted(a, t));
      var o, p := ExecuteTick(a, w, Noted(a, t)), ExecuteTick(b, w, Noted(b, t));
      if o.Done? && o.answer == Running {
        SteadyShape(a, o.node, v);
        LikeTickRoot(opt, o.node, p.node, w, o.log + [Listened], fuel - 1);
      }
    }
  }

  lemma {:induction false} SteadyShape(a: Node, b: Node, v: View)
    requires Steady(a, v) && Fresh(a) == Fresh(b)
    ensures Steady(b, v)
  {
    assert |Fresh(a).children| == |Fresh(b).children|;
    forall i | 0 <= i < |b.children| ensures Steady(b.children[i], Below(v, b.kind, |b.children|, i)) {
      assert Fresh(a).children[i] == Fresh(b).children[i];
      SteadyShape(a.children[i], b.children[i], Below(v, b.kind, |b.children|, i));
    }
  }

  /** Clean restart: whatever a first run did, once it has ended in Success or Failure a second run goes
      as it would in the tree as built: it ticks the same nodes and runs the same scripts in the same order,
      gives the same verdict, and leaves an alike tree. */
  lemma {:induction false} SecondRunLikeFirst(
    opt: TickOption, n: Node, w: World, t: Log, fuel: nat, opt2: TickOption, w2: World, t2: Log, fuel2: nat)
    requires Tame(n) && Settled(n) && Quiet(n) && Steady(n, Root(w2.singleRunning))
    ensures var r := TickRoot(opt, n, w, t, fuel);
            r.Returned? && IsCompleted(r.answer) ==>
              SameVerdict(TickRoot(opt2, r.root, w2, t2, fuel2), TickRoot(opt2, Fresh(n), w2, t2, fuel2),
                          Root(w2.singleRunning))
  {
    CompletedRunIsClean(opt, n, w, t, fuel);
    var r := TickRoot(opt, n, w, t, fuel);
    if r.Returned? && IsCompleted(r.answer) {
      SteadyShape(n, r.root, Root(w2.singleRunning));
      IdleIsPrompt(r.root);
      LikeTickRoot(opt2, r.root, Fresh(n), w2, t2, fuel2);
    }
  }

  /** The same after a halt. */
  lemma {:induction false} RunAfterHaltLikeFirst(n: Node, opt: TickOption, w: World, t: Log, fuel: nat)
    requires Settled(n) && Quiet(n) && Steady(n, Root(w.singleRunning))
    ensures SameVerdict(TickRoot(opt, HaltTree(n), w, t, fuel), TickRoot(opt, Fresh(n), w, t, fuel),
                        Root(w.singleRunning))
  {
    HaltedTreeIsClean(n);
    SecondSweepIsNoOp(n);
    SteadyShape(n, HaltTree(n), Root(w.singleRunning));
    IdleIsPrompt(HaltTree(n));
    LikeTickRoot(opt, HaltTree(n), Fresh(n), w, t, fuel);
  }

  // ---------------------------------------------------------------- histories

  /** Every call of `tickRoot` that returns leaves a quiet tree. */
  lemma {:induction false} RunKeepsQuiet(opt: TickOption, n: Node, w: World, t: Log, fuel: nat)
    requires Tame(n) && Settled(n) && Quiet(n)
    ensures var r := TickRoot(opt, n, w, t, fuel);
            !r.Returned? || (Tame(r.root) && Settled(r.root) && Quiet(r.root) && Fresh(r.root) == Fresh(n))
    decreases fuel
  {
    hide ExecuteTick;
    if fuel > 0 {
      TickKeepsQuiet(n, w, Noted(n, t));
      TickKeepsSettled(n, w, Noted(n, t));
      SoundMeans(n, true);
      ExecuteTickSound(n, w, Noted(n, t), true);
      var o := ExecuteTick(n, w, Noted(n, t));
      if o.Done? {
        RunKeepsQuiet(opt, o.node, w, o.log + [Listened], fuel - 1);
        if IsCompleted(o.answer) {
          SoundMeans(o.node, true);
          assert Fresh(o.node.(status := Idle)) == Fresh(o.node);
          SoundMeans(o.node.(status := Idle), true);
        }
      }
    }
  }

  datatype Command = Run(opt: TickOption, fuel: nat) | HaltAll

  /** A session: the tree is run and halted in any order, until a run throws or does not return. */
  ghost function Session(n: Node, commands: seq<Command>, w: World, t: Log): RootOutcome
    decreases |commands|
  {
    if commands == [] then Returned(n, Idle, t)
    else
      match commands[0]
      case HaltAll => Session(HaltTree(n), commands[1..], w, t)
      case Run(opt, fuel) =>
        var r := TickRoot(opt, n, w, t, fuel);
        if r.Returned? then Session(r.root, commands[1..], w, r.log) else r
  }

  lemma HaltKeepsQuiet(n: Node)
    requires Tame(n) && Settled(n) && Quiet(n)
    ensures var h := HaltTree(n); Tame(h) && Settled(h) && Quiet(h) && Fresh(h) == Fresh(n) && Clean(h, n)
  {
    hide Clean, HaltTree, Fresh;
    HaltedTreeIsClean(n);
    CleanIsQuiet(HaltTree(n), n);
  }

  lemma CleanIsQuiet(n: Node, built: Node)
    requires Clean(n, built) && Tame(built)
    ensures Tame(n) && Settled(n) && Quiet(n) && Fresh(n) == Fresh(built)
  {
    IdleIsQuiet(n);
    TameShape(built, n);
  }

  /** In every state a session can reach from a newly built tame tree, the tree is quiet and its books
      are in order; so a halt at that point puts every node to sleep, in its first sweep. */
  lemma {:induction false} SessionIsQuiet(n: Node, commands: seq<Command>, w: World, t: Log)
    requires Tame(n) && Settled(n) && Quiet(n)
    ensures var r := Session(n, commands, w, t);
            !r.Returned? ||
            (Tame(r.root) && Settled(r.root) && Quiet(r.root) && Fresh(r.root) == Fresh(n) && AllIdle(Halt(r.root)))
    decreases |commands|
  {
    if commands == [] {
      HaltQuiets(n);
    } else {
      match commands[0]
      case HaltAll =>
        HaltKeepsQuiet(n);
        SessionIsQuiet(HaltTree(n), commands[1..], w, t);
      case Run(opt, fuel) =>
        RunKeepsQuiet(opt, n, w, t, fuel);
        var r := TickRoot(opt, n, w, t, fuel);
        if r.Returned? {
          SessionIsQuiet(r.root, commands[1..], w, r.log);
        }
    }
  }

  lemma {:induction false} TameShape(a: Node, b: Node)
    requires Tame(a) && Fresh(a) == Fresh(b)
    ensures Tame(b)
  {
    assert |Fresh(a).children| == |Fresh(b).children|;
    forall i | 0 <= i < |b.children| ensures Tame(b.children[i]) && a.children[i].kind == b.children[i].kind {
      assert Fresh(a).children[i] == Fresh(b).children[i];
      TameShape(a.children[i], b.children[i]);
    }
  }

  lemma NewTreeIsQuiet(n: Node)
    requires Tame(n)
    ensures Tame(Fresh(n)) && Settled(Fresh(n)) && Quiet(Fresh(n))
  {
    FreshIsSound(n, true);
    SoundMeans(Fresh(n), true);
  }
}
