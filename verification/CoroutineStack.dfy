/** Coroutines as a stack of calls: resuming is calling, yielding and ending is returning. The states and
    pointers of the library come to the same. */
module CoroutineStack {
  import opened Wrappers
  import opened CoroutineModel

  /** The coroutines that have been resumed, the last one first; those that exist; those that have ended. */
  datatype Calls = Calls(stack: seq<nat>, alive: set<nat>, ended: set<nat>)

  /** May the operation be made? A coroutine is resumed if it neither is on the stack nor has ended, only the
      top of the stack yields or ends, and nothing on the stack is destroyed. */
  predicate Allowed(c: Calls, op: Op) {
    match op
    case Create(co) => co !in c.alive
    case Resume(co) => co in c.alive && co !in c.stack && co !in c.ended
    case Yield(co, overflow) => !overflow && c.stack != [] && c.stack[0] == co
    case Finish => c.stack != []
    case Destroy(co) => co in c.alive && co !in c.stack
  }

  function Made(c: Calls, op: Op): Calls {
    if !Allowed(c, op) then c
    else
      match op
      case Create(co) => c.(alive := c.alive + {co})
      case Resume(co) => c.(stack := [co] + c.stack)
      case Yield(_, _) => c.(stack := c.stack[1..])
      case Finish => Calls(c.stack[1..], c.alive, c.ended + {c.stack[0]})
      case Destroy(co) => c.(alive := c.alive - {co}, ended := c.ended - {co})
  }

  function Calling(ops: seq<Op>): Calls {
    if ops == [] then Calls([], {}, {}) else Made(Calling(ops[..|ops| - 1]), ops[|ops| - 1])
  }

  /** What an operation that may not be made is answered with. */
  function Refusal(op: Op): Answer {
    match op
    case Resume(_) => NotSuspended
    case Yield(_, overflow) => if overflow then StackOverflow else NotRunning
    case _ => InvalidOperation
  }

  /** The state of a coroutine is its place on the stack, or whether it has ended. */
  ghost predicate Mirrors(m: Machine, c: Calls) {
    Disciplined(m, c.stack) && m.status.Keys == c.alive &&
    (forall co | co in c.ended :: co in c.alive && co !in c.stack) &&
    forall co | co in c.alive ::
      m.status[co] == if co in c.stack then if co == c.stack[0] then Running else Normal
                      else if co in c.ended then Dead
                      else Suspended
  }

  /** One operation, its answer included. */
  lemma StepMirrors(m: Machine, c: Calls, op: Op)
    requires Mirrors(m, c)
    ensures Mirrors(Step(m, op).0, Made(c, op))
    ensures Step(m, op).1 == if Allowed(c, op) then Success else Refusal(op)
  {
    hide Disciplined;
    OnStack(m, c);
    StepKeeps(m, c.stack, op);
    assert Allowed(c, op) <==> Step(m, op).1 == Success;
    assert ChainAfter(m, c.stack, op) == Made(c, op).stack;
    if Allowed(c, op) {
      StackIsState(Step(m, op).0, Made(c, op).stack);
      OthersStay(m, c, op);
    }
  }

  /** What the discipline says about the stack and the state. */
  lemma OnStack(m: Machine, c: Calls)
    requires Mirrors(m, c)
    ensures m.status.Keys == m.prev.Keys && m.current == if c.stack == [] then None else Some(c.stack[0])
    ensures forall co | co in c.stack :: co in c.alive
    ensures forall i | 0 < i < |c.stack| :: c.stack[i] != c.stack[0]
  {
    forall co | co in c.stack ensures co in c.alive {
      var i :| 0 <= i < |c.stack| && c.stack[i] == co;
      assert Linked(m, c.stack, i);
    }
  }

  lemma StackIsState(m: Machine, stack: seq<nat>)
    requires Disciplined(m, stack)
    ensures forall co | co in stack :: co in m.status && m.status[co] == if co == stack[0] then Running else Normal
  {
    forall co | co in stack ensures co in m.status && m.status[co] == if co == stack[0] then Running else Normal {
      var i :| 0 <= i < |stack| && stack[i] == co;
      assert Linked(m, stack, i);
    }
  }

  /** Coroutines that are not on the stack afterwards have not changed, but for the one that has just left it
      or was made. */
  ghost predicate OthersAre(m: Machine, c: Calls) {
    m.status.Keys == c.alive && (forall co | co in c.ended :: co in c.alive && co !in c.stack) &&
    forall co | co in c.alive && co !in c.stack :: m.status[co] == if co in c.ended then Dead else Suspended
  }

  lemma OthersStay(m: Machine, c: Calls, op: Op)
    requires Mirrors(m, c) && Allowed(c, op) && Step(m, op).1 == Success
    ensures OthersAre(Step(m, op).0, Made(c, op))
  {
    hide OthersAre, Mirrors, Step, Made;
    if op.Yield? || op.Finish? {
      OthersStayOnReturn(m, c, op);
    } else {
      OthersStayOnCall(m, c, op);
    }
  }

  lemma OthersStayOnReturn(m: Machine, c: Calls, op: Op)
    requires Mirrors(m, c) && Allowed(c, op) && Step(m, op).1 == Success && (op.Yield? || op.Finish?)
    ensures OthersAre(Step(m, op).0, Made(c, op))
  {
    OnStack(m, c);
    assert Linked(m, c.stack, 0);
    assert 1 < |c.stack| ==> Linked(m, c.stack, 1) && c.stack[1] in c.stack[1..];
    assert c.stack == [c.stack[0]] + c.stack[1..];
    assert forall co | co in c.stack[1..] :: co in c.stack && co != c.stack[0];
  }

  lemma OthersStayOnCall(m: Machine, c: Calls, op: Op)
    requires Mirrors(m, c) && Allowed(c, op) && Step(m, op).1 == Success && !op.Yield? && !op.Finish?
    ensures OthersAre(Step(m, op).0, Made(c, op))
  {
    OnStack(m, c);
    if op.Resume? {
      assert c.stack != [] ==> c.stack[0] in [op.co] + c.stack;
    }
  }

  /** The library and the stack, after any operations. */
  lemma {:induction false} RunMirrors(ops: seq<Op>)
    ensures Mirrors(CoroutineModel.Run(ops), Calling(ops))
    decreases |ops|
  {
    if ops != [] {
      var n := |ops| - 1;
      RunMirrors(ops[..n]);
      StepMirrors(CoroutineModel.Run(ops[..n]), Calling(ops[..n]), ops[n]);
    }
  }

  /** A coroutine that has ended stays dead, and resuming it is refused, until it is destroyed. */
  lemma {:induction false} EndedIsDead(ops: seq<Op>, more: seq<Op>, co: nat)
    requires co in Calling(ops).ended && forall i | 0 <= i < |more| :: more[i] != Destroy(co)
    ensures var m := CoroutineModel.Run(ops + more);
            co in m.status && m.status[co] == Dead && Step(m, Resume(co)) == (m, NotSuspended)
    ensures co in Calling(ops + more).ended
    decreases |more|
  {
    if more == [] {
      assert ops + more == ops;
    } else {
      var n := |more| - 1;
      EndedIsDead(ops, more[..n], co);
      assert (ops + more)[..|ops + more| - 1] == ops + more[..n];
      RunMirrors(ops + more[..n]);
    }
    RunMirrors(ops + more);
  }

  /** The end of a coroutine: whoever is on top of the stack has ended. */
  lemma FinishEnds(ops: seq<Op>)
    requires Calling(ops).stack != []
    ensures Calling(ops + [Finish]).ended == Calling(ops).ended + {Calling(ops).stack[0]}
    ensures CoroutineModel.Run(ops).current == Some(Calling(ops).stack[0])
  {
    assert (ops + [Finish])[..|ops|] == ops;
    RunMirrors(ops);
  }
}
