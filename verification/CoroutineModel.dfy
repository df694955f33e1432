/** Coroutines of one thread: their states and the chain of those that have resumed one another. The chain
    runs from the current coroutine along the fields that name who resumed it; all others are suspended
    or dead and name nobody. */
module CoroutineModel {
  import opened Wrappers

  datatype Status = Dead | Normal | Running | Suspended

  datatype Answer = Success | InvalidOperation | NotSuspended | NotRunning | StackOverflow

  /** The memory: every coroutine's state and the coroutine that resumed it, and the current one. */
  datatype Machine = Machine(status: map<nat, Status>, prev: map<nat, Option<nat>>, current: Option<nat>)

  datatype Op = Create(co: nat) | Resume(co: nat) | Yield(co: nat, overflow: bool) | Finish | Destroy(co: nat)

  /** Jumping in: the current coroutine becomes normal and `co` the current one. */
  function JumpIn(m: Machine, co: nat): Machine {
    var status := if m.current.Some? then m.status[m.current.value := Normal] else m.status;
    Machine(status, m.prev[co := m.current], Some(co))
  }

  /** Jumping out: whoever resumed `co` runs again. */
  function JumpOut(m: Machine, co: nat): Machine
    requires co in m.prev
  {
    var back := m.prev[co];
    Machine(if back.Some? then m.status[back.value := Running] else m.status, m.prev[co := None], back)
  }

  /** One operation and its answer. An operation on a coroutine that does not exist is not made, and only a
      coroutine that runs can finish. */
  function Step(m: Machine, op: Op): (Machine, Answer) {
    match op
    case Create(co) =>
      if co in m.status then (m, InvalidOperation)
      else (m.(status := m.status[co := Suspended], prev := m.prev[co := None]), Success)
    case Resume(co) =>
      if co !in m.status || m.status[co] != Suspended then (m, NotSuspended)
      else (JumpIn(m.(status := m.status[co := Running]), co), Success)
    case Yield(co, overflow) =>
      if overflow then (m, StackOverflow)
      else if co !in m.status || co !in m.prev || m.status[co] != Running then (m, NotRunning)
      else (JumpOut(m.(status := m.status[co := Suspended]), co), Success)
    case Finish =>
      if m.current.None? || m.current.value !in m.prev then (m, InvalidOperation)
      else (JumpOut(m.(status := m.status[m.current.value := Dead]), m.current.value), Success)
    case Destroy(co) =>
      if co !in m.status || (m.status[co] != Suspended && m.status[co] != Dead) then (m, InvalidOperation)
      else (m.(status := m.status - {co}, prev := m.prev - {co}), Success)
  }

  function Run(ops: seq<Op>): Machine {
    if ops == [] then Machine(map[], map[], None) else Step(Run(ops[..|ops| - 1]), ops[|ops| - 1]).0
  }

  /** The coroutine at place `i` of the chain has its state, and the next one has resumed it. */
  ghost predicate Linked(m: Machine, chain: seq<nat>, i: nat)
    requires i < |chain| && m.status.Keys == m.prev.Keys
  {
    chain[i] in m.status && m.status[chain[i]] == (if i == 0 then Running else Normal) &&
    m.prev[chain[i]] == if i + 1 < |chain| then Some(chain[i + 1]) else None
  }

  /** The chain from the current coroutine along those that resumed one another is finite and without
      repetition; its first coroutine runs, the others are normal, and none outside of it is either. */
  ghost predicate Disciplined(m: Machine, chain: seq<nat>) {
    && m.status.Keys == m.prev.Keys
    && m.current == (if chain == [] then None else Some(chain[0]))
    && (forall i, j | 0 <= i < j < |chain| :: chain[i] != chain[j])
    && (forall i | 0 <= i < |chain| :: Linked(m, chain, i))
    && (forall co | co in m.status && co !in chain ::
        (m.status[co] == Suspended || m.status[co] == Dead) && m.prev[co] == None)
  }

  /** What an operation does to the chain: a resumed coroutine goes in front, one that yields or ends goes. */
  function ChainAfter(m: Machine, chain: seq<nat>, op: Op): seq<nat> {
    if Step(m, op).1 != Success then chain
    else
      match op
      case Resume(co) => [co] + chain
      case Yield(_, _) => if chain == [] then [] else chain[1..]
      case Finish => if chain == [] then [] else chain[1..]
      case _ => chain
  }

  /** A coroutine that can be resumed is not in the chain, and one that runs is the first of it: it is the
      current one. */
  lemma RunningIsCurrent(m: Machine, chain: seq<nat>, co: nat)
    requires Disciplined(m, chain) && co in m.status
    ensures m.status[co] == Running <==> m.current == Some(co)
    ensures m.status[co] == Suspended || m.status[co] == Dead <==> co !in chain
  {
    if co in chain {
      var i :| 0 <= i < |chain| && chain[i] == co;
      assert Linked(m, chain, i);
    }
    assert chain != [] ==> Linked(m, chain, 0);
  }

  lemma ResumeKeeps(m: Machine, chain: seq<nat>, co: nat)
    requires Disciplined(m, chain) && co in m.status && m.status[co] == Suspended
    ensures Disciplined(Step(m, Resume(co)).0, [co] + chain)
  {
    RunningIsCurrent(m, chain, co);
    var m', chain' := Step(m, Resume(co)).0, [co] + chain;
    assert chain != [] ==> Linked(m, chain, 0);
    forall i: nat | i < |chain'| ensures Linked(m', chain', i) {
      if i > 0 {
        assert Linked(m, chain, i - 1) && chain[i - 1] in chain;
      }
    }
    forall x | x in m'.status && x !in chain'
      ensures (m'.status[x] == Suspended || m'.status[x] == Dead) && m'.prev[x] == None
    {
      assert x != co && x !in chain;
    }
  }

  /** The first of the chain leaves it. */
  lemma LeaveKeeps(m: Machine, chain: seq<nat>, left: Status)
    requires Disciplined(m, chain) && chain != [] && chain[0] in m.prev && (left == Suspended || left == Dead)
    ensures Disciplined(JumpOut(m.(status := m.status[chain[0] := left]), chain[0]), chain[1..])
  {
    var co, chain' := chain[0], chain[1..];
    assert Linked(m, chain, 0);
    assert 1 < |chain| ==> Linked(m, chain, 1);
    var m' := JumpOut(m.(status := m.status[co := left]), co);
    assert m'.current == if chain' == [] then None else Some(chain'[0]);
    forall i: nat | i < |chain'| ensures Linked(m', chain', i) {
      assert Linked(m, chain, i + 1) && chain[i + 1] != co;
    }
    forall x | x in m'.status && x !in chain'
      ensures (m'.status[x] == Suspended || m'.status[x] == Dead) && m'.prev[x] == None
    {
      assert chain == [co] + chain';
    }
    assert forall i, j | 0 <= i < j < |chain'| :: chain'[i] == chain[i + 1] && chain'[j] == chain[j + 1];
  }

  /** Every operation keeps the discipline. */
  lemma StepKeeps(m: Machine, chain: seq<nat>, op: Op)
    requires Disciplined(m, chain)
    ensures Disciplined(Step(m, op).0, ChainAfter(m, chain, op))
  {
    if Step(m, op).1 == Success {
      match op
      case Create(co) =>
        forall i: nat | i < |chain| ensures Linked(Step(m, op).0, chain, i) {
          assert Linked(m, chain, i);
        }
      case Resume(co) => ResumeKeeps(m, chain, co);
      case Yield(co, _) =>
        RunningIsCurrent(m, chain, co);
        LeaveKeeps(m, chain, Suspended);
      case Finish =>
        assert Linked(m, chain, 0);
        LeaveKeeps(m, chain, Dead);
      case Destroy(co) =>
        RunningIsCurrent(m, chain, co);
        forall i: nat | i < |chain| ensures Linked(Step(m, op).0, chain, i) {
          assert Linked(m, chain, i) && chain[i] in chain;
        }
    }
  }

  /** The discipline holds after every sequence of operations. */
  lemma {:induction false} RunIsDisciplined(ops: seq<Op>) returns (chain: seq<nat>)
    ensures Disciplined(Run(ops), chain)
    decreases |ops|
  {
    if ops == [] {
      chain := [];
    } else {
      var n := |ops| - 1;
      var before := RunIsDisciplined(ops[..n]);
      StepKeeps(Run(ops[..n]), before, ops[n]);
      chain := ChainAfter(Run(ops[..n]), before, ops[n]);
    }
  }

  /** Following the coroutines that resumed one another. */
  function Follow(m: Machine, from: Option<nat>, steps: nat): Option<nat>
    decreases steps
  {
    if steps == 0 || from.None? || from.value !in m.prev then from else Follow(m, m.prev[from.value], steps - 1)
  }

  /** The chain is what one meets on the way back, and it ends with the thread itself. */
  lemma {:induction false} ChainIsFollowed(m: Machine, chain: seq<nat>, i: nat, k: nat)
    requires Disciplined(m, chain) && i + k <= |chain|
    ensures Follow(m, if i < |chain| then Some(chain[i]) else None, k) ==
            if i + k < |chain| then Some(chain[i + k]) else None
    decreases k
  {
    if k > 0 {
      assert Linked(m, chain, i);
      ChainIsFollowed(m, chain, i + 1, k - 1);
    }
  }

  /** A coroutine that was resumed and then yields leaves everything as it was. */
  lemma ResumeThenYield(m: Machine, chain: seq<nat>, co: nat)
    requires Disciplined(m, chain) && co in m.status && m.status[co] == Suspended
    ensures Step(Step(m, Resume(co)).0, Yield(co, false)) == (m, Success)
  {
    RunningIsCurrent(m, chain, co);
    assert m.prev[co] == None;
    var m1 := Step(m, Resume(co)).0;
    var m2 := Step(m1, Yield(co, false)).0;
    assert m2.prev == m.prev && m2.current == m.current;
    if chain != [] {
      assert Linked(m, chain, 0) && chain[0] != co;
    }
    assert m2.status == m.status;
  }
}
