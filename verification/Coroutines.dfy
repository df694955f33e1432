/** Coroutines as objects that point to the one that resumed them. */
module Coroutines {
  import opened Wrappers
  import opened CoroutineModel

  class Coroutine {
    const id: nat
    var state: Status
    var prevCo: Coroutine?

    constructor (id: nat)
      ensures this.id == id && state == Suspended && prevCo == null
    {
      this.id, this.state, this.prevCo := id, Suspended, null;
    }
  }

  /** The coroutines of one thread. */
  class CoroutineThread {
    var currentCo: Coroutine?
    /** The coroutines that have been created and not destroyed. */
    var pool: map<nat, Coroutine>

    ghost predicate Valid()
      reads this, pool.Values
    {
      && (forall k | k in pool :: pool[k].id == k && (pool[k].prevCo != null ==> Known(pool[k].prevCo)))
      && (currentCo != null ==> Known(currentCo))
    }

    predicate Known(co: Coroutine)
      reads this
    {
      co.id in pool && pool[co.id] == co
    }

    static function Id(co: Coroutine?): Option<nat> {
      if co == null then None else Some(co.id)
    }

    ghost function Model(): Machine
      reads this, pool.Values
    {
      Machine(map k | k in pool :: pool[k].state, map k | k in pool :: Id(pool[k].prevCo), Id(currentCo))
    }

    constructor ()
      ensures Valid() && Model() == Run([])
    {
      currentCo, pool := null, map[];
    }

    method Create(id: nat) returns (co: Coroutine?, answer: Answer)
      requires Valid()
      modifies this`pool
      ensures Valid() && (Model(), answer) == Step(old(Model()), Op.Create(id))
      ensures answer == Success ==> co != null && Known(co) && co.id == id
    {
      if id in pool {
        return null, InvalidOperation;
      }
      ghost var before := Model();
      co := new Coroutine(id);
      answer := Success;
      pool := pool[id := co];
      assert Model().status == before.status[id := Suspended] && Model().prev == before.prev[id := None];
    }

    method PrepareJumpIn(co: Coroutine)
      requires Valid() && Known(co) && co.prevCo == null && currentCo != co
      modifies this`currentCo, co`prevCo, pool.Values
      ensures Valid() && pool == old(pool) && Model() == JumpIn(old(Model()), co.id)
    {
      var prev := currentCo;
      assert co in pool.Values && (prev != null ==> prev in pool.Values);
      co.prevCo := prev;
      if prev != null {
        prev.state := Normal;
      }
      currentCo := co;
    }

    method PrepareJumpOut(co: Coroutine)
      requires Valid() && Known(co)
      modifies this`currentCo, pool.Values
      ensures Valid() && pool == old(pool) && co.id in old(Model()).prev && Model() == JumpOut(old(Model()), co.id)
    {
      var prev := co.prevCo;
      assert co in pool.Values && (prev != null ==> prev in pool.Values);
      ghost var before := Model();
      co.prevCo := null;
      assert Model() == before.(prev := before.prev[co.id := None]);
      RunAgain(prev);
    }

    /** Who has resumed the coroutine that ends or yields becomes the current one. */
    method RunAgain(prev: Coroutine?)
      requires Valid() && (prev != null ==> Known(prev))
      modifies this`currentCo, if prev == null then {} else {prev}
      ensures Valid() && pool == old(pool)
      ensures Model() == Machine(if prev == null then old(Model().status) else old(Model().status)[prev.id := Running],
                                 old(Model().prev), Id(prev))
    {
      if prev != null {
        prev.state := Running;
      }
      currentCo := prev;
    }

    method Resume(co: Coroutine) returns (answer: Answer)
      requires Valid() && Known(co) && (co.state == Suspended ==> co.prevCo == null && currentCo != co)
      modifies this`currentCo, pool.Values
      ensures Valid() && pool == old(pool) && (Model(), answer) == Step(old(Model()), Op.Resume(co.id))
    {
      if co.state != Suspended {
        return NotSuspended;
      }
      assert co in pool.Values;
      ghost var before := Model();
      co.state := Running;
      assert Model() == before.(status := before.status[co.id := Running]);
      PrepareJumpIn(co);
      answer := Success;
    }

    /** `overflow` is the outcome of the look at the stack pointer. */
    method Yield(co: Coroutine, overflow: bool) returns (answer: Answer)
      requires Valid() && Known(co)
      modifies this`currentCo, pool.Values
      ensures Valid() && pool == old(pool) && (Model(), answer) == Step(old(Model()), Op.Yield(co.id, overflow))
    {
      if overflow {
        return StackOverflow;
      }
      if co.state != Running {
        return NotRunning;
      }
      assert co in pool.Values;
      ghost var before := Model();
      co.state := Suspended;
      assert Model() == before.(status := before.status[co.id := Suspended]);
      PrepareJumpOut(co);
      answer := Success;
    }

    /** The end of `_mco_main`: the function of the current coroutine has returned. */
    method Finish() returns (answer: Answer)
      requires Valid()
      modifies this`currentCo, pool.Values
      ensures Valid() && pool == old(pool) && (Model(), answer) == Step(old(Model()), Op.Finish)
    {
      if currentCo == null {
        return InvalidOperation;
      }
      var co := currentCo;
      assert co in pool.Values;
      ghost var before := Model();
      co.state := Dead;
      assert Model() == before.(status := before.status[co.id := Dead]);
      PrepareJumpOut(co);
      answer := Success;
    }

    /** `mco_destroy`: the coroutine is uninitialized, if it may be, and freed. */
    method Destroy(co: Coroutine) returns (answer: Answer)
      requires Valid() && Known(co) && Unreferenced(co)
      modifies this`pool, co`state
      ensures Valid() && (Model(), answer) == Step(old(Model()), Op.Destroy(co.id))
    {
      if co.state != Suspended && co.state != Dead {
        return InvalidOperation;
      }
      ghost var before := Model();
      co.state := Dead;
      pool := pool - {co.id};
      answer := Success;
      assert Model().status == before.status - {co.id} && Model().prev == before.prev - {co.id};
    }

    /** Nobody points to a coroutine that may be destroyed. */
    ghost predicate Unreferenced(co: Coroutine)
      reads this, pool.Values, co
    {
      co.state == Suspended || co.state == Dead ==> currentCo != co && forall k | k in pool :: pool[k].prevCo != co
    }

    /** In a disciplined thread the methods can be called: a suspended coroutine has no predecessor, is not
        the current one, and nobody points to it. */
    lemma DisciplineSuffices(chain: seq<nat>, co: Coroutine)
      requires Valid() && Known(co) && Disciplined(Model(), chain)
      ensures co.state == Suspended || co.state == Dead ==> co.prevCo == null && currentCo != co
      ensures Unreferenced(co)
    {
      RunningIsCurrent(Model(), chain, co.id);
      if co.state == Suspended || co.state == Dead {
        assert Model().prev[co.id] == None;
        forall k | k in pool ensures pool[k].prevCo != co {
          if k in chain {
            var i :| 0 <= i < |chain| && chain[i] == k;
            assert Linked(Model(), chain, i);
          } else {
            assert Model().prev[k] == None;
          }
        }
      }
    }
  }
}
