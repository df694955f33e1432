/** The trace recorder with its two buffers and its counters, one method for each stretch of code that a
    thread runs without letting others in. */
module TraceRecorder {
  import opened TraceModel

  class Recorder {
    var eventBuffer: array<Slot>
    var flushBuffer: array<Slot>
    var eventCount: nat
    var isTracing: bool
    var isFlushing: bool
    var eventsInProgress: int
    /** The lines written to the file. */
    var file: seq<Slot>
    /** Where every thread stands, with its local variables. */
    var threads: map<nat, Thread>
    ghost var accepted: seq<Event>
    /** The two buffers as they were allocated. */
    const buffers: seq<array<Slot>>

    ghost predicate Valid()
      reads this
    {
      && |buffers| == 2 && buffers[0] != buffers[1] && buffers[0].Length == buffers[1].Length == CAPACITY
      && ((eventBuffer == buffers[0] && flushBuffer == buffers[1]) ||
          (eventBuffer == buffers[1] && flushBuffer == buffers[0]))
    }

    ghost function Current(): nat
      reads this
      requires Valid()
    {
      if eventBuffer == buffers[0] then 0 else 1
    }

    ghost function Model(): State
      reads this, buffers
      requires Valid()
    {
      State([buffers[0][..], buffers[1][..]], Current(), eventCount, isTracing, isFlushing, eventsInProgress, threads,
            file, accepted)
    }

    constructor (ids: set<nat>)
      ensures Valid() && Initial(Model()) && threads.Keys == ids && isTracing
      ensures fresh(buffers[0]) && fresh(buffers[1])
    {
      var first := new Slot[CAPACITY];
      var second := new Slot[CAPACITY];
      eventBuffer, flushBuffer, buffers := first, second, [first, second];
      eventCount, eventsInProgress := 0, 0;
      isTracing, isFlushing := true, false;
      file, accepted := [], [];
      threads := map t | t in ids :: Idle;
    }

    method BeginEvent(t: nat, e: Event)
      requires Valid() && Enabled(Model(), Call(t, e))
      modifies this
      ensures Valid() && Model() == Next(old(Model()), Call(t, e))
    {
      threads := threads[t := Calling(e)];
    }

    /** Under the mutex: the event gets the next slot, or is dropped. */
    method ReserveSlot(t: nat)
      requires Valid() && Enabled(Model(), Reserve(t))
      modifies this
      ensures Valid() && Model() == Next(old(Model()), Reserve(t))
    {
      if !isTracing || eventCount >= CAPACITY {
        threads := threads[t := Idle];
        return;
      }
      var e := threads[t].e;
      threads := threads[t := Reserved(e, if eventBuffer == buffers[0] then 0 else 1, eventCount)];
      eventCount := eventCount + 1;
      accepted := accepted + [e];
    }

    /** Under both mutexes, and then under none. */
    method EnterEvent(t: nat)
      requires Valid() && Enabled(Model(), Enter(t))
      modifies this
      ensures Valid() && Model() == Next(old(Model()), Enter(t))
    {
      eventsInProgress := eventsInProgress + 1;
      threads := threads[t := Filling(threads[t].e, threads[t].buffer, threads[t].slot, 0)];
    }

    /** Without a mutex: one field of the slot, if the event has it. */
    method WriteField(t: nat)
      requires Valid() && Enabled(Model(), Write(t)) && threads[t].buffer < 2 && threads[t].slot < CAPACITY
      modifies this, buffers
      ensures Valid() && Model() == Next(old(Model()), Write(t))
    {
      var p := threads[t];
      var ev := buffers[p.buffer];
      if Stores(p.e, p.done) {
        ev[p.slot] := ev[p.slot][p.done := p.e.fields[p.done]];
      }
      threads := threads[t := p.(done := p.done + 1)];
    }

    method LeaveEvent(t: nat)
      requires Valid() && Enabled(Model(), Leave(t))
      modifies this
      ensures Valid() && Model() == Next(old(Model()), Leave(t))
    {
      eventsInProgress := eventsInProgress - 1;
      threads := threads[t := Idle];
    }

    /** Under the mutex: the buffers change places unless somebody is flushing. */
    method SwapBuffers(t: nat)
      requires Valid() && Enabled(Model(), Swap(t))
      modifies this
      ensures Valid() && Model() == Next(old(Model()), Swap(t))
    {
      if isFlushing {
        return;
      }
      isFlushing := true;
      var eventCountCopy := eventCount;
      eventBuffer, flushBuffer := flushBuffer, eventBuffer;
      eventCount := 0;
      threads := threads[t := Waiting(eventCountCopy)];
    }

    /** One round of the loop that waits for the writers, the mutex being held. */
    method PollWriters(t: nat)
      requires Valid() && Enabled(Model(), Poll(t))
      modifies this
      ensures Valid() && Model() == Next(old(Model()), Poll(t))
    {
      if eventsInProgress == 0 {
        threads := threads[t := Printing(threads[t].n, 0)];
      }
    }

    /** Without a mutex: the line of one event of the flushed buffer. */
    method PrintEvent(t: nat)
      requires Valid() && Enabled(Model(), Print(t)) && threads[t].n <= CAPACITY
      modifies this
      ensures Valid() && Model() == Next(old(Model()), Print(t))
    {
      var p := threads[t];
      file := file + [Line(flushBuffer[p.i])];
      threads := threads[t := p.(i := p.i + 1)];
    }

    method FinishFlush(t: nat)
      requires Valid() && Enabled(Model(), Finish(t))
      modifies this
      ensures Valid() && Model() == Next(old(Model()), Finish(t))
    {
      isFlushing := false;
      threads := threads[t := Idle];
    }

    /** `mtr_start` and `mtr_stop`. */
    method SetTracing(on: bool)
      requires Valid() && Enabled(Model(), Action.SetTracing(on))
      modifies this
      ensures Valid() && Model() == Next(old(Model()), Action.SetTracing(on))
    {
      isTracing := on;
    }

    /** Reachable recorders: the slots and ranges that the methods rely on are there. */
    lemma Reachable(lo: nat, hi: nat, t: nat)
      requires Valid() && Inv(Model(), lo, hi) && t in threads
      ensures threads[t].Filling? ==> threads[t].buffer < 2 && threads[t].slot < CAPACITY
      ensures Flushes(threads[t]) ==> threads[t].n <= CAPACITY
    {
    }
  }
}
