/** The scheduling loop and pour-on-rt-heap on two real heaps
    (src/edf-sched.lisp:231-237, 511-556). The methods take the steps of the state
    machine of EdfPour and keep a trace of them; the functions that they call are
    recorded, not executed. Between the steps others may schedule events. */
module EdfScheduler {
  import opened EdfOrder
  import opened EdfHeap
  import Pour = EdfPour
  import Serve = EdfOthers

  type Job<F> = Pour.Job<F>

  class Scheduler<F(==)> {
    const rt: Heap<Job<F>>
    const temp: Heap<Job<F>>
    /** The time offset of the temporary heap. */
    const offset: real
    /** The sample counter. */
    var now: real
    var log: seq<Pour.Ran<F>>
    /** How often the end action was called. */
    var ends: nat
    /** An event met a full heap. */
    ghost var lost: bool
    /** pour-on-rt-heap has been called and has not returned. */
    ghost var inside: bool
    /** The state at the beginning, and the steps taken since then. */
    ghost const first: Pour.State<F>
    ghost var moves: seq<Pour.Move<F>>

    ghost predicate Valid()
      reads rt, temp, rt.data, temp.data
    {
      rt != temp && rt.data != temp.data && rt.Valid() && temp.Valid()
    }

    ghost function State(): Pour.State<F>
      reads this, rt, temp
    {
      Pour.State(now, rt.Pending(), temp.Pending(), offset, log, lost, ends, inside)
    }

    /** Node 0 is not for events. */
    ghost function Cap(): nat {
      if rt.data.Length >= 1 then rt.data.Length - 1 else 0
    }

    /** The first state was one of two valid heaps, and the steps lead from it to
        the state now. */
    ghost predicate Traced()
      reads this, rt, temp
    {
      InTime(first.rt) && InTime(first.temp) && Pour.Reaches(first, Cap(), moves, State())
    }

    constructor (rt: Heap<Job<F>>, temp: Heap<Job<F>>, offset: real, now: real)
      requires rt != temp && rt.data != temp.data && rt.Valid() && temp.Valid()
      ensures Valid() && Traced() && this.rt == rt && this.temp == temp
      ensures first == State() == Pour.State(now, rt.Pending(), temp.Pending(), offset, [], false, 0, false)
    {
      rt.PendingInTime();
      temp.PendingInTime();
      this.rt := rt;
      this.temp := temp;
      this.offset := offset;
      this.now := now;
      log, ends, lost, inside, moves := [], 0, false, false, [];
      first := Pour.State(now, rt.Pending(), temp.Pending(), offset, [], false, 0, false);
    }

    /** One more step. */
    ghost method Record(s: Pour.State<F>, m: Pour.Move<F>)
      requires InTime(first.rt) && InTime(first.temp) && Pour.Reaches(first, Cap(), moves, s)
      requires Pour.Enabled(s, m) && State() == Pour.Step(s, Cap(), m)
      modifies this`moves
      ensures Traced() && State() == old(State()) && moves == old(moves) + [m]
    {
      hide Pour.Reaches, Pour.Enabled, Pour.Step;
      Pour.RunsOn(first, Cap(), moves, s, m);
      moves := moves + [m];
    }

    /** schedule-at on the real-time heap. */
    method Schedule(time: real, job: Job<F>)
      requires Valid()
      modifies this`lost, rt, rt.data
      ensures Valid()
      ensures State() == Pour.Schedule(old(State()), Cap(), Event(time, job))
    {
      hide Untag, Insert;
      rt.EmptyQueue();
      lost := lost || rt.next >= rt.data.Length;
      rt.ScheduleAt(time, job);
    }

    /** schedule-at, called by somebody else. */
    method At(time: real, call: F)
      requires Valid() && Traced()
      modifies this`lost, this`moves, rt, rt.data
      ensures Valid() && Traced()
      ensures State() == Pour.Step(old(State()), Cap(), Pour.Other(time, call))
    {
      hide Pour.Reaches, Pour.Schedule, Valid;
      ghost var s := State();
      Schedule(time, Pour.Foreign(call));
      Record(s, Pour.Other(time, call));
    }

    /** The next sample. */
    method NextSample()
      requires Valid() && Traced() && Pour.TickOver(State())
      modifies this`now, this`moves
      ensures Valid() && Traced()
      ensures State() == Pour.Step(old(State()), Cap(), Pour.Tick)
    {
      hide Pour.Reaches, Valid, Pour.AnyDue;
      ghost var s := State();
      now := now + 1.0;
      Record(s, Pour.Tick);
    }

    /** One turn of the scheduling loop: the earliest event is called. */
    method CallHead() returns (pouring: bool)
      requires Valid() && Traced() && !inside && Pour.AnyDue(State())
      modifies this`log, this`inside, this`moves, rt, rt.data
      ensures Valid() && Traced()
      ensures pouring == inside == (old(rt.Pending())[0].call == Pour.Pouring)
      ensures State() == Pour.CallHead(old(State()))
      ensures rt.Pending() == old(rt.Pending())[1..]
      ensures log == if pouring then old(log) else old(log) + [Pour.Ran(old(rt.Pending())[0], now)]
    {
      hide Untag, HeapOrdered, Sorted, TagsBelow, Contents, Pour.Reaches;
      ghost var s := State();
      rt.EmptyQueue();
      var node := rt.GetHeap();
      pouring := node.call == Pour.Pouring;
      if pouring {
        inside := true;
      } else {
        log := log + [Pour.Ran(Event(node.time, node.call), now)];
      }
      Record(s, Pour.Run);
    }

    /** One turn of the first loop of pour-on-rt-heap. */
    method CallFirst()
      requires Valid() && Traced() && inside && Pour.TempDue(State())
      modifies this`log, this`moves, temp, temp.data
      ensures Valid() && Traced()
      ensures State() == Pour.CallFirst(old(State()))
      ensures temp.Pending() == old(temp.Pending())[1..]
      ensures var x := old(temp.Pending())[0]; log == old(log) + [Pour.Ran(Event(x.time + offset, x.call), now)]
    {
      hide Untag, HeapOrdered, Sorted, TagsBelow, Contents, Pour.Reaches;
      ghost var s := State();
      temp.EmptyQueue();
      var node := temp.GetHeap();
      log := log + [Pour.Ran(Event(node.time + offset, node.call), now)];
      Record(s, Pour.Call);
    }

    /** with-rt-next-node: the first event of the temporary heap moves. */
    method MoveFirst() returns (ghost x: Event<Job<F>>)
      requires Valid() && temp.next > ROOT
      modifies this`lost, rt, rt.data, temp, temp.data
      ensures Valid()
      ensures old(temp.Pending()) == [x] + temp.Pending()
      ensures State() == Pour.Schedule(old(State()).(temp := temp.Pending()), Cap(), Pour.Shifted(x, offset))
    {
      hide Untag, HeapOrdered, Sorted, TagsBelow, Contents, Pour.Schedule;
      var node := temp.GetHeap();
      x := Event(node.time, node.call);
      Schedule(node.time + offset, node.call);
    }

    lemma Counts()
      requires Valid()
      ensures |temp.Pending()| == temp.next - 1 && |rt.Pending()| == rt.next - 1
    {
      rt.EmptyQueue();
      temp.EmptyQueue();
    }

    /** The end of pour-on-rt-heap. */
    method MoveNext()
      requires Valid() && Traced() && inside && !Pour.TempDue(State())
      modifies this`lost, this`ends, this`inside, this`moves, rt, rt.data, temp, temp.data
      ensures Valid() && Traced()
      ensures State() == Pour.MoveNext(old(State()), Cap())
    {
      hide Valid, Heap.Valid, Untag, Pour.Schedule, Pour.Shifted, Pour.Reaches, Pour.TempDue;
      ghost var s0 := State();
      Counts();
      var count := temp.next - 1;
      inside := false;
      ghost var s := State();
      if count == 0 {
        ends := ends + 1;
      } else {
        ghost var x := MoveFirst();
        assert s.temp[0] == x && s.temp[1..] == temp.Pending();
        if count == 1 {
          ends := ends + 1;
        } else {
          Schedule(now + 1.0, Pour.Pouring);
        }
      }
      Record(s0, Pour.Settle);
    }

    /** The test of the first loop of pour-on-rt-heap, on the heap. */
    method TempIsDue() returns (due: bool)
      requires Valid()
      ensures due == Pour.TempDue(State())
    {
      hide Untag, HeapOrdered, Sorted, TagsBelow, Contents;
      temp.EmptyQueue();
      due := temp.next > ROOT && Pour.Due(now, temp.data[ROOT].time + offset);
      if temp.next > ROOT {
        temp.RootIsFirst();
      }
    }

    /** The test of the scheduling loop, on the heap. */
    method RtIsDue() returns (due: bool)
      requires Valid()
      ensures due == Pour.AnyDue(State())
    {
      hide Untag, HeapOrdered, Sorted, TagsBelow, Contents;
      rt.EmptyQueue();
      due := rt.next > ROOT && Pour.Due(now, rt.data[ROOT].time);
      if rt.next > ROOT {
        rt.RootIsFirst();
      }
    }

    /** pour-on-rt-heap */
    method PourOnRtHeap()
      requires Valid() && Traced() && inside
      modifies this`log, this`lost, this`ends, this`inside, this`moves, rt, rt.data, temp, temp.data
      ensures Valid() && Traced() && !inside
      ensures State() == Pour.Pour(old(State()), Cap())
    {
      hide Valid, Heap.Valid, Traced, Untag, Pour.MoveNext;
      var due := TempIsDue();
      while due
        invariant Valid() && Traced() && inside && due == Pour.TempDue(State())
        invariant Pour.RunDue(State()) == Pour.RunDue(old(State()))
        decreases |State().temp|
      {
        CallFirst();
        due := TempIsDue();
      }
      MoveNext();
    }

    /** sched-loop, at the current tick: the events of somebody else at the front of the
        heap are called, in order, all that are due and nothing else, and none is lost.
        (The temporary heap holds events of its own only.) */
    method SchedLoop()
      requires Valid() && Traced() && !inside
      modifies this`log, this`lost, this`ends, this`inside, this`moves, rt, rt.data, temp, temp.data
      ensures Valid() && Traced() && Pour.TickOver(State())
      ensures State() == Pour.RunTick(old(State()), Cap())
      ensures old(Serve.Inner(temp.Pending())) ==> (
                && Serve.Others(Pour.Events(log)) + Serve.Others(rt.Pending())
                   == old(Serve.Others(Pour.Events(log)) + Serve.Others(rt.Pending()))
                && old(log) <= log
                && (forall i :: |old(log)| <= i < |log| ==> log[i].event.time <= log[i].at + 0.5 && log[i].at == now)
                && (forall i :: 0 <= i < |rt.Pending()| ==> rt.Pending()[i].time > now + 0.5))
    {
      hide Valid, Heap.Valid, Untag, Serve.Inner, Serve.Others, Pour.Events, Pour.RunTick, Pour.Reaches;
      ghost var s := State();
      AllInTime();
      CallAllDue();
      if Serve.Inner(s.temp) {
        Serve.TickServes(s, Cap());
      }
    }

    lemma AllInTime()
      requires Valid()
      ensures InTime(rt.Pending())
    {
      rt.PendingInTime();
    }

    /** The loop of sched-loop. */
    method CallAllDue()
      requires Valid() && Traced() && !inside
      modifies this`log, this`lost, this`ends, this`inside, this`moves, rt, rt.data, temp, temp.data
      ensures Valid() && Traced() && Pour.TickOver(State())
      ensures State() == Pour.RunTick(old(State()), Cap())
    {
      hide Valid, Heap.Valid, Traced, Untag, Pour.Pour, Pour.DueCount, Pour.CallHead;
      var due := RtIsDue();
      while due
        invariant Valid() && Traced() && !inside && due == Pour.AnyDue(State())
        invariant Pour.RunTick(State(), Cap()) == Pour.RunTick(old(State()), Cap())
        decreases Pour.DueCount(State().rt, now)
      {
        Pour.LoopEnds(State(), Cap());
        Pour.HeadKeepsNow(State(), Cap());
        var pouring := CallHead();
        if pouring {
          PourOnRtHeap();
        }
        due := RtIsDue();
      }
    }

    /** The guarantee for events of somebody else, whatever steps were taken in whatever
        order: those that were called and those pending are together those of the first
        state and those scheduled since, in this order at each time; nothing was called
        more than half a sample early, and after the loop of a tick nothing due is left. */
    lemma OthersOnHeaps(time: real)
      requires Valid() && Traced() && Serve.Inner(first.temp) && Pour.RoomThroughout(first, Cap(), moves)
      ensures var done := Serve.Others(Pour.Events(log)) + Serve.Others(rt.Pending());
        var due := Serve.Others(Pour.Events(first.log)) + Serve.Others(first.rt);
        && multiset(done) == multiset(due) + multiset(Serve.Posted(moves))
        && AtTime(done, time) == AtTime(due, time) + AtTime(Serve.Posted(moves), time)
      ensures first.log <= log
      ensures forall i :: |first.log| <= i < |log| ==> log[i].event.time <= log[i].at + 0.5 && first.now <= log[i].at <= now
      ensures Pour.TickOver(State()) ==> forall i :: 0 <= i < |rt.Pending()| ==> rt.Pending()[i].time > now + 0.5
    {
      hide Heap.Valid, Untag, Pour.RoomThroughout, Pour.Reaches, Pour.Events, Serve.Others, Serve.Posted, Pour.TickOver, Serve.Inner, AtTime;
      Serve.OthersServed(first, Cap(), moves, State(), time);
    }

    /** The pour guarantee for the two heaps, whatever steps were taken in whatever
        order: pour-on-rt-heap was waiting at place k of the real-time heap when the
        trace began, and no step met a full heap. */
    lemma PouredOnHeaps(k: nat)
      requires Valid() && Traced() && Pour.Begins(first, k) && Pour.RoomThroughout(first, Cap(), moves)
      ensures |Pour.Done(State())| <= |first.temp|
      ensures forall i :: 0 <= i < |Pour.Done(State())| ==>
                Pour.Done(State())[i] == Event(first.temp[i].time + first.offset, first.temp[i].call)
      ensures forall i :: 0 <= i < |log| && log[i].event.call.Poured? ==>
                log[i].at == if log[i].event.time >= first.now then log[i].event.time else first.now
      ensures ends <= 1 && (ends == 1 ==> temp.next == ROOT)
      ensures Pour.TickOver(State()) ==> (ends == 1 <==> temp.next == ROOT)
      ensures Pour.TickOver(State()) ==> forall i ::
        |Pour.Done(State())| <= i < |first.temp| ==> first.temp[i].time + first.offset > now
    {
      hide Heap.Valid, Untag, Pour.RoomThroughout, Pour.Begins, Pour.Reaches, Pour.Done, Pour.TickOver;
      Counts();
      Pour.PouredInOrder(first, k, Cap(), moves, State());
    }
  }
}
