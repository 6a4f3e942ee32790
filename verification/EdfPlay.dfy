/** The event heap in use: any series of schedule-at and get-heap, on the queue that
    the heap stands for (src/edf-sched.lisp:128-155, 187-212). A get changes what
    the next tags are compared with, and an empty heap restarts them. */
module EdfPlay {
  import opened EdfOrder

  datatype Op<F> = Put(event: Event<F>) | Take

  /** The pending events, all events that were accepted, the events that were taken,
      and how many met a full heap. */
  datatype Books<F> = Books(queue: seq<Event<F>>, accepted: seq<Event<F>>, taken: seq<Event<F>>, refused: nat)

  function Do<F>(b: Books<F>, cap: nat, op: Op<F>): Books<F> {
    match op
    case Put(e) =>
      if |b.queue| >= cap then b.(refused := b.refused + 1)
      else b.(queue := Insert(b.queue, e), accepted := b.accepted + [e])
    case Take =>
      if b.queue == [] then b else b.(queue := b.queue[1..], taken := b.taken + [b.queue[0]])
  }

  function Play<F>(b: Books<F>, cap: nat, ops: seq<Op<F>>): Books<F>
    decreases |ops|
  {
    if ops == [] then b else Play(Do(b, cap, ops[0]), cap, ops[1..])
  }

  /** The events that a series of operations puts on the heap. */
  function Puts<F>(ops: seq<Op<F>>): seq<Event<F>> {
    if ops == [] then []
    else (if ops[0].Put? then [ops[0].event] else []) + Puts(ops[1..])
  }

  /** The heap has room for every event. */
  ghost predicate RoomForAll<F>(b: Books<F>, cap: nat, ops: seq<Op<F>>)
    decreases |ops|
  {
    ops != [] ==>
      && (ops[0].Put? ==> |b.queue| < cap)
      && RoomForAll(Do(b, cap, ops[0]), cap, ops[1..])
  }

  /** The events taken so far and those still pending, one after the other. */
  function Order<F>(b: Books<F>): seq<Event<F>> {
    b.taken + b.queue
  }

  /** Nothing is lost or added, and the events of one time keep the order in which
      they were scheduled. */
  ghost predicate Stable<F>(b: Books<F>, time: real) {
    && InTime(b.queue)
    && AtTime(Order(b), time) == AtTime(b.accepted, time)
    && multiset(Order(b)) == multiset(b.accepted)
  }

  lemma PutStable<F>(b: Books<F>, cap: nat, e: Event<F>, time: real)
    requires Stable(b, time)
    ensures Stable(Do(b, cap, Put(e)), time)
  {
    hide Insert, InTime, AtTime;
    if |b.queue| < cap {
      InsertInTime(b.queue, e);
      InsertStable(b.queue, e, time);
      InsertContents(b.queue, e);
      AtTimeAppend(b.taken, b.queue, time);
      AtTimeAppend(b.taken, Insert(b.queue, e), time);
      AtTimeAppend(b.accepted, [e], time);
      AtTimeSingle(e, time);
    }
  }

  lemma TakeStable<F>(b: Books<F>, cap: nat, time: real)
    requires Stable(b, time)
    ensures Stable(Do(b, cap, Take), time)
  {
    if b.queue != [] {
      assert Order(Do(b, cap, Take)) == Order(b);
    }
  }

  /** However schedule-at and get-heap follow each other, with refused events as well:
      the events of each time are taken and pending in the order in which they were
      scheduled, nothing is lost, added or repeated, and what is pending is in the
      order of the times, so that the next get takes an earliest event. */
  lemma {:induction false} PlayStable<F>(b: Books<F>, cap: nat, ops: seq<Op<F>>, time: real)
    requires Stable(b, time)
    ensures Stable(Play(b, cap, ops), time)
    decreases |ops|
  {
    hide Stable, Do;
    if ops != [] {
      match ops[0] {
        case Put(e) => PutStable(b, cap, e, time);
        case Take => TakeStable(b, cap, time);
      }
      PlayStable(Do(b, cap, ops[0]), cap, ops[1..], time);
    }
  }

  /** An event is refused exactly when the heap is full, and the others are accepted in
      the order of the calls. */
  lemma {:induction false} RefusedIff<F>(b: Books<F>, cap: nat, ops: seq<Op<F>>)
    ensures Play(b, cap, ops).refused >= b.refused
    ensures Play(b, cap, ops).refused == b.refused <==> RoomForAll(b, cap, ops)
    ensures RoomForAll(b, cap, ops) ==> Play(b, cap, ops).accepted == b.accepted + Puts(ops)
    decreases |ops|
  {
    hide Insert;
    if ops != [] {
      RefusedIff(Do(b, cap, ops[0]), cap, ops[1..]);
    }
  }

  /** If the heap is never full: each time has the events of before and those that were
      scheduled since, in this order, taken or pending. */
  lemma PlayAll<F>(b: Books<F>, cap: nat, ops: seq<Op<F>>, time: real)
    requires Stable(b, time) && RoomForAll(b, cap, ops)
    ensures AtTime(Order(Play(b, cap, ops)), time) == AtTime(Order(b), time) + AtTime(Puts(ops), time)
    ensures multiset(Order(Play(b, cap, ops))) == multiset(Order(b)) + multiset(Puts(ops))
  {
    hide AtTime, Play, Puts, Order;
    PlayStable(b, cap, ops, time);
    RefusedIff(b, cap, ops);
    AtTimeAppend(b.accepted, Puts(ops), time);
  }

  /* Without events into the past */

  /** No event is scheduled before an event that was taken already. */
  ghost predicate Forward<F>(b: Books<F>, cap: nat, ops: seq<Op<F>>)
    decreases |ops|
  {
    ops != [] ==>
      && (ops[0].Put? ==> NotBefore(b.taken, ops[0].event.time))
      && Forward(Do(b, cap, ops[0]), cap, ops[1..])
  }

  ghost predicate NotBefore<F>(e: seq<Event<F>>, time: real) {
    forall i :: 0 <= i < |e| ==> e[i].time <= time
  }

  /** Insertion goes behind everything that is not later. */
  lemma {:induction false} InsertBehind<F>(a: seq<Event<F>>, q: seq<Event<F>>, x: Event<F>)
    requires NotBefore(a, x.time)
    ensures Insert(a + q, x) == a + Insert(q, x)
  {
    hide Insert;
    if a == [] {
      assert a + q == q && a + Insert(q, x) == Insert(q, x);
    } else {
      InsertBehind(a[1..], q, x);
      assert a + q == [a[0]] + (a[1..] + q);
      InsertFirst(a[0], a[1..] + q, x);
      assert a + Insert(q, x) == [a[0]] + (a[1..] + Insert(q, x));
    }
  }

  lemma InsertFirst<F>(y: Event<F>, q: seq<Event<F>>, x: Event<F>)
    requires y.time <= x.time
    ensures Insert([y] + q, x) == [y] + Insert(q, x)
  {
    assert ([y] + q)[1..] == q;
    var k := Rank(q, x.time);
    assert Rank([y] + q, x.time) == k + 1;
    assert ([y] + q)[..k + 1] == [y] + q[..k] && ([y] + q)[k + 1..] == q[k..];
  }

  lemma {:induction false} ScheduledLast<F>(e: seq<Event<F>>, calls: seq<Event<F>>, x: Event<F>)
    ensures Scheduled(e, calls + [x]) == Insert(Scheduled(e, calls), x)
    decreases |calls|
  {
    hide Insert;
    if calls == [] {
      assert calls + [x] == [x] && [x][1..] == [];
    } else {
      ScheduledLast(Insert(e, calls[0]), calls[1..], x);
      assert (calls + [x])[0] == calls[0] && (calls + [x])[1..] == calls[1..] + [x];
    }
  }

  /** When no event is scheduled into the past, it makes no difference when the gets
      come: all events are taken, and will be taken, in the order in which a heap
      would give them that had been filled with all of them before the first get. */
  lemma {:induction false} PlayIsSorted<F>(e: seq<Event<F>>, b: Books<F>, cap: nat, ops: seq<Op<F>>)
    requires Order(b) == Scheduled(e, b.accepted) && Forward(b, cap, ops)
    ensures var b' := Play(b, cap, ops); Order(b') == Scheduled(e, b'.accepted)
    decreases |ops|
  {
    hide Insert, Scheduled;
    if ops != [] {
      var b' := Do(b, cap, ops[0]);
      if ops[0].Put? {
        var x := ops[0].event;
        InsertBehind(b.taken, b.queue, x);
        ScheduledLast(e, b.accepted, x);
      } else {
        assert Order(b') == Order(b);
      }
      PlayIsSorted(e, b', cap, ops[1..]);
    }
  }
}
