/** Pouring a temporary event heap into the real-time heap, one event per tick
    (src/edf-sched.lisp:231-237, 511-556), as a state machine over the queues that
    the two heaps stand for. Each function that is called is a step of its own, and
    between any two steps other code may schedule events, also while pour-on-rt-heap
    is not yet done. */
module EdfPour {
  import opened EdfOrder

  /** What a real-time event calls: a function of somebody else, a function of the
      temporary heap, or pour-on-rt-heap itself. */
  datatype Job<F> = Foreign(call: F) | Poured(call: F) | Pouring

  /** A function that was called, with its deadline, and the tick of the call. */
  datatype Ran<F> = Ran(event: Event<Job<F>>, at: real)

  /** `inside`: pour-on-rt-heap has been called and has not returned yet. */
  datatype State<F> = State(
    now: real,
    rt: seq<Event<Job<F>>>,
    temp: seq<Event<Job<F>>>,
    offset: real,
    log: seq<Ran<F>>,
    lost: bool,
    ends: nat,
    inside: bool)

  /** The test of the scheduling loop. */
  predicate Due(now: real, time: real) {
    now + 0.5 >= time
  }

  predicate AnyDue<F>(s: State<F>) {
    s.rt != [] && Due(s.now, s.rt[0].time)
  }

  /** The test of the first loop of pour-on-rt-heap. */
  predicate TempDue<F>(s: State<F>) {
    s.temp != [] && Due(s.now, s.temp[0].time + s.offset)
  }

  /** schedule-at on the real-time heap; a full heap loses the event. */
  function Schedule<F>(s: State<F>, cap: nat, e: Event<Job<F>>): State<F> {
    if |s.rt| >= cap then s.(lost := true) else s.(rt := Insert(s.rt, e))
  }

  function Shifted<F>(e: Event<Job<F>>, offset: real): Event<Job<F>> {
    Event(e.time + offset, e.call)
  }

  /** One turn of the first loop of pour-on-rt-heap. */
  function CallFirst<F>(s: State<F>): State<F>
    requires s.temp != []
  {
    s.(temp := s.temp[1..], log := s.log + [Ran(Shifted(s.temp[0], s.offset), s.now)])
  }

  /** The first loop of pour-on-rt-heap: due events are called at once. */
  function RunDue<F>(s: State<F>): State<F>
    decreases |s.temp|
  {
    if TempDue(s) then RunDue(CallFirst(s)) else s
  }

  /** The rest of pour-on-rt-heap: one event moves to the real-time heap, and the
      next call is scheduled if there are more. */
  function MoveNext<F>(s: State<F>, cap: nat): (r: State<F>)
    ensures !r.inside
  {
    if s.temp == [] then s.(ends := s.ends + 1, inside := false)
    else
      var moved := Schedule(s.(temp := s.temp[1..], inside := false), cap, Shifted(s.temp[0], s.offset));
      if |s.temp| == 1 then moved.(ends := s.ends + 1)
      else Schedule(moved, cap, Event(s.now + 1.0, Pouring))
  }

  function Pour<F>(s: State<F>, cap: nat): State<F> {
    MoveNext(RunDue(s), cap)
  }

  /** The head of the real-time heap is called. */
  function CallHead<F>(s: State<F>): State<F>
    requires s.rt != []
  {
    if s.rt[0].call == Pouring then s.(rt := s.rt[1..], inside := true)
    else s.(rt := s.rt[1..], log := s.log + [Ran(s.rt[0], s.now)])
  }

  /** One turn of the scheduling loop, when nobody else schedules. */
  function RunHead<F>(s: State<F>, cap: nat): State<F>
    requires s.rt != []
  {
    if s.rt[0].call == Pouring then Pour(CallHead(s), cap) else CallHead(s)
  }

  /** A sample begins; the head of the real-time heap is called; pour-on-rt-heap
      calls a due event; it moves the next one and returns; somebody else schedules. */
  datatype Move<F> = Tick | Run | Call | Settle | Other(time: real, call: F)

  /** The next sample begins only when nothing is due. */
  predicate Enabled<F>(s: State<F>, m: Move<F>) {
    match m
    case Tick => !s.inside && !AnyDue(s)
    case Run => !s.inside && AnyDue(s)
    case Call => s.inside && TempDue(s)
    case Settle => s.inside && !TempDue(s)
    case Other(_, _) => true
  }

  function Step<F>(s: State<F>, cap: nat, m: Move<F>): State<F>
    requires Enabled(s, m)
  {
    match m
    case Tick => s.(now := s.now + 1.0)
    case Run => CallHead(s)
    case Call => CallFirst(s)
    case Settle => MoveNext(s, cap)
    case Other(time, call) => Schedule(s, cap, Event(time, Foreign(call)))
  }

  /** A run of any length, with any events of others in between. */
  ghost predicate Reaches<F>(s: State<F>, cap: nat, moves: seq<Move<F>>, t: State<F>)
    decreases |moves|
  {
    if moves == [] then s == t
    else Enabled(s, moves[0]) && Reaches(Step(s, cap, moves[0]), cap, moves[1..], t)
  }

  /* What stays true */

  ghost predicate Integral(t: real) {
    t == t.Floor as real
  }

  ghost predicate AllPoured<F>(e: seq<Event<Job<F>>>) {
    forall i :: 0 <= i < |e| ==> e[i].call.Poured? && Integral(e[i].time)
  }

  function Shift<F>(e: seq<Event<Job<F>>>, offset: real): (r: seq<Event<Job<F>>>)
    ensures |r| == |e| && forall i :: 0 <= i < |e| ==> r[i] == Shifted(e[i], offset)
  {
    if e == [] then [] else [Shifted(e[0], offset)] + Shift(e[1..], offset)
  }

  /** The events that came from the temporary heap. */
  function Mine<F>(e: seq<Event<Job<F>>>): (r: seq<Event<Job<F>>>)
    ensures forall i :: 0 <= i < |r| ==> r[i].call.Poured? && r[i] in e
  {
    if e == [] then []
    else (if e[0].call.Poured? then [e[0]] else []) + Mine(e[1..])
  }

  function Events<F>(log: seq<Ran<F>>): (r: seq<Event<Job<F>>>)
    ensures |r| == |log| && forall i :: 0 <= i < |log| ==> r[i] == log[i].event
  {
    if log == [] then [] else [log[0].event] + Events(log[1..])
  }

  /** The functions of the temporary heap that have been called, in order. */
  function Done<F>(s: State<F>): seq<Event<Job<F>>> {
    Mine(Events(s.log))
  }

  /** What is still to come, in order. */
  function Ahead<F>(s: State<F>): seq<Event<Job<F>>> {
    Mine(s.rt) + Shift(s.temp, s.offset)
  }

  function Max(a: real, b: real): real {
    if a >= b then a else b
  }

  /** Every call of a temporary-heap function came at its deadline, or at the
      first tick if that was later. */
  ghost predicate OnTime<F>(log: seq<Ran<F>>, start: real) {
    forall i :: 0 <= i < |log| && log[i].event.call.Poured? ==> log[i].at == Max(log[i].event.time, start)
  }

  ghost predicate NoPouring<F>(e: seq<Event<Job<F>>>) {
    forall i :: 0 <= i < |e| ==> e[i].call != Pouring
  }

  ghost predicate MineAfter<F>(e: seq<Event<Job<F>>>, time: real) {
    forall i :: 0 <= i < |e| && e[i].call.Poured? ==> e[i].time > time
  }

  ghost predicate MineFrom<F>(e: seq<Event<Job<F>>>, time: real) {
    forall i :: 0 <= i < |e| && e[i].call.Poured? ==> e[i].time >= time
  }

  /** The call of pour-on-rt-heap waits at k; poured events behind it are later. */
  ghost predicate PouringAt<F>(e: seq<Event<Job<F>>>, now: real, k: nat) {
    && k < |e| && e[k].call == Pouring && NoPouring(e[..k]) && NoPouring(e[k + 1..])
    && MineAfter(e[k + 1..], Max(e[k].time, now))
  }

  /** The call of pour-on-rt-heap is either still to come in this tick or planned
      for the next one. */
  ghost predicate OnSchedule<F>(s: State<F>, start: real, k: nat) {
    && PouringAt(s.rt, s.now, k)
    && (s.rt[k].time <= s.now ==> s.now == start || MineFrom(Shift(s.temp, s.offset), s.now))
    && (s.rt[k].time > s.now ==> s.rt[k].time == s.now + 1.0 && s.temp != [] && MineAfter(Shift(s.temp, s.offset), s.now))
  }

  /** In the middle of pour-on-rt-heap no call of it is pending. */
  ghost predicate Midway<F>(s: State<F>, start: real) {
    && s.ends == 0 && NoPouring(s.rt) && MineAfter(s.rt, s.now)
    && (s.now == start || MineFrom(Shift(s.temp, s.offset), s.now))
  }

  ghost predicate Phase<F>(s: State<F>, start: real) {
    if s.inside then Midway(s, start)
    else if s.ends == 0 then exists k: nat :: OnSchedule(s, start, k)
    else s.ends == 1 && NoPouring(s.rt) && s.temp == []
  }

  /** Nothing is lost, repeated or out of order, and nothing runs at another tick
      than its own. */
  ghost predicate Core<F>(s: State<F>, all: seq<Event<Job<F>>>, start: real) {
    && Integral(s.now) && start <= s.now
    && InTime(s.rt) && InTime(all) && AllPoured(all)
    && Done(s) + Ahead(s) == all
    && MineFrom(s.rt, s.now)
    && OnTime(s.log, start)
  }

  ghost predicate Inv<F>(s: State<F>, all: seq<Event<Job<F>>>, start: real) {
    Core(s, all, start) && Phase(s, start)
  }

  /* Sequences */

  lemma DueMeansReached(now: real, time: real)
    requires Integral(now) && Integral(time)
    ensures Due(now, time) <==> time <= now
  {
    var n, t := now.Floor, time.Floor;
    assert t > n ==> t as real >= n as real + 1.0;
  }

  lemma {:induction false} MineAppend<F>(a: seq<Event<Job<F>>>, b: seq<Event<Job<F>>>)
    ensures Mine(a + b) == Mine(a) + Mine(b)
  {
    if a == [] {
      assert a + b == b;
    } else {
      var c := a + b;
      assert c[0] == a[0] && c[1..] == a[1..] + b;
      MineAppend(a[1..], b);
    }
  }

  lemma EventsAppend<F>(a: seq<Ran<F>>, r: Ran<F>)
    ensures Events(a + [r]) == Events(a) + [r.event]
  {
  }

  lemma {:induction false} MineHas<F>(e: seq<Event<Job<F>>>, i: nat)
    requires i < |e| && e[i].call.Poured?
    ensures e[i] in Mine(e)
  {
    if i > 0 {
      MineHas(e[1..], i - 1);
    }
  }

  lemma {:induction false} MineNone<F>(e: seq<Event<Job<F>>>)
    requires forall i :: 0 <= i < |e| ==> !e[i].call.Poured?
    ensures Mine(e) == []
  {
    if e != [] {
      MineNone(e[1..]);
    }
  }

  lemma {:induction false} MineInsert<F>(e: seq<Event<Job<F>>>, x: Event<Job<F>>, k: nat)
    requires k <= |e|
    ensures Mine(e[..k] + [x] + e[k..]) == Mine(e[..k]) + (if x.call.Poured? then [x] else []) + Mine(e[k..])
    ensures Mine(e) == Mine(e[..k]) + Mine(e[k..])
  {
    assert Mine([x]) == (if x.call.Poured? then [x] else []) by {
      assert [x][1..] == [];
    }
    hide Mine;
    MineAppend(e[..k] + [x], e[k..]);
    MineAppend(e[..k], [x]);
    MineAppend(e[..k], e[k..]);
    assert e == e[..k] + e[k..];
  }

  /** An event of somebody else does not touch the order of mine. */
  lemma MineInsertOther<F>(e: seq<Event<Job<F>>>, x: Event<Job<F>>)
    requires !x.call.Poured?
    ensures Mine(Insert(e, x)) == Mine(e)
  {
    hide Insert, Rank, Splice, Mine;
    var k := InsertView(e, x);
    MineInsert(e, x, k);
  }

  /** A new event that is not before any of mine goes behind them all. */
  lemma MineInsertLast<F>(e: seq<Event<Job<F>>>, x: Event<Job<F>>)
    requires InTime(e) && x.call.Poured?
    requires forall i :: 0 <= i < |Mine(e)| ==> Mine(e)[i].time <= x.time
    ensures Mine(Insert(e, x)) == Mine(e) + [x]
  {
    hide Insert, Rank, Splice, Mine;
    var k := InsertView(e, x);
    forall i | k <= i < |e|
      ensures !e[i].call.Poured?
    {
      assert e[i].time >= e[k].time > x.time;
      if e[i].call.Poured? {
        MineHas(e, i);
      }
    }
    MineNone(e[k..]);
    MineInsert(e, x, k);
  }

  lemma InsertMembers<F>(e: seq<Event<Job<F>>>, x: Event<Job<F>>, time: real)
    requires MineFrom(e, time) && (x.call.Poured? ==> x.time >= time)
    ensures MineFrom(Insert(e, x), time)
  {
    hide Insert, Rank, Splice;
    var k := InsertView(e, x);
  }

  lemma InsertAfter<F>(e: seq<Event<Job<F>>>, x: Event<Job<F>>, time: real)
    requires MineAfter(e, time) && !x.call.Poured?
    ensures MineAfter(Insert(e, x), time)
  {
    hide Insert, Rank, Splice;
    var k := InsertView(e, x);
  }

  lemma InsertNoPouring<F>(e: seq<Event<Job<F>>>, x: Event<Job<F>>)
    requires NoPouring(e) && x.call != Pouring
    ensures NoPouring(Insert(e, x))
  {
    hide Insert, Rank, Splice;
    var k := InsertView(e, x);
  }

  lemma MineHead<F>(e: seq<Event<Job<F>>>)
    requires e != []
    ensures Mine(e) == (if e[0].call.Poured? then [e[0]] else []) + Mine(e[1..])
  {
  }

  /* One step */

  /** PouringAt, index by index. */
  ghost predicate PouringHere<F>(e: seq<Event<Job<F>>>, now: real, k: nat) {
    && k < |e| && e[k].call == Pouring
    && (forall i :: 0 <= i < |e| && i != k ==> e[i].call != Pouring)
    && (forall i :: k < i < |e| && e[i].call.Poured? ==> e[i].time > Max(e[k].time, now))
  }

  lemma PouringIndexed<F>(e: seq<Event<Job<F>>>, now: real, k: nat)
    ensures PouringAt(e, now, k) <==> PouringHere(e, now, k)
  {
    if k < |e| {
      assert forall i :: 0 <= i < k ==> e[i] == e[..k][i];
      assert forall i :: k < i < |e| ==> e[i] == e[k + 1..][i - k - 1];
    }
  }

  lemma OtherKeepsPlace<F>(e: seq<Event<Job<F>>>, x: Event<Job<F>>, now: real, k: nat) returns (k': nat)
    requires PouringAt(e, now, k) && x.call.Foreign?
    ensures PouringAt(Insert(e, x), now, k') && Insert(e, x)[k'] == e[k]
  {
    hide Insert, Rank, Splice, PouringAt;
    var r := InsertView(e, x);
    k' := if r <= k then k + 1 else k;
    PouringIndexed(e, now, k);
    PouringIndexed(Insert(e, x), now, k');
  }

  lemma OtherKeeps<F>(s: State<F>, cap: nat, all: seq<Event<Job<F>>>, start: real, x: Event<Job<F>>)
    requires Inv(s, all, start) && x.call.Foreign? && |s.rt| < cap
    ensures Inv(Schedule(s, cap, x), all, start)
  {
    var s' := Schedule(s, cap, x);
    assert Core(s', all, start) by {
      InsertInTime(s.rt, x);
      MineInsertOther(s.rt, x);
      InsertMembers(s.rt, x, s.now);
    }
    if s.inside {
      InsertAfter(s.rt, x, s.now);
      InsertNoPouring(s.rt, x);
    } else if s.ends == 0 {
      var k: nat :| OnSchedule(s, start, k);
      var k' := OtherKeepsPlace(s.rt, x, s.now, k);
      assert OnSchedule(s', start, k');
    } else {
      InsertNoPouring(s.rt, x);
    }
  }

  /** An event ahead is integral and one of mine. */
  lemma AheadPoured<F>(s: State<F>, all: seq<Event<Job<F>>>, start: real, i: nat)
    requires Core(s, all, start) && i < |Ahead(s)|
    ensures Ahead(s)[i].call.Poured? && Integral(Ahead(s)[i].time)
    ensures forall j :: i <= j < |Ahead(s)| ==> Ahead(s)[i].time <= Ahead(s)[j].time
  {
    var n := |Done(s)|;
    assert forall j :: 0 <= j < |Ahead(s)| ==> Ahead(s)[j] == all[n + j];
  }

  lemma DoneAppend<F>(log: seq<Ran<F>>, r: Ran<F>)
    ensures Mine(Events(log + [r])) == Mine(Events(log)) + (if r.event.call.Poured? then [r.event] else [])
  {
    assert Mine([r.event]) == (if r.event.call.Poured? then [r.event] else []) by {
      assert [r.event][1..] == [];
    }
    EventsAppend(log, r);
    MineAppend(Events(log), [r.event]);
  }

  /** The head of the real-time heap, if it is mine, is the next one ahead. */
  lemma HeadIsNext<F>(s: State<F>, all: seq<Event<Job<F>>>, start: real)
    requires Core(s, all, start) && AnyDue(s) && s.rt[0].call.Poured?
    ensures s.rt[0].time == s.now
  {
    MineHead(s.rt);
    assert Ahead(s)[0] == s.rt[0];
    AheadPoured(s, all, start, 0);
    DueMeansReached(s.now, s.rt[0].time);
  }

  lemma CallKeepsOrder<F>(s: State<F>)
    requires s.rt != []
    ensures var s' := s.(rt := s.rt[1..], log := s.log + [Ran(s.rt[0], s.now)]);
            Done(s') + Ahead(s') == Done(s) + Ahead(s)
  {
    hide Mine, Events, Shift;
    MineHead(s.rt);
    DoneAppend(s.log, Ran(s.rt[0], s.now));
  }

  lemma CallKeepsCore<F>(s: State<F>, all: seq<Event<Job<F>>>, start: real)
    requires Core(s, all, start) && AnyDue(s)
    ensures Core(s.(rt := s.rt[1..], log := s.log + [Ran(s.rt[0], s.now)]), all, start)
  {
    if s.rt[0].call.Poured? {
      HeadIsNext(s, all, start);
    }
    hide Done, Ahead, AllPoured, AnyDue;
    CallKeepsOrder(s);
  }

  lemma HeadLeaves<F>(e: seq<Event<Job<F>>>, now: real, k: nat)
    requires PouringAt(e, now, k) && e[0].call != Pouring
    ensures k > 0 && PouringAt(e[1..], now, k - 1) && e[1..][k - 1] == e[k]
  {
    PouringIndexed(e, now, k);
    PouringIndexed(e[1..], now, k - 1);
  }

  lemma CallKeeps<F>(s: State<F>, all: seq<Event<Job<F>>>, start: real)
    requires Inv(s, all, start) && !s.inside && AnyDue(s) && s.rt[0].call != Pouring
    ensures Inv(CallHead(s), all, start)
  {
    hide Core, PouringAt, Mine, Shift;
    CallKeepsCore(s, all, start);
    if s.ends == 0 {
      var k: nat :| OnSchedule(s, start, k);
      HeadLeaves(s.rt, s.now, k);
      assert OnSchedule(CallHead(s), start, k - 1);
    }
  }

  lemma TickKeepsCore<F>(s: State<F>, all: seq<Event<Job<F>>>, start: real)
    requires Core(s, all, start) && !AnyDue(s)
    ensures Core(s.(now := s.now + 1.0), all, start)
  {
    assert s.now + 1.0 == (s.now.Floor + 1) as real;
    forall i | 0 <= i < |s.rt| && s.rt[i].call.Poured?
      ensures s.rt[i].time >= s.now + 1.0
    {
      MineHas(s.rt, i);
      var j :| 0 <= j < |Mine(s.rt)| && Mine(s.rt)[j] == s.rt[i];
      assert Ahead(s)[j] == s.rt[i];
      AheadPoured(s, all, start, j);
      LaterByOne(s.now, s.rt[i].time);
    }
  }

  lemma LaterByOne(now: real, time: real)
    requires Integral(now) && Integral(time) && time > now
    ensures time >= now + 1.0
  {
    assert time.Floor >= now.Floor + 1;
  }

  lemma TickKeeps<F>(s: State<F>, all: seq<Event<Job<F>>>, start: real)
    requires Inv(s, all, start) && !s.inside && !AnyDue(s)
    ensures Inv(s.(now := s.now + 1.0), all, start)
  {
    var s' := s.(now := s.now + 1.0);
    TickKeepsCore(s, all, start);
    if s.ends == 0 {
      var k: nat :| OnSchedule(s, start, k);
      assert !Due(s.now, s.rt[k].time);
      forall i | 0 <= i < |s.temp|
        ensures Shift(s.temp, s.offset)[i].time >= s.now + 1.0
      {
        var j := |Mine(s.rt)| + i;
        assert Ahead(s)[j] == Shift(s.temp, s.offset)[i];
        AheadPoured(s, all, start, j);
        LaterByOne(s.now, Ahead(s)[j].time);
      }
      assert OnSchedule(s', start, k);
    }
  }

  /* The call of pour-on-rt-heap */

  lemma TailInTime<F>(e: seq<Event<Job<F>>>)
    requires InTime(e) && e != []
    ensures InTime(e[1..])
  {
  }

  lemma PourStarts<F>(s: State<F>, all: seq<Event<Job<F>>>, start: real)
    requires Inv(s, all, start) && !s.inside && AnyDue(s) && s.rt[0].call == Pouring
    ensures Inv(CallHead(s), all, start)
  {
    hide Mine, Shift, Events, OnTime, InTime, Integral, AllPoured;
    assert s.ends == 0;
    var k: nat :| OnSchedule(s, start, k);
    assert k == 0 by {
      PouringIndexed(s.rt, s.now, k);
    }
    MineHead(s.rt);
    TailInTime(s.rt);
  }

  lemma FirstOfTemp<F>(s: State<F>, all: seq<Event<Job<F>>>, start: real)
    requires Core(s, all, start) && s.temp != []
    ensures Shift(s.temp, s.offset) == [Shifted(s.temp[0], s.offset)] + Shift(s.temp[1..], s.offset)
    ensures var x := Shifted(s.temp[0], s.offset);
      && x.call.Poured? && Integral(x.time)
      && (forall i :: 0 <= i < |Mine(s.rt)| ==> Mine(s.rt)[i].time <= x.time)
      && (forall i :: 0 <= i < |s.temp| ==> x.time <= Shift(s.temp, s.offset)[i].time)
  {
    var m := |Mine(s.rt)|;
    assert Ahead(s)[m] == Shifted(s.temp[0], s.offset);
    AheadPoured(s, all, start, m);
    forall i | 0 <= i < m
      ensures Mine(s.rt)[i].time <= Shifted(s.temp[0], s.offset).time
    {
      AheadPoured(s, all, start, i);
      assert Ahead(s)[i] == Mine(s.rt)[i];
    }
    assert forall i :: 0 <= i < |s.temp| ==> Shift(s.temp, s.offset)[i] == Ahead(s)[m + i];
  }

  lemma FirstMine<F>(e: seq<Event<Job<F>>>, time: real)
    requires MineAfter(e, time) && Mine(e) != []
    ensures Mine(e)[0].time > time
  {
    assert Mine(e)[0] in e;
  }

  lemma CallFirstKeeps<F>(s: State<F>, all: seq<Event<Job<F>>>, start: real)
    requires Inv(s, all, start) && s.inside && TempDue(s)
    ensures Inv(CallFirst(s), all, start)
  {
    hide Mine, Shift, Events;
    var x := Shifted(s.temp[0], s.offset);
    FirstOfTemp(s, all, start);
    DueMeansReached(s.now, x.time);
    DoneAppend(s.log, Ran(x, s.now));
    if Mine(s.rt) != [] {
      FirstMine(s.rt, s.now);
      assert false;
    }
    var s' := CallFirst(s);
    assert Done(s') + Ahead(s') == Done(s) + Ahead(s);
    if s.now != start {
      assert Shift(s.temp, s.offset)[0] == x;
      forall i | 0 <= i < |s'.temp|
        ensures Shift(s'.temp, s.offset)[i].time >= s.now
      {
        assert Shift(s'.temp, s.offset)[i] == Shift(s.temp, s.offset)[i + 1];
      }
    }
  }

  lemma TempNotDue<F>(s: State<F>, all: seq<Event<Job<F>>>, start: real)
    requires Core(s, all, start) && !TempDue(s)
    ensures MineAfter(Shift(s.temp, s.offset), s.now)
  {
    if s.temp != [] {
      FirstOfTemp(s, all, start);
      DueMeansReached(s.now, s.temp[0].time + s.offset);
    }
  }

  function MoveFirst<F>(s: State<F>): State<F>
    requires s.temp != []
  {
    s.(temp := s.temp[1..], rt := Insert(s.rt, Shifted(s.temp[0], s.offset)), inside := false)
  }

  lemma MoveFirstKeeps<F>(s: State<F>, all: seq<Event<Job<F>>>, start: real)
    requires Core(s, all, start) && Midway(s, start) && !TempDue(s) && s.temp != []
    ensures Core(MoveFirst(s), all, start) && NoPouring(MoveFirst(s).rt)
    ensures MineAfter(Shift(MoveFirst(s).temp, s.offset), s.now)
  {
    hide Mine, Shift, Events, Insert;
    var x := Shifted(s.temp[0], s.offset);
    FirstOfTemp(s, all, start);
    TempNotDue(s, all, start);
    assert Shift(s.temp, s.offset)[0] == x;
    InsertInTime(s.rt, x);
    MineInsertLast(s.rt, x);
    InsertMembers(s.rt, x, s.now);
    InsertNoPouring(s.rt, x);
    var s' := MoveFirst(s);
    assert Done(s') + Ahead(s') == Done(s) + Ahead(s);
    forall i | 0 <= i < |s'.temp| && Shift(s'.temp, s.offset)[i].call.Poured?
      ensures Shift(s'.temp, s.offset)[i].time > s.now
    {
      assert Shift(s'.temp, s.offset)[i] == Shift(s.temp, s.offset)[i + 1];
    }
  }

  lemma PlanNext<F>(s: State<F>, all: seq<Event<Job<F>>>, start: real) returns (k: nat)
    requires Core(s, all, start) && NoPouring(s.rt) && s.temp != [] && MineAfter(Shift(s.temp, s.offset), s.now)
    ensures Core(s.(rt := Insert(s.rt, Event(s.now + 1.0, Pouring))), all, start)
    ensures OnSchedule(s.(rt := Insert(s.rt, Event(s.now + 1.0, Pouring))), start, k)
  {
    hide Mine, Shift, Events, Insert;
    var x := Event(s.now + 1.0, Pouring);
    InsertInTime(s.rt, x);
    MineInsertOther(s.rt, x);
    InsertMembers(s.rt, x, s.now);
    var s' := s.(rt := Insert(s.rt, x));
    k := InsertView(s.rt, x);
    assert forall i :: k <= i < |s.rt| ==> s.rt[i].time > x.time;
    PouringIndexed(s'.rt, s.now, k);
    assert OnSchedule(s', start, k);
  }

  lemma EndKeeps<F>(s: State<F>, all: seq<Event<Job<F>>>, start: real)
    requires Core(s, all, start) && NoPouring(s.rt) && s.temp == [] && s.ends == 0
    ensures Inv(s.(ends := 1, inside := false), all, start)
  {
    assert Core(s.(ends := 1, inside := false), all, start);
  }

  lemma MoveNextKeeps<F>(s: State<F>, cap: nat, all: seq<Event<Job<F>>>, start: real)
    requires Inv(s, all, start) && s.inside && !TempDue(s) && !MoveNext(s, cap).lost
    ensures Inv(MoveNext(s, cap), all, start)
  {
    hide Core, Shift, Insert, OnSchedule, MineAfter, NoPouring, TempDue;
    if s.temp == [] {
      EndKeeps(s, all, start);
    } else {
      MoveFirstKeeps(s, all, start);
      var moved := Schedule(s.(temp := s.temp[1..], inside := false), cap, Shifted(s.temp[0], s.offset));
      assert moved == MoveFirst(s);
      if |s.temp| == 1 {
        EndKeeps(moved, all, start);
      } else {
        var k := PlanNext(moved, all, start);
      }
    }
  }

  /* Whole runs */

  lemma StepKeeps<F>(s: State<F>, cap: nat, m: Move<F>, all: seq<Event<Job<F>>>, start: real)
    requires Inv(s, all, start) && Enabled(s, m) && !s.lost && !Step(s, cap, m).lost
    ensures Inv(Step(s, cap, m), all, start)
  {
    hide Inv, MoveNext, CallHead, CallFirst;
    match m
    case Tick =>
      TickKeeps(s, all, start);
    case Other(time, call) =>
      OtherKeeps(s, cap, all, start, Event(time, Foreign(call)));
    case Run =>
      if s.rt[0].call == Pouring {
        PourStarts(s, all, start);
      } else {
        CallKeeps(s, all, start);
      }
    case Call =>
      CallFirstKeeps(s, all, start);
    case Settle =>
      MoveNextKeeps(s, cap, all, start);
  }

  /** The real-time heap has room for what the step schedules: one event of somebody
      else, or the event that moves and the next call of pour-on-rt-heap. */
  predicate HasRoom<F>(s: State<F>, cap: nat, m: Move<F>) {
    match m
    case Other(_, _) => |s.rt| < cap
    case Settle => s.temp == [] || |s.rt| + (if |s.temp| == 1 then 1 else 2) <= cap
    case _ => true
  }

  ghost predicate RoomThroughout<F>(s: State<F>, cap: nat, moves: seq<Move<F>>)
    decreases |moves|
  {
    moves != [] && Enabled(s, moves[0]) ==>
      HasRoom(s, cap, moves[0]) && RoomThroughout(Step(s, cap, moves[0]), cap, moves[1..])
  }

  lemma LosesWhenFull<F>(s: State<F>, cap: nat, m: Move<F>)
    requires Enabled(s, m)
    ensures Step(s, cap, m).lost <==> s.lost || !HasRoom(s, cap, m)
  {
    hide Insert;
    if m.Settle? && s.temp != [] {
      var x := Shifted(s.temp[0], s.offset);
      InsertLength(s.rt, x);
      var moved := Schedule(s.(temp := s.temp[1..], inside := false), cap, x);
      assert |moved.rt| == |s.rt| + if |s.rt| < cap then 1 else 0;
    }
  }

  lemma InsertLength<F>(e: seq<Event<F>>, x: Event<F>)
    ensures |Insert(e, x)| == |e| + 1
  {
  }

  /** An event is lost exactly when a step does not find room for it. */
  lemma {:induction false} LostIff<F>(s: State<F>, cap: nat, moves: seq<Move<F>>, t: State<F>)
    requires Reaches(s, cap, moves, t)
    ensures t.lost <==> s.lost || !RoomThroughout(s, cap, moves)
    decreases |moves|
  {
    hide Step, Enabled, HasRoom;
    if moves != [] {
      LosesWhenFull(s, cap, moves[0]);
      LostIff(Step(s, cap, moves[0]), cap, moves[1..], t);
    }
  }

  /** A lost event stays lost. */
  lemma {:induction false} LostStays<F>(s: State<F>, cap: nat, moves: seq<Move<F>>, t: State<F>)
    requires Reaches(s, cap, moves, t) && s.lost
    ensures t.lost
    decreases |moves|
  {
    if moves != [] {
      LostStays(Step(s, cap, moves[0]), cap, moves[1..], t);
    }
  }

  lemma {:induction false} RunKeeps<F>(s: State<F>, cap: nat, moves: seq<Move<F>>, t: State<F>,
                                       all: seq<Event<Job<F>>>, start: real)
    requires Reaches(s, cap, moves, t) && Inv(s, all, start) && !t.lost
    ensures Inv(t, all, start)
    decreases |moves|
  {
    hide Inv, Step;
    if s.lost {
      LostStays(s, cap, moves, t);
    }
    if moves != [] {
      if Step(s, cap, moves[0]).lost {
        LostStays(Step(s, cap, moves[0]), cap, moves[1..], t);
      }
      StepKeeps(s, cap, moves[0], all, start);
      RunKeeps(Step(s, cap, moves[0]), cap, moves[1..], t, all, start);
    }
  }

  /** pour-on-rt-heap is about to be called for the first time, at place k of the
      real-time heap, on a temporary heap with integral times. */
  ghost predicate Begins<F>(s: State<F>, k: nat) {
    && Integral(s.now) && s.log == [] && s.ends == 0 && !s.lost && !s.inside
    && k < |s.rt| && s.rt[k].call == Pouring && s.rt[k].time <= s.now
    && (forall i :: 0 <= i < |s.rt| && i != k ==> s.rt[i].call.Foreign?)
    && AllPoured(Shift(s.temp, s.offset))
  }

  ghost predicate Initial<F>(s: State<F>, k: nat) {
    InTime(s.rt) && InTime(s.temp) && Begins(s, k)
  }

  lemma InitialNotLost<F>(s: State<F>, k: nat)
    requires Initial(s, k)
    ensures !s.lost
  {
  }

  lemma InitialInv<F>(s: State<F>, k: nat)
    requires Initial(s, k)
    ensures Inv(s, Shift(s.temp, s.offset), s.now)
  {
    MineNone(s.rt);
    PouringIndexed(s.rt, s.now, k);
    assert OnSchedule(s, s.now, k);
  }

  /** A tick is over when the scheduling loop finds nothing due. */
  predicate TickOver<F>(s: State<F>) {
    !s.inside && !AnyDue(s)
  }

  /** At the end of a tick the end action has been called if the temporary heap is
      empty. */
  lemma EndCalled<F>(s: State<F>, all: seq<Event<Job<F>>>, start: real)
    requires Inv(s, all, start) && TickOver(s)
    ensures s.ends == 1 <==> s.temp == []
  {
    hide Core, Mine, Shift;
    if s.ends == 0 {
      var k: nat :| OnSchedule(s, start, k);
      if s.rt[k].time <= s.now {
        EarliestDue(s, all, start, k);
      }
    }
  }

  lemma EarliestDue<F>(s: State<F>, all: seq<Event<Job<F>>>, start: real, k: nat)
    requires Core(s, all, start) && PouringAt(s.rt, s.now, k) && s.rt[k].time <= s.now
    ensures AnyDue(s)
  {
    assert s.rt[0].time <= s.rt[k].time;
  }

  /** At the end of a tick everything ahead is later. */
  lemma NothingOverdue<F>(s: State<F>, all: seq<Event<Job<F>>>, start: real, i: nat)
    requires Inv(s, all, start) && TickOver(s) && i < |Ahead(s)|
    ensures Ahead(s)[i].time > s.now
  {
    hide Mine, Shift;
    var m := |Mine(s.rt)|;
    if i < m {
      assert Ahead(s)[i] == Mine(s.rt)[i];
      assert Mine(s.rt)[i] in s.rt;
    } else {
      assert s.ends == 0;
      var k: nat :| OnSchedule(s, start, k);
      assert Ahead(s)[i] == Shift(s.temp, s.offset)[i - m];
      AheadPoured(s, all, start, i);
    }
  }

  /** The pour protocol, for every run of any length and any events of others in
      between, as long as no step meets a full heap: the functions of the temporary
      heap are called in order, each at its own tick and never before its offset
      time; at the end of a tick none of them is overdue, and the end action has
      been called, once, exactly if the temporary heap is empty. */
  lemma PouredInOrder<F>(s: State<F>, k: nat, cap: nat, moves: seq<Move<F>>, t: State<F>)
    requires Initial(s, k) && Reaches(s, cap, moves, t) && RoomThroughout(s, cap, moves)
    ensures |Done(t)| <= |s.temp|
    ensures forall i :: 0 <= i < |Done(t)| ==> Done(t)[i] == Event(s.temp[i].time + s.offset, s.temp[i].call)
    ensures forall i :: 0 <= i < |t.log| && t.log[i].event.call.Poured? ==>
              t.log[i].at == if t.log[i].event.time >= s.now then t.log[i].event.time else s.now
    ensures TickOver(t) ==> forall i :: |Done(t)| <= i < |s.temp| ==> s.temp[i].time + s.offset > t.now
    ensures t.ends <= 1 && (t.ends == 1 ==> t.temp == [])
    ensures TickOver(t) ==> (t.ends == 1 <==> t.temp == [])
  {
    InitialNotLost(s, k);
    hide Inv, Initial, RoomThroughout;
    InitialInv(s, k);
    LostIff(s, cap, moves, t);
    RunKeeps(s, cap, moves, t, Shift(s.temp, s.offset), s.now);
    InvMeans(t, Shift(s.temp, s.offset), s.now);
  }

  lemma InvMeans<F>(t: State<F>, all: seq<Event<Job<F>>>, start: real)
    requires Inv(t, all, start)
    ensures Done(t) <= all && OnTime(t.log, start)
    ensures TickOver(t) ==> forall i :: |Done(t)| <= i < |all| ==> all[i].time > t.now
    ensures t.ends <= 1 && (t.ends == 1 ==> t.temp == [])
    ensures TickOver(t) ==> (t.ends == 1 <==> t.temp == [])
  {
    hide OnSchedule, Done, Ahead, TickOver;
    if TickOver(t) {
      EndCalled(t, all, start);
      forall i | |Done(t)| <= i < |all|
        ensures all[i].time > t.now
      {
        assert all[i] == Ahead(t)[i - |Done(t)|];
        NothingOverdue(t, all, start, i - |Done(t)|);
      }
    }
  }

  /* The scheduling loop ends */

  function DueCount<F>(e: seq<Event<Job<F>>>, now: real): nat {
    if e == [] then 0 else (if Due(now, e[0].time) then 1 else 0) + DueCount(e[1..], now)
  }

  lemma {:induction false} DueCountAppend<F>(a: seq<Event<Job<F>>>, b: seq<Event<Job<F>>>, now: real)
    ensures DueCount(a + b, now) == DueCount(a, now) + DueCount(b, now)
  {
    if a == [] {
      assert a + b == b;
    } else {
      DueCountAppend(a[1..], b, now);
      assert (a + b)[1..] == a[1..] + b;
    }
  }

  lemma DueCountInsert<F>(e: seq<Event<Job<F>>>, x: Event<Job<F>>, now: real)
    requires !Due(now, x.time)
    ensures DueCount(Insert(e, x), now) == DueCount(e, now)
  {
    hide Insert, Rank, Splice;
    var k := InsertView(e, x);
    DueCountAppend(e[..k] + [x], e[k..], now);
    DueCountAppend(e[..k], [x], now);
    DueCountAppend(e[..k], e[k..], now);
    assert DueCount([x], now) == 0;
    assert e == e[..k] + e[k..];
  }

  lemma {:induction false} RunDueFrame<F>(s: State<F>)
    ensures RunDue(s).rt == s.rt && RunDue(s).now == s.now && RunDue(s).offset == s.offset
    ensures !TempDue(RunDue(s))
    decreases |s.temp|
  {
    if TempDue(s) {
      RunDueFrame(CallFirst(s));
    }
  }

  /** Every turn of the loop leaves less to do in this tick, pouring included. */
  lemma LoopEnds<F>(s: State<F>, cap: nat)
    requires AnyDue(s)
    ensures DueCount(RunHead(s, cap).rt, s.now) < DueCount(s.rt, s.now)
  {
    hide Insert, RunDue;
    if s.rt[0].call == Pouring {
      var r := RunDue(CallHead(s));
      RunDueFrame(CallHead(s));
      if r.temp != [] {
        var x := Shifted(r.temp[0], r.offset);
        DueCountInsert(r.rt, x, s.now);
        var moved := Schedule(r.(temp := r.temp[1..], inside := false), cap, x);
        DueCountInsert(moved.rt, Event(s.now + 1.0, Pouring), s.now);
      }
    }
  }

  lemma HeadKeepsNow<F>(s: State<F>, cap: nat)
    requires s.rt != []
    ensures RunHead(s, cap).now == s.now && RunHead(s, cap).offset == s.offset
    ensures !s.inside ==> !RunHead(s, cap).inside
  {
    hide Insert, RunDue;
    RunDueFrame(CallHead(s));
  }

  /** The scheduling loop of one tick. */
  function RunTick<F>(s: State<F>, cap: nat): State<F>
    decreases DueCount(s.rt, s.now)
  {
    if AnyDue(s) then
      LoopEnds(s, cap);
      HeadKeepsNow(s, cap);
      RunTick(RunHead(s, cap), cap)
    else s
  }

  lemma {:induction false} RunsJoin<F>(s: State<F>, cap: nat, a: seq<Move<F>>, t: State<F>, b: seq<Move<F>>, u: State<F>)
    requires Reaches(s, cap, a, t) && Reaches(t, cap, b, u)
    ensures Reaches(s, cap, a + b, u)
    decreases |a|
  {
    hide Step, Enabled;
    if a == [] {
      assert a + b == b;
    } else {
      RunsJoin(Step(s, cap, a[0]), cap, a[1..], t, b, u);
      assert (a + b)[0] == a[0] && (a + b)[1..] == a[1..] + b;
    }
  }

  lemma RunsOnce<F>(s: State<F>, cap: nat, m: Move<F>)
    requires Enabled(s, m)
    ensures Reaches(s, cap, [m], Step(s, cap, m))
  {
    assert [m][1..] == [];
    assert Reaches(Step(s, cap, m), cap, [], Step(s, cap, m));
  }

  /** A run goes on. */
  lemma RunsOn<F>(s: State<F>, cap: nat, moves: seq<Move<F>>, t: State<F>, m: Move<F>)
    requires Reaches(s, cap, moves, t) && Enabled(t, m)
    ensures Reaches(s, cap, moves + [m], Step(t, cap, m))
  {
    RunsOnce(t, cap, m);
    RunsJoin(s, cap, moves, t, [m], Step(t, cap, m));
  }

  /** pour-on-rt-heap is a series of steps. */
  lemma {:induction false} PourIsRun<F>(s: State<F>, cap: nat) returns (moves: seq<Move<F>>)
    requires s.inside
    ensures Reaches(s, cap, moves, Pour(s, cap))
    decreases |s.temp|
  {
    hide MoveNext;
    if TempDue(s) {
      var rest := PourIsRun(CallFirst(s), cap);
      RunsOnce(s, cap, Call);
      RunsJoin(s, cap, [Call], CallFirst(s), rest, Pour(s, cap));
      moves := [Call] + rest;
    } else {
      RunsOnce(s, cap, Settle);
      moves := [Settle];
    }
  }

  /** A turn of the scheduling loop is a series of steps. */
  lemma TurnIsRun<F>(s: State<F>, cap: nat) returns (moves: seq<Move<F>>)
    requires AnyDue(s) && !s.inside
    ensures Reaches(s, cap, moves, RunHead(s, cap))
  {
    hide Pour;
    RunsOnce(s, cap, Run);
    moves := [Run];
    if s.rt[0].call == Pouring {
      var rest := PourIsRun(CallHead(s), cap);
      RunsJoin(s, cap, [Run], CallHead(s), rest, RunHead(s, cap));
      moves := [Run] + rest;
    }
  }

  /** A tick is a run that leaves nothing due. */
  lemma {:induction false} TickIsRun<F>(s: State<F>, cap: nat) returns (moves: seq<Move<F>>)
    requires !s.inside
    ensures Reaches(s, cap, moves, RunTick(s, cap)) && TickOver(RunTick(s, cap))
    decreases DueCount(s.rt, s.now)
  {
    hide DueCount, RunHead;
    if AnyDue(s) {
      LoopEnds(s, cap);
      HeadKeepsNow(s, cap);
      var turn := TurnIsRun(s, cap);
      var rest := TickIsRun(RunHead(s, cap), cap);
      RunsJoin(s, cap, turn, RunHead(s, cap), rest, RunTick(s, cap));
      moves := turn + rest;
    } else {
      moves := [];
    }
  }
}
