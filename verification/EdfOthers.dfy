/** What the scheduling loop does for events that have nothing to do with pouring
    (src/edf-sched.lisp:231-237): each is called, once, in order, and in time. */
module EdfOthers {
  import opened EdfOrder
  import opened EdfPour

  /** An event of the temporary heap, or a call of pour-on-rt-heap. */
  function Internal<F>(): Event<Job<F>> -> bool {
    (e: Event<Job<F>>) => !e.call.Foreign?
  }

  /** The events of somebody else, in order. */
  function Others<F>(e: seq<Event<Job<F>>>): seq<Event<Job<F>>> {
    Spared(e, Internal())
  }

  /** The events of somebody else that were called, and those still pending. */
  function Served<F>(s: State<F>): seq<Event<Job<F>>> {
    Others(Events(s.log)) + Others(s.rt)
  }

  /** The events that somebody else schedules in a run. */
  function Posted<F>(moves: seq<Move<F>>): seq<Event<Job<F>>> {
    if moves == [] then []
    else (if moves[0].Other? then [Event(moves[0].time, Foreign(moves[0].call))] else []) + Posted(moves[1..])
  }

  ghost predicate Inner<F>(e: seq<Event<Job<F>>>) {
    forall i :: 0 <= i < |e| ==> !e[i].call.Foreign?
  }

  /** What is new in the log was called between two times, and never more than half
      a sample early. */
  ghost predicate NotEarly<F>(log: seq<Ran<F>>, k: nat, from: real, to: real) {
    forall i :: k <= i < |log| ==> log[i].event.time <= log[i].at + 0.5 && from <= log[i].at <= to
  }

  /* One step */

  lemma InsertInner<F>(e: seq<Event<Job<F>>>, x: Event<Job<F>>)
    requires !x.call.Foreign?
    ensures Others(Insert(e, x)) == Others(e)
  {
    hide Insert, Rank, Splice, Spared;
    var k := InsertView(e, x);
    assert e == e[..k] + e[k..];
    SparedAppend(e[..k], e[k..], Internal<F>());
    SparedAppend(e[..k] + [x], e[k..], Internal<F>());
    SparedLast(e[..k], x, Internal<F>());
    assert Others(e[..k]) + [] == Others(e[..k]);
  }

  lemma InsertOther<F>(e: seq<Event<Job<F>>>, x: Event<Job<F>>, time: real)
    requires InTime(e) && x.call.Foreign?
    ensures AtTime(Others(Insert(e, x)), time) == AtTime(Others(e), time) + AtTime([x], time)
    ensures multiset(Others(Insert(e, x))) == multiset(Others(e)) + multiset{x}
  {
    hide Insert, Rank, Splice, Spared, AtTime;
    InsertStable(e, x, time);
    SparedAtTime(Insert(e, x), Internal<F>(), time);
    SparedAtTime(e, Internal<F>(), time);
    AtTimeSingle(x, time);
    SparedLast(AtTime(e, time), x, Internal<F>());
    assert AtTime(e, time) + [] == AtTime(e, time);
    assert AtTime(Others(e), time) + [] == AtTime(Others(e), time);
    InsertParts(e, x);
  }

  lemma InsertParts<F>(e: seq<Event<Job<F>>>, x: Event<Job<F>>)
    requires x.call.Foreign?
    ensures multiset(Others(Insert(e, x))) == multiset(Others(e)) + multiset{x}
  {
    hide Insert, Rank, Splice, Spared;
    var k := InsertView(e, x);
    assert e == e[..k] + e[k..];
    SparedAppend(e[..k], e[k..], Internal<F>());
    SparedAppend(e[..k] + [x], e[k..], Internal<F>());
    SparedLast(e[..k], x, Internal<F>());
  }

  lemma LogOne<F>(log: seq<Ran<F>>, r: Ran<F>)
    ensures Others(Events(log + [r])) == Others(Events(log)) + (if r.event.call.Foreign? then [r.event] else [])
  {
    hide Spared, Events;
    EventsAppend(log, r);
    SparedLast(Events(log), r.event, Internal<F>());
  }

  /** The head of the heap moves to the end of the log. */
  lemma HeadServed<F>(s: State<F>)
    requires s.rt != []
    ensures Served(CallHead(s)) == Served(s)
  {
    hide Spared, Events;
    var x := s.rt[0];
    assert s.rt == [x] + s.rt[1..];
    SparedCons(x, s.rt[1..], Internal<F>());
    LogOne(s.log, Ran(x, s.now));
  }

  lemma FirstServed<F>(s: State<F>)
    requires s.temp != [] && !s.temp[0].call.Foreign?
    ensures Served(CallFirst(s)) == Served(s)
  {
    hide Spared, Events;
    LogOne(s.log, Ran(Shifted(s.temp[0], s.offset), s.now));
    assert Others(Events(s.log)) + [] == Others(Events(s.log));
  }

  lemma MoveServed<F>(s: State<F>, cap: nat)
    requires Inner(s.temp)
    ensures Served(MoveNext(s, cap)) == Served(s)
  {
    hide Spared, Events, Insert;
    if s.temp != [] {
      var moved := Schedule(s.(temp := s.temp[1..], inside := false), cap, Shifted(s.temp[0], s.offset));
      InsertInner(s.rt, Shifted(s.temp[0], s.offset));
      InsertInner(moved.rt, Event(s.now + 1.0, Pouring));
    }
  }

  function PostedBy<F>(m: Move<F>): seq<Event<Job<F>>> {
    if m.Other? then [Event(m.time, Foreign(m.call))] else []
  }

  /** One step serves nobody twice and forgets nobody. */
  lemma StepServes<F>(s: State<F>, cap: nat, m: Move<F>, time: real)
    requires Enabled(s, m) && InTime(s.rt) && Inner(s.temp) && HasRoom(s, cap, m)
    ensures var s' := Step(s, cap, m);
      && AtTime(Served(s'), time) == AtTime(Served(s), time) + AtTime(PostedBy(m), time)
      && multiset(Served(s')) == multiset(Served(s)) + multiset(PostedBy(m))
  {
    hide AtTime, Served, Insert;
    AtTimeNone<Job<F>>([], time);
    assert AtTime(Served(s), time) + [] == AtTime(Served(s), time);
    match m
    case Tick => TickServed(s);
    case Run => HeadServed(s);
    case Call => FirstServed(s);
    case Settle => MoveServed(s, cap);
    case Other(at, call) => OtherServed(s, Event(at, Foreign(call)), time);
  }

  lemma TickServed<F>(s: State<F>)
    ensures Served(s.(now := s.now + 1.0)) == Served(s)
  {
  }

  lemma OtherServed<F>(s: State<F>, x: Event<Job<F>>, time: real)
    requires InTime(s.rt) && x.call.Foreign?
    ensures var s' := s.(rt := Insert(s.rt, x));
      && AtTime(Served(s'), time) == AtTime(Served(s), time) + AtTime([x], time)
      && multiset(Served(s')) == multiset(Served(s)) + multiset{x}
  {
    hide AtTime, Insert, Spared, Events;
    var done := Others(Events(s.log));
    InsertOther(s.rt, x, time);
    AtTimeAppend(done, Others(s.rt), time);
    AtTimeAppend(done, Others(Insert(s.rt, x)), time);
  }

  /** One step keeps the order of the heap, and calls nothing early. */
  lemma StepOrdered<F>(s: State<F>, cap: nat, m: Move<F>)
    requires Enabled(s, m) && InTime(s.rt) && Inner(s.temp)
    ensures var s' := Step(s, cap, m);
      && InTime(s'.rt) && Inner(s'.temp) && s.now <= s'.now
      && s.log <= s'.log && NotEarly(s'.log, |s.log|, s.now, s.now)
  {
    hide Insert;
    match m {
      case Tick =>
      case Run =>
        TailInTime(s.rt);
      case Call =>
      case Settle =>
        if s.temp != [] {
          InsertInTime(s.rt, Shifted(s.temp[0], s.offset));
          var moved := Schedule(s.(temp := s.temp[1..], inside := false), cap, Shifted(s.temp[0], s.offset));
          InsertInTime(moved.rt, Event(s.now + 1.0, Pouring));
        }
      case Other(at, call) =>
        InsertInTime(s.rt, Event(at, Foreign(call)));
    }
  }

  /* Whole runs */

  lemma {:induction false} RunServes<F>(s: State<F>, cap: nat, moves: seq<Move<F>>, t: State<F>, time: real)
    requires Reaches(s, cap, moves, t) && RoomThroughout(s, cap, moves) && InTime(s.rt) && Inner(s.temp)
    ensures AtTime(Served(t), time) == AtTime(Served(s), time) + AtTime(Posted(moves), time)
    ensures multiset(Served(t)) == multiset(Served(s)) + multiset(Posted(moves))
    decreases |moves|
  {
    hide AtTime, Served, Step, InTime, Inner, Enabled, HasRoom, Posted;
    if moves == [] {
      PostedNone<F>();
      AtTimeNone<Job<F>>([], time);
      assert AtTime(Served(s), time) + [] == AtTime(Served(s), time);
    } else {
      var m, rest := moves[0], moves[1..];
      StepServes(s, cap, m, time);
      StepOrdered(s, cap, m);
      RunServes(Step(s, cap, m), cap, rest, t, time);
      PostedMore(moves, time);
      JoinTimes(AtTime(Served(s), time), AtTime(PostedBy(m), time), AtTime(Posted(rest), time));
    }
  }

  lemma PostedNone<F>()
    ensures Posted<F>([]) == []
  {
  }

  lemma PostedMore<F>(moves: seq<Move<F>>, time: real)
    requires moves != []
    ensures AtTime(Posted(moves), time) == AtTime(PostedBy(moves[0]), time) + AtTime(Posted(moves[1..]), time)
    ensures multiset(Posted(moves)) == multiset(PostedBy(moves[0])) + multiset(Posted(moves[1..]))
  {
    hide AtTime;
    AtTimeAppend(PostedBy(moves[0]), Posted(moves[1..]), time);
  }

  lemma JoinTimes<F>(a: seq<F>, b: seq<F>, c: seq<F>)
    ensures (a + b) + c == a + (b + c)
  {
  }

  lemma {:induction false} RunOrdered<F>(s: State<F>, cap: nat, moves: seq<Move<F>>, t: State<F>)
    requires Reaches(s, cap, moves, t) && InTime(s.rt) && Inner(s.temp)
    ensures InTime(t.rt) && s.now <= t.now
    ensures s.log <= t.log && NotEarly(t.log, |s.log|, s.now, t.now)
    decreases |moves|
  {
    hide Step, InTime, Inner, Enabled;
    if moves != [] {
      var s1 := Step(s, cap, moves[0]);
      StepOrdered(s, cap, moves[0]);
      RunOrdered(s1, cap, moves[1..], t);
      LogsJoin(s.log, s1.log, t.log, s.now, s1.now, t.now);
    }
  }

  lemma LogsJoin<F>(a: seq<Ran<F>>, b: seq<Ran<F>>, c: seq<Ran<F>>, x: real, y: real, z: real)
    requires a <= b <= c && x <= y <= z && NotEarly(b, |a|, x, y) && NotEarly(c, |b|, y, z)
    ensures NotEarly(c, |a|, x, z)
  {
    forall i | |a| <= i < |c|
      ensures c[i].event.time <= c[i].at + 0.5 && x <= c[i].at <= z
    {
      if i < |b| {
        assert c[i] == b[i];
      }
    }
  }

  /** The scheduling loop, for every run that meets no full heap, with pouring and with
      functions that schedule others: the events of somebody else that were called
      and those pending are together those of the start and those scheduled since,
      and at each time they are called in that order; nothing is called before its
      time less half a sample; and when a tick is over nothing is pending that should
      have been called. */
  lemma OthersServed<F>(s: State<F>, cap: nat, moves: seq<Move<F>>, t: State<F>, time: real)
    requires Reaches(s, cap, moves, t) && RoomThroughout(s, cap, moves) && InTime(s.rt) && Inner(s.temp)
    ensures multiset(Served(t)) == multiset(Served(s)) + multiset(Posted(moves))
    ensures AtTime(Served(t), time) == AtTime(Served(s), time) + AtTime(Posted(moves), time)
    ensures s.log <= t.log
    ensures forall i :: |s.log| <= i < |t.log| ==> t.log[i].event.time <= t.log[i].at + 0.5 && s.now <= t.log[i].at <= t.now
    ensures TickOver(t) ==> forall i :: 0 <= i < |t.rt| ==> t.rt[i].time > t.now + 0.5
  {
    hide AtTime, Served, Posted, Inner, Reaches, RoomThroughout;
    RunServes(s, cap, moves, t, time);
    RunOrdered(s, cap, moves, t);
    if TickOver(t) {
      forall i | 0 <= i < |t.rt|
        ensures t.rt[i].time > t.now + 0.5
      {
        assert t.rt[0].time <= t.rt[i].time;
      }
    }
  }

  /* The loop of one tick */

  lemma {:induction false} DueServed<F>(s: State<F>)
    requires Inner(s.temp)
    ensures Served(RunDue(s)) == Served(s) && Inner(RunDue(s).temp)
    decreases |s.temp|
  {
    hide Served;
    if TempDue(s) {
      FirstServed(s);
      DueServed(CallFirst(s));
    }
  }

  lemma TurnServed<F>(s: State<F>, cap: nat)
    requires s.rt != [] && Inner(s.temp)
    ensures Served(RunHead(s, cap)) == Served(s) && Inner(RunHead(s, cap).temp)
  {
    hide Served, RunDue;
    HeadServed(s);
    if s.rt[0].call == Pouring {
      DueServed(CallHead(s));
      MoveServed(RunDue(CallHead(s)), cap);
    }
  }

  lemma {:induction false} LoopServed<F>(s: State<F>, cap: nat)
    requires Inner(s.temp)
    ensures Served(RunTick(s, cap)) == Served(s) && RunTick(s, cap).now == s.now
    decreases DueCount(s.rt, s.now)
  {
    hide Served, RunHead, DueCount, Inner;
    if AnyDue(s) {
      LoopEnds(s, cap);
      HeadKeepsNow(s, cap);
      TurnServed(s, cap);
      LoopServed(RunHead(s, cap), cap);
    }
  }

  /** What the loop of one tick does: of the events of somebody else it calls those at
      the front, once and in order, all of them now; nothing is called more than half
      a sample early, and nothing that is due is left. */
  lemma TickServes<F>(s: State<F>, cap: nat)
    requires !s.inside && InTime(s.rt) && Inner(s.temp)
    ensures var t := RunTick(s, cap);
      && Others(Events(t.log)) + Others(t.rt) == Others(Events(s.log)) + Others(s.rt)
      && s.log <= t.log
      && (forall i :: |s.log| <= i < |t.log| ==> t.log[i].event.time <= t.log[i].at + 0.5 && t.log[i].at == s.now)
      && (forall i :: 0 <= i < |t.rt| ==> t.rt[i].time > s.now + 0.5)
  {
    hide Spared, Events, RunTick, Inner, Reaches;
    var t := RunTick(s, cap);
    LoopServed(s, cap);
    var moves := TickIsRun(s, cap);
    RunOrdered(s, cap, moves, t);
    forall i | 0 <= i < |t.rt|
      ensures t.rt[i].time > s.now + 0.5
    {
      assert t.rt[0].time <= t.rt[i].time;
    }
  }
}
