/** The relay from any thread to the real-time thread (src/fifo.lisp:126-159,
    237-258; src/edf-sched.lisp:157-165): a function is posted under a lock into the
    first FIFO, the fast-nrt thread moves it to the second one, and the real-time
    thread calls it. The loads and stores of the heads are separate steps. */
module FifoRelay {
  import opened FifoQueue
  import opened EdfOrder
  import opened EdfPlay

  /** The fast-nrt thread: without the lock, at the head of its loop, calling the
      function that posts f, after storing f, and after the call. */
  datatype Nrt<F> = Free | Locked | Calling(f: F) | Stored(f: F) | Called

  /** The real-time thread: at the head of its loop, with a function that it has
      read, and with one whose place it has given up. */
  datatype Rt<F> = Waiting | Read(f: F) | Taken(f: F)

  datatype State<F> = State(
    first: Fifo<F>,
    second: Fifo<F>,
    nrt: Nrt<F>,
    rt: Rt<F>,
    posted: seq<F>,
    ran: seq<F>,
    dropped: nat)

  datatype Step<F> =
    | Post(f: F)
    | Lock
    | Fetch
    | StoreSecond
    | PublishSecond
    | Advance
    | Unlock
    | ReadSecond
    | GiveUpPlace
    | Call

  ghost predicate Enabled<F>(s: State<F>, e: Step<F>) {
    && Wf(s.first) && Wf(s.second)
    && match e
       case Post(_) => s.nrt.Free?
       case Lock => s.nrt.Free?
       case Fetch => s.nrt.Locked? && !IsEmpty(s.first)
       case StoreSecond => s.nrt.Calling?
       case PublishSecond => s.nrt.Stored?
       case Advance => s.nrt.Called?
       case Unlock => s.nrt.Locked? && IsEmpty(s.first)
       case ReadSecond => s.rt.Waiting? && !IsEmpty(s.second)
       case GiveUpPlace => s.rt.Read?
       case Call => s.rt.Taken?
  }

  function Next<F>(s: State<F>, e: Step<F>): State<F>
    requires Enabled(s, e)
  {
    match e
    case Post(f) =>
      var s' := s.(posted := s.posted + [f]);
      if IsFull(s.first) then s'.(dropped := s.dropped + 1)
      else s'.(first := PublishWrite(Store(s.first, f)))
    case Lock => s.(nrt := Locked)
    case Fetch => s.(nrt := Calling(Oldest(s.first)))
    case StoreSecond =>
      if IsFull(s.second) then s.(nrt := Called, dropped := s.dropped + 1)
      else s.(second := Store(s.second, s.nrt.f), nrt := Stored(s.nrt.f))
    case PublishSecond => s.(second := PublishWrite(s.second), nrt := Called)
    case Advance => s.(first := PublishRead(s.first), nrt := Locked)
    case Unlock => s.(nrt := Free)
    case ReadSecond => s.(rt := Read(Oldest(s.second)))
    case GiveUpPlace => s.(second := PublishRead(s.second), rt := Taken(s.rt.f))
    case Call => s.(ran := s.ran + [s.rt.f], rt := Waiting)
  }

  ghost predicate Reaches<F>(s: State<F>, steps: seq<Step<F>>, t: State<F>)
    decreases |steps|
  {
    if steps == [] then s == t
    else Enabled(s, steps[0]) && Reaches(Next(s, steps[0]), steps[1..], t)
  }

  /* Subsequences */

  /** a is b without some of its elements. */
  ghost predicate Subseq<F>(a: seq<F>, b: seq<F>) {
    if b == [] then a == []
    else
      || (a != [] && a[|a| - 1] == b[|b| - 1] && Subseq(a[..|a| - 1], b[..|b| - 1]))
      || Subseq(a, b[..|b| - 1])
  }

  lemma {:induction false} SubseqSame<F>(a: seq<F>)
    ensures Subseq(a, a)
  {
    if a != [] {
      SubseqSame(a[..|a| - 1]);
    }
  }

  lemma SubseqAppend<F>(a: seq<F>, b: seq<F>, x: F)
    requires Subseq(a, b)
    ensures Subseq(a + [x], b + [x]) && Subseq(a, b + [x])
  {
    assert (a + [x])[..|a|] == a && (b + [x])[..|b|] == b;
  }

  /** Leaving out one more element. */
  lemma {:induction false} SubseqDrop<F>(a: seq<F>, b: seq<F>, k: nat)
    requires Subseq(a, b) && k < |a|
    ensures Subseq(Drop(a, k), b)
    decreases |b|
  {
    var b' := b[..|b| - 1];
    if a[|a| - 1] == b[|b| - 1] && Subseq(a[..|a| - 1], b') {
      if k == |a| - 1 {
        assert Drop(a, k) == a[..|a| - 1];
      } else {
        SubseqDrop(a[..|a| - 1], b', k);
        assert Drop(a, k)[..|a| - 2] == Drop(a[..|a| - 1], k);
      }
    } else {
      SubseqDrop(a, b', k);
    }
  }

  lemma {:induction false} SubseqPrefix<F>(a: seq<F>, b: seq<F>, k: nat)
    requires Subseq(a, b) && k <= |a|
    ensures Subseq(a[..k], b)
    decreases |a|
  {
    if k < |a| {
      SubseqDrop(a, b, |a| - 1);
      assert Drop(a, |a| - 1) == a[..|a| - 1];
      SubseqPrefix(a[..|a| - 1], b, k);
      assert a[..|a| - 1][..k] == a[..k];
    } else {
      assert a[..k] == a;
    }
  }

  /* Invariant */

  ghost function InHand<F>(rt: Rt<F>): seq<F> {
    if rt.Taken? then [rt.f] else []
  }

  /** What is still to be moved from the first FIFO. */
  ghost function Waiting1<F>(s: State<F>): seq<F>
    requires Wf(s.first)
  {
    if s.nrt.Called? && Values(s.first) != [] then Values(s.first)[1..] else Values(s.first)
  }

  /** All functions that ran or are on their way, in order. */
  ghost function Pipeline<F>(s: State<F>): seq<F>
    requires Wf(s.first) && Wf(s.second)
  {
    s.ran + InHand(s.rt) + Values(s.second) + Waiting1(s)
  }

  ghost predicate NrtOk<F>(s: State<F>)
    requires Wf(s.first) && Wf(s.second)
  {
    match s.nrt
    case Free => true
    case Locked => true
    case Calling(f) => Values(s.first) != [] && Values(s.first)[0] == f
    case Stored(f) => Values(s.first) != [] && Values(s.first)[0] == f && !IsFull(s.second) && FifoQueue.Pending(s.second) == f
    case Called => Values(s.first) != []
  }

  ghost predicate Inv<F>(s: State<F>) {
    && Wf(s.first) && Wf(s.second) && NrtOk(s)
    && (s.rt.Read? ==> Values(s.second) != [] && Values(s.second)[0] == s.rt.f)
    && Subseq(Pipeline(s), s.posted)
    && (s.dropped == 0 ==> Pipeline(s) == s.posted)
    && |Pipeline(s)| + s.dropped == |s.posted|
  }

  lemma PostKeeps<F>(s: State<F>, f: F)
    requires Inv(s) && Enabled(s, Post(f))
    ensures Inv(Next(s, Post(f)))
  {
    hide Values, Subseq;
    SubseqAppend(Pipeline(s), s.posted, f);
    if !IsFull(s.first) {
      StoreValues(s.first, f);
      PublishWriteValues(Store(s.first, f));
      assert Pipeline(Next(s, Post(f))) == Pipeline(s) + [f];
    }
  }

  lemma FetchKeeps<F>(s: State<F>)
    requires Inv(s) && Enabled(s, Fetch)
    ensures Inv(Next(s, Fetch))
  {
    hide Values, Subseq;
    PublishReadValues(s.first);
    FullCount(s.first);
  }

  lemma StoreSecondKeeps<F>(s: State<F>)
    requires Inv(s) && Enabled(s, StoreSecond)
    ensures Inv(Next(s, StoreSecond))
  {
    hide Values, Subseq;
    var t := Next(s, StoreSecond);
    if IsFull(s.second) {
      var p := s.ran + InHand(s.rt) + Values(s.second);
      SubseqDrop(Pipeline(s), s.posted, |p|);
      assert Pipeline(t) == Drop(Pipeline(s), |p|);
    } else {
      StoreValues(s.second, s.nrt.f);
    }
  }

  lemma PublishSecondKeeps<F>(s: State<F>)
    requires Inv(s) && Enabled(s, PublishSecond)
    ensures Inv(Next(s, PublishSecond))
  {
    hide Values, Subseq;
    PublishWriteValues(s.second);
    Regroup(s.ran + InHand(s.rt), Values(s.second), s.nrt.f, Values(s.first)[1..]);
    assert Values(s.first) == [s.nrt.f] + Values(s.first)[1..];
    hide FifoQueue.PublishWrite;
    assert Pipeline(Next(s, PublishSecond)) == Pipeline(s);
  }

  lemma Regroup<F>(p: seq<F>, c: seq<F>, f: F, r: seq<F>)
    ensures p + (c + [f]) + r == p + c + ([f] + r)
  {
  }

  lemma AdvanceKeeps<F>(s: State<F>)
    requires Inv(s) && Enabled(s, Advance)
    ensures Inv(Next(s, Advance))
  {
    hide Values, Subseq;
    FullCount(s.first);
    PublishReadValues(s.first);
    assert Pipeline(Next(s, Advance)) == Pipeline(s);
  }

  lemma ReadSecondKeeps<F>(s: State<F>)
    requires Inv(s) && Enabled(s, ReadSecond)
    ensures Inv(Next(s, ReadSecond))
  {
    hide Values, Subseq;
    PublishReadValues(s.second);
    FullCount(s.second);
  }

  lemma GiveUpPlaceKeeps<F>(s: State<F>)
    requires Inv(s) && Enabled(s, GiveUpPlace)
    ensures Inv(Next(s, GiveUpPlace))
  {
    hide Values, Subseq;
    FullCount(s.second);
    PublishReadValues(s.second);
    if s.nrt.Stored? {
      ReadNotFull(s.second);
    }
    GivenUp(s.ran, Values(s.second), s.rt.f, Values(PublishRead(s.second)), Waiting1(s));
    hide PublishRead, IsFull, FifoQueue.Pending, Wf;
    assert Pipeline(Next(s, GiveUpPlace)) == Pipeline(s);
  }

  lemma GivenUp<F>(p: seq<F>, c: seq<F>, f: F, c': seq<F>, w: seq<F>)
    requires c == [f] + c'
    ensures p + [f] + c' + w == p + [] + c + w
  {
  }

  lemma CallKeeps<F>(s: State<F>)
    requires Inv(s) && Enabled(s, Call)
    ensures Inv(Next(s, Call))
  {
    hide Values, Subseq, Wf;
    CalledLast(s.ran, s.rt.f, Values(s.second), Waiting1(s));
    assert Pipeline(Next(s, Call)) == Pipeline(s);
  }

  lemma CalledLast<F>(p: seq<F>, f: F, c: seq<F>, w: seq<F>)
    ensures p + [f] + [] + c + w == p + [f] + c + w
  {
  }

  lemma StepKeeps<F>(s: State<F>, e: Step<F>)
    requires Inv(s) && Enabled(s, e)
    ensures Inv(Next(s, e))
  {
    match e
    case Post(f) => PostKeeps(s, f);
    case Lock => assert Pipeline(Next(s, Lock)) == Pipeline(s);
    case Fetch => FetchKeeps(s);
    case StoreSecond => StoreSecondKeeps(s);
    case PublishSecond => PublishSecondKeeps(s);
    case Advance => AdvanceKeeps(s);
    case Unlock => assert Pipeline(Next(s, Unlock)) == Pipeline(s);
    case ReadSecond => ReadSecondKeeps(s);
    case GiveUpPlace => GiveUpPlaceKeeps(s);
    case Call => CallKeeps(s);
  }

  lemma {:induction false} RunKeeps<F>(s: State<F>, steps: seq<Step<F>>, t: State<F>)
    requires Inv(s) && Reaches(s, steps, t)
    ensures Inv(t)
    decreases |steps|
  {
    hide Inv, Next, Enabled;
    if steps != [] {
      StepKeeps(s, steps[0]);
      RunKeeps(Next(s, steps[0]), steps[1..], t);
    }
  }

  /** The FIFO into which the step writes has room for one value more. */
  ghost predicate HasRoom<F>(s: State<F>, e: Step<F>)
    requires Wf(s.first) && Wf(s.second)
  {
    && (e.Post? ==> |Values(s.first)| < |s.first.items| - 1)
    && (e.StoreSecond? ==> |Values(s.second)| < |s.second.items| - 1)
  }

  /** No step of the run meets a full FIFO. */
  ghost predicate RoomThroughout<F>(s: State<F>, steps: seq<Step<F>>)
    decreases |steps|
  {
    steps != [] && Enabled(s, steps[0]) ==> HasRoom(s, steps[0]) && RoomThroughout(Next(s, steps[0]), steps[1..])
  }

  lemma DropsWhenFull<F>(s: State<F>, e: Step<F>)
    requires Inv(s) && Enabled(s, e)
    ensures Next(s, e).dropped == s.dropped + if HasRoom(s, e) then 0 else 1
  {
    hide Values, Subseq;
    FullCount(s.first);
    FullCount(s.second);
  }

  /** A function is dropped exactly when a FIFO has no room for it. */
  lemma {:induction false} DroppedIff<F>(s: State<F>, steps: seq<Step<F>>, t: State<F>)
    requires Inv(s) && Reaches(s, steps, t)
    ensures t.dropped >= s.dropped
    ensures t.dropped == s.dropped <==> RoomThroughout(s, steps)
    decreases |steps|
  {
    hide Inv, Next, Enabled, HasRoom;
    if steps != [] {
      StepKeeps(s, steps[0]);
      DropsWhenFull(s, steps[0]);
      DroppedIff(Next(s, steps[0]), steps[1..], t);
    }
  }

  ghost predicate Initial<F>(s: State<F>) {
    && Wf(s.first) && Wf(s.second) && IsEmpty(s.first) && IsEmpty(s.second)
    && s.nrt.Free? && s.rt.Waiting? && s.posted == [] && s.ran == [] && s.dropped == 0
  }

  /** Nothing is on its way. */
  ghost predicate Quiet<F>(s: State<F>) {
    IsEmpty(s.first) && IsEmpty(s.second) && (s.nrt.Free? || s.nrt.Locked?) && s.rt.Waiting?
  }

  /** For every interleaving of any number of producers, the fast-nrt thread and the
      real-time thread: functions run in the order in which the lock was granted,
      each at most once; none is missing exactly if no FIFO was full, and then all of
      them have run when nothing is on its way. Each full FIFO costs one function. */
  lemma RanInLockOrder<F>(s: State<F>, steps: seq<Step<F>>, t: State<F>)
    requires Initial(s) && Reaches(s, steps, t)
    ensures Subseq(t.ran, t.posted)
    ensures RoomThroughout(s, steps) ==> t.ran <= t.posted
    ensures Quiet(t) ==> (RoomThroughout(s, steps) <==> t.ran == t.posted)
    ensures Quiet(t) ==> |t.ran| + t.dropped == |t.posted|
  {
    hide Values, Enabled, Next, RoomThroughout;
    FullCount(s.first);
    FullCount(s.second);
    assert Pipeline(s) == [];
    RunKeeps(s, steps, t);
    DroppedIff(s, steps, t);
    FullCount(t.first);
    FullCount(t.second);
    hide Subseq;
    SubseqPrefix(Pipeline(t), t.posted, |t.ran|);
    assert Pipeline(t)[..|t.ran|] == t.ran;
  }

  /* Everything that is on its way can arrive */

  function NrtWork<F>(n: Nrt<F>): nat {
    match n
    case Free => 9
    case Locked => 8
    case Calling(_) => 7
    case Stored(_) => 6
    case Called => 1
  }

  function RtWork<F>(r: Rt<F>): nat {
    match r
    case Waiting => 2
    case Read(_) => 1
    case Taken(_) => 3
  }

  /** An upper bound of the steps that are still to come. */
  function Work<F>(s: State<F>): nat
    requires Wf(s.first) && Wf(s.second)
  {
    10 * Count(s.first) + NrtWork(s.nrt) + 3 * Count(s.second) + RtWork(s.rt)
  }

  /** A step that brings something on its way further. */
  function Forward<F>(s: State<F>): Step<F> {
    match s.rt
    case Read(_) => GiveUpPlace
    case Taken(_) => Call
    case Waiting =>
      if !IsEmpty(s.second) then ReadSecond
      else
        match s.nrt
        case Free => Lock
        case Locked => Fetch
        case Calling(_) => StoreSecond
        case Stored(_) => PublishSecond
        case Called => Advance
  }

  lemma CountIs<F>(f: Fifo<F>)
    requires Wf(f)
    ensures Count(f) == |Values(f)|
  {
  }

  lemma ForwardWorks<F>(s: State<F>)
    requires Inv(s) && !Quiet(s)
    ensures Enabled(s, Forward(s)) && !Forward(s).Post?
    ensures Inv(Next(s, Forward(s))) && Work(Next(s, Forward(s))) < Work(s)
  {
    hide Values, Subseq, Pipeline, Count;
    var e := Forward(s);
    FullCount(s.first);
    FullCount(s.second);
    StepKeeps(s, e);
    var t := Next(s, e);
    CountIs(s.first);
    CountIs(s.second);
    CountIs(t.first);
    CountIs(t.second);
    match e {
      case PublishSecond => PublishWriteValues(s.second);
      case Advance => PublishReadValues(s.first);
      case GiveUpPlace => PublishReadValues(s.second);
      case StoreSecond =>
        if !IsFull(s.second) {
          StoreValues(s.second, s.nrt.f);
        }
      case _ =>
    }
  }

  /** From every state that a run reaches, the threads can bring everything that is on
      its way to its end without a further post: no lock, full FIFO or order of steps
      makes them wait for each other. */
  lemma {:induction false} Drains<F>(s: State<F>) returns (steps: seq<Step<F>>, t: State<F>)
    requires Inv(s)
    ensures Reaches(s, steps, t) && Quiet(t) && t.posted == s.posted
    decreases Work(s)
  {
    hide Inv, Next, Enabled, Forward;
    if Quiet(s) {
      steps, t := [], s;
    } else {
      ForwardWorks(s);
      PostsNothing(s);
      var rest;
      rest, t := Drains(Next(s, Forward(s)));
      steps := [Forward(s)] + rest;
      assert steps[0] == Forward(s) && steps[1..] == rest;
    }
  }

  lemma PostsNothing<F>(s: State<F>)
    requires Enabled(s, Forward(s))
    ensures Next(s, Forward(s)).posted == s.posted
  {
  }

  /** The events of one time in a subsequence. */
  lemma {:induction false} SubseqAtTime<F>(a: seq<Event<F>>, b: seq<Event<F>>, time: real)
    requires Subseq(a, b)
    ensures Subseq(AtTime(a, time), AtTime(b, time))
    decreases |b|
  {
    if b != [] {
      var b', y := b[..|b| - 1], b[|b| - 1];
      assert b == b' + [y];
      AtTimeAppend(b', [y], time);
      AtTimeSingle(y, time);
      assert AtTime(b', time) + [] == AtTime(b', time);
      if a != [] && a[|a| - 1] == y && Subseq(a[..|a| - 1], b') {
        var a' := a[..|a| - 1];
        assert a == a' + [y];
        AtTimeAppend(a', [y], time);
        SubseqAtTime(a', b', time);
        assert AtTime(a', time) + [] == AtTime(a', time);
        if y.time == time {
          SubseqAppend(AtTime(a', time), AtTime(b', time), y);
        }
      } else {
        SubseqAtTime(a, b', time);
        if y.time == time {
          SubseqAppend(AtTime(a, time), AtTime(b', time), y);
        }
      }
    }
  }

  /** Subsequences of subsequences. */
  lemma {:induction false} SubseqChain<F>(a: seq<F>, b: seq<F>, c: seq<F>)
    requires Subseq(a, b) && Subseq(b, c)
    ensures Subseq(a, c)
    decreases |c|
  {
    if c != [] {
      var c' := c[..|c| - 1];
      if b != [] && b[|b| - 1] == c[|c| - 1] && Subseq(b[..|b| - 1], c') {
        var b' := b[..|b| - 1];
        if a != [] && a[|a| - 1] == b[|b| - 1] && Subseq(a[..|a| - 1], b') {
          SubseqChain(a[..|a| - 1], b', c');
        } else {
          SubseqChain(a, b', c');
        }
      } else {
        SubseqChain(a, b, c');
      }
    }
  }

  /* Relayed calls of schedule-at on a heap in use */

  /** What the heap has accepted of the relayed events. */
  lemma {:induction false} PlayAccepts<F>(b: Books<F>, cap: nat, ops: seq<Op<F>>, others: Event<F> -> bool, all: seq<Event<F>>)
    requires Subseq(Spared(b.accepted, others), all)
    ensures Subseq(Spared(Play(b, cap, ops).accepted, others), all + Spared(Puts(ops), others))
    ensures Play(b, cap, ops).refused >= b.refused
    ensures Play(b, cap, ops).refused == b.refused ==>
      Spared(Play(b, cap, ops).accepted, others) == Spared(b.accepted, others) + Spared(Puts(ops), others)
    decreases |ops|
  {
    hide Subseq, Insert, Spared;
    var p := Spared(b.accepted, others);
    if ops == [] {
      SparedNone(others);
      assert all + [] == all && p + [] == p;
    } else {
      var b' := Do(b, cap, ops[0]);
      var rest := Puts(ops[1..]);
      if ops[0].Put? {
        var x := ops[0].event;
        SparedCons(x, rest, others);
        SparedLast(b.accepted, x, others);
        if others(x) {
          assert p + [] == p;
          assert [] + Spared(rest, others) == Spared(rest, others);
          PlayAccepts(b', cap, ops[1..], others, all);
        } else {
          SubseqAppend(p, all, x);
          PlayAccepts(b', cap, ops[1..], others, all + [x]);
          assert all + [x] + Spared(rest, others) == all + ([x] + Spared(rest, others));
          assert p + [x] + Spared(rest, others) == p + ([x] + Spared(rest, others));
        }
      } else {
        assert [] + rest == rest;
        PlayAccepts(b', cap, ops[1..], others, all);
      }
    }
  }

  /** Calls of AT from other threads are relayed schedule-at calls. The real-time heap
      is in use: `ops` are all its operations, the schedule-at calls that the
      real-time thread has run for the relay, those of others, and gets, in any
      order. The relayed events of each time are taken and pending in the order in
      which they were posted; none is missing if neither a FIFO nor the heap was full
      and nothing is on its way. */
  lemma RelayedAtStable<F>(s: State<Event<F>>, steps: seq<Step<Event<F>>>, t: State<Event<F>>,
                           b: Books<F>, cap: nat, ops: seq<Op<F>>, others: Event<F> -> bool, time: real)
    requires Initial(s) && Reaches(s, steps, t)
    requires Stable(b, time) && Spared(b.accepted, others) == []
    requires Spared(Puts(ops), others) == t.ran
    ensures var b' := Play(b, cap, ops);
      && InTime(b'.queue)
      && Subseq(AtTime(Spared(Order(b'), others), time), AtTime(t.posted, time))
      && (RoomForAll(b, cap, ops) && RoomThroughout(s, steps) && Quiet(t) ==>
          AtTime(Spared(Order(b'), others), time) == AtTime(t.posted, time))
  {
    hide Initial, Reaches, Quiet, AtTime, Subseq, Play, Spared, Puts, RoomForAll, RoomThroughout;
    var b' := Play(b, cap, ops);
    RanInLockOrder(s, steps, t);
    PlayStable(b, cap, ops, time);
    RefusedIff(b, cap, ops);
    SubseqSame<Event<F>>([]);
    PlayAccepts(b, cap, ops, others, []);
    assert [] + t.ran == t.ran;
    var mine := Spared(b'.accepted, others);
    SubseqChain(mine, t.ran, t.posted);
    SubseqAtTime(mine, t.posted, time);
    SparedAtTime(b'.accepted, others, time);
    SparedAtTime(Order(b'), others, time);
  }
}
