/** The EDF scheduler's event heap: an array binary heap used as a stable
    priority queue (src/edf-sched.lisp:37-41, 99-155, 187-212, 373-433). */
module EdfHeap {
  import opened EdfCancel
  import opened EdfOrder
  import opened EdfSearch
  import opened PowersOfTwo

  const ROOT := 1

  class Heap<F(==)> {
    const data: array<Node<F>>
    const blank: F
    var next: nat
    var temp: Node<F>
    var tag: nat
    /** The scheduled events, earliest first. */
    ghost var queue: seq<Node<F>>

    ghost predicate Valid()
      reads this, data
    {
      && 2 <= data.Length && ROOT <= next <= data.Length
      && HeapOrdered(data[..], next)
      && Sorted(queue) && TagsBelow(queue, tag)
      && multiset(queue) == Contents(data[..], next)
    }

    /** What a user of the heap can observe: the events in the order in which
        they will run, without the tags. */
    ghost function Pending(): seq<Event<F>>
      reads this
    {
      Untag(queue)
    }

    constructor (size: nat, blank: F)
      requires 2 <= size
      ensures Valid() && fresh(data) && data.Length == size && Pending() == []
    {
      var node := Node(0.0, 0, blank);
      data := new Node<F>[size](_ => node);
      this.blank := blank;
      next := ROOT;
      temp := node;
      tag := 0;
      queue := [];
    }

    /** schedule-at: an event is dropped when the heap is full; otherwise it goes
        behind every pending event that is not later. Times alone are compared. */
    method ScheduleAt(time: real, call: F)
      requires Valid()
      modifies this, data
      ensures Valid()
      ensures Pending() == if old(next) >= data.Length then old(Pending())
                           else Insert(old(Pending()), Event(time, call))
      ensures next == old(next) + if old(next) >= data.Length then 0 else 1
    {
      hide Sorted, TagsBelow, Untag, Rank, Insert, Splice, Contents, HeapOrdered, Rising;
      if next >= data.Length {
        return;
      }
      ghost var x := Node(time, tag, call);
      ghost var m := multiset(queue) + multiset{x};
      QueueInsert(queue, x);
      RiseStart(data[..], next, queue, x);
      var curr := OpenHole(time, x, m);
      ghost var s := data[..];
      data[curr] := Node(time, tag, call);
      assert data[..] == s[curr := x];
      queue := Splice(queue, Rank(Untag(queue), time), x);
      tag := tag + 1;
      next := next + 1;
    }

    /** The loop of schedule-at: later parents move down to make room. */
    method OpenHole(time: real, ghost x: Node<F>, ghost m: multiset<Node<F>>) returns (curr: nat)
      requires 1 <= next < data.Length && x.time == time && Rising(data[..], next + 1, next, x, m)
      modifies data
      ensures 1 <= curr <= next
      ensures HeapOrdered(data[..][curr := x], next + 1) && Contents(data[..][curr := x], next + 1) == m
    {
      hide Contents, HeapOrdered, Rising;
      curr := next;
      while curr > ROOT
        invariant ROOT <= curr <= next
        invariant Rising(data[..], next + 1, curr, x, m)
      {
        var parent := curr / 2;
        if time < data[parent].time {
          ghost var s := data[..];
          RiseStep(s, next + 1, curr, x, m);
          data[curr] := data[parent];
          assert data[..] == s[curr := s[parent]];
          curr := parent;
        } else {
          break;
        }
      }
      RiseEnd(data[..], next + 1, curr, x, m);
    }

    /** A node that holds nothing. */
    function Blank(): Node<F> {
      Node(0.0, 0, blank)
    }

    /** The end of both removals: the last node is taken off the end, put into the
        hole at the root, and sifted down. */
    method FillRoot(ghost x: Node<F>)
      requires 2 <= data.Length && ROOT <= next < data.Length
      requires HeapBut(data[..], next + 1, ROOT)
      requires Sorted(queue) && TagsBelow(queue, tag)
      requires Contents(data[..][ROOT := x], next + 1) == multiset(queue) + multiset{x}
      modifies this`temp, this`tag, data
      ensures Valid() && data[0] == old(data[0])
      ensures data[..] == Filled(old(data[..]), next + 1, Blank())
    {
      hide Sorted, TagsBelow, Contents, HeapBut, HeapOrdered, Sunk;
      ghost var s := data[..];
      FilledHeap(s, next + 1, x, queue, Blank());
      data[ROOT] := data[next];
      data[next] := Blank();
      temp := data[ROOT];
      SiftDown();
      assert data[..] == Filled(s, next + 1, Blank());
      SunkKeeps(s[1 := s[next]][next := Blank()], next, ROOT, temp, 0);
      if next == ROOT {
        tag := 0;
        EmptyTags(data[..], queue);
      }
    }

    /** Earlier children move up until the temporary node fits. */
    method SiftDown()
      requires 2 <= data.Length && ROOT <= next <= data.Length
      modifies data
      ensures data[..] == Sunk(old(data[..]), next, ROOT, temp)
    {
      var parent: nat, curr: nat := ROOT, 2;
      while curr < next
        invariant ROOT <= parent < data.Length && curr == 2 * parent
        invariant Sunk(data[..], next, parent, temp) == Sunk(old(data[..]), next, ROOT, temp)
      {
        var child := curr;
        var sister := curr + 1;
        if sister < next && After(data[curr], data[sister]) {
          child := sister;
        }
        ghost var s := data[..];
        assert child == FirstChild(s, next, parent);
        if After(temp, data[child]) {
          data[parent] := data[child];
          assert data[..] == s[parent := s[child]];
          parent := child;
          curr := 2 * parent;
        } else {
          break;
        }
      }
      ghost var s := data[..];
      data[parent] := temp;
      assert data[..] == s[parent := temp];
    }

    /** get-heap: the earliest event leaves the heap, the one scheduled first
        among equal times. An empty heap gives the dummy node. */
    method GetHeap() returns (node: Node<F>)
      requires Valid()
      modifies this, data
      ensures Valid()
      ensures old(next) == ROOT ==> node == Node(0.0, 0, blank) && Pending() == old(Pending()) == []
      ensures old(next) > ROOT ==> old(Pending()) == [Event(node.time, node.call)] + Pending()
      ensures next == if old(next) > ROOT then old(next) - 1 else old(next)
    {
      hide Sorted, TagsBelow, Untag, Contents, HeapOrdered, HeapBut;
      if next > ROOT {
        ghost var s, q := data[..], queue;
        HeadOut(s, next, q, tag);
        data[0] := data[ROOT];
        next := next - 1;
        queue := q[1..];
        assert data[..] == s[0 := s[1]];
        FillRoot(s[1]);
        node := data[0];
        assert Untag(q) == [Untag(q)[0]] + Untag(q)[1..];
      } else {
        node := Node(0.0, 0, blank);
        EmptyQueue();
      }
    }

    lemma EmptyQueue()
      requires Valid()
      ensures |Pending()| == next - 1
    {
      assert |multiset(queue)| == |queue| && |multiset(data[..][1..next])| == |data[..][1..next]|;
    }

    /** The events that a valid heap stands for are in the order of their times. */
    lemma PendingInTime()
      requires Valid()
      ensures InTime(Pending())
    {
      hide HeapOrdered, Contents, TagsBelow;
      forall i, j | 0 <= i < j < |queue|
        ensures Pending()[i].time <= Pending()[j].time
      {
        assert After(queue[j], queue[i]);
      }
    }

    lemma RootIsFirst()
      requires Valid() && next > ROOT
      ensures Pending() != [] && Pending()[0] == Event(data[ROOT].time, data[ROOT].call)
    {
      HeadIsRoot(data[..], next, queue);
    }

    /** delete-event: exactly the node at the index leaves the queue. */
    method DeleteEvent(index: nat) returns (ghost k: nat)
      requires Valid() && ROOT <= index < next
      modifies this, data
      ensures Valid() && next == old(next) - 1
      ensures k < |old(queue)| && old(queue)[k] == old(data[index])
      ensures queue == Drop(old(queue), k) && Pending() == Drop(old(Pending()), k)
      ensures data[..] == Deleted(old(data[..]), old(next), index, Blank())
    {
      hide Sorted, TagsBelow, Untag, Contents, HeapOrdered, HeapBut, Climbing, Drop, Lifted, Filled;
      ghost var s, q, x := data[..], queue, data[index];
      k := Position(s, next, q, index);
      QueueDrop(q, k, tag);
      ClimbStart(s, next, index);
      LiftedHole(s, next, index, x, multiset(q));
      LiftHole(index);
      next := next - 1;
      queue := Drop(q, k);
      FillRoot(x);
    }

    /** The first loop of delete-event: the ancestors of the node move down, and
        the hole ends at the root. */
    method LiftHole(index: nat)
      requires index < data.Length
      modifies data
      ensures data[..] == Lifted(old(data[..]), index)
    {
      var child: nat, parent: nat := index, index / 2;
      while child >= 2
        invariant parent == child / 2 && child < data.Length
        invariant Lifted(data[..], child) == Lifted(old(data[..]), index)
      {
        ghost var s := data[..];
        data[child] := data[parent];
        assert data[..] == s[child := s[parent]];
        child, parent := parent, parent / 2;
      }
    }

    /** unschedule-if: only events that satisfy the test and are not crucial are
        cancelled, and the others keep their order. Nothing is cancelled exactly if
        there is no such event, and none is left if at most eleven events were
        pending. After a deletion the loop goes on from the depth of node i. */
    method UnscheduleIf(test: (real, F) -> bool, crucial: F -> bool)
      requires Valid()
      modifies this, data
      ensures Valid()
      ensures (data[..], next) == Unscheduled(old(data[..]), old(next), ROOT, Cancels(test, crucial), Blank())
      ensures Thinned(old(Pending()), Pending(), Droppable(test, crucial))
      ensures Pending() == old(Pending()) <==> NoneOf(old(Pending()), Droppable(test, crucial))
      ensures |old(Pending())| <= 11 ==> NoneOf(Pending(), Droppable(test, crucial))
    {
      hide Sorted, TagsBelow, Untag, Contents, HeapOrdered, Thinned, Drop, Deleted, Restart, NoneFrom, NoneOf;
      ghost var before, s, n, q := Pending(), data[..], next, queue;
      ghost var drop := Cancels(test, crucial);
      EmptyQueue();
      DeletesSome(s, n, ROOT, drop, Blank());
      if n <= 12 {
        DeletesAll(s, n, ROOT, drop, Blank(), q);
      }
      NoneQueued(s, n, q, test, crucial);
      CancelLoop(test, crucial);
      EmptyQueue();
      NoneQueued(data[..], next, queue, test, crucial);
      if NoneOf(before, Droppable(test, crucial)) {
        ThinnedNone(before, Pending(), Droppable(test, crucial));
      }
    }

    /** The loop of unschedule-if. */
    method CancelLoop(test: (real, F) -> bool, crucial: F -> bool)
      requires Valid()
      modifies this, data
      ensures Valid()
      ensures (data[..], next) == Unscheduled(old(data[..]), old(next), ROOT, Cancels(test, crucial), Blank())
      ensures Thinned(old(Pending()), Pending(), Droppable(test, crucial))
    {
      hide Sorted, TagsBelow, Untag, Contents, HeapOrdered, Thinned, Drop, Deleted, Restart;
      ghost var before := Pending();
      ghost var drop := Cancels(test, crucial);
      ThinnedSame(before, Droppable(test, crucial));
      var i: nat := ROOT;
      while i < next
        invariant Valid() && ROOT <= i
        invariant Unscheduled(data[..], next, i, drop, Blank()) == Unscheduled(old(data[..]), old(next), ROOT, drop, Blank())
        invariant Thinned(before, Pending(), Droppable(test, crucial))
        decreases next, next - i
      {
        var node := data[i];
        if !crucial(node.call) && test(node.time, node.call) {
          ghost var pending := Pending();
          ghost var q := queue;
          ghost var k := DeleteEvent(i);
          UntagAt(q, k);
          ThinnedDrop(before, pending, Droppable(test, crucial), k);
          i := Restart(i);
        } else {
          i := i + 1;
        }
      }
    }

    /** next-time: the least time of the pending events with the wanted function, from
        the start time on, or zero if there is none. */
    function NextTime(wanted: F -> bool, start: Start): (t: real)
      requires Valid()
      reads this, data
      ensures t == FirstTime(Pending(), wanted, start)
      ensures var e := Pending();
        && (forall i :: 0 <= i < |e| && wanted(e[i].call) && (start.Anytime? || e[i].time >= start.time) ==> t <= e[i].time)
        && ((exists i :: 0 <= i < |e| && t == e[i].time && wanted(e[i].call) && (start.Anytime? || e[i].time >= start.time))
            || (t == 0.0 && forall i :: 0 <= i < |e| ==> !(wanted(e[i].call) && (start.Anytime? || e[i].time >= start.time))))
    {
      PendingInTime();
      FirstTimeIs(Pending(), wanted, start);
      SearchIsScan(data[..], next, queue, wanted, start);
      var found := Search(data[..], next, wanted, start, ROOT);
      if found.Hit? then found.node.time else 0.0
    }

    /** last-time: the latest of all pending times. */
    function LastTime(): (t: real)
      requires Valid()
      reads this, data
      ensures next > ROOT ==> |Pending()| > 0 && t == Pending()[|Pending()| - 1].time
      ensures next == ROOT ==> t == data[0].time
    {
      LastPending();
      var start := ScanStart(next);
      Latest(data[..], start + 1, next, data[start].time)
    }

    lemma LastPending()
      requires Valid()
      ensures next > ROOT ==> |Pending()| > 0
      ensures next > ROOT ==> var start := ScanStart(next);
        Latest(data[..], start + 1, next, data[start].time) == Pending()[|Pending()| - 1].time
    {
      if next > ROOT {
        ScanFindsLast(data[..], next, queue);
      }
    }
  }

  /** An event that unschedule-if may cancel. */
  function Droppable<F>(test: (real, F) -> bool, crucial: F -> bool): Event<F> -> bool {
    (e: Event<F>) => !crucial(e.call) && test(e.time, e.call)
  }

  lemma UntagAt<F>(q: seq<Node<F>>, k: nat)
    requires k < |q|
    ensures Untag(q)[k] == Event(q[k].time, q[k].call)
  {
  }

  /** A node that unschedule-if may cancel. */
  function Cancels<F>(test: (real, F) -> bool, crucial: F -> bool): Node<F> -> bool {
    (x: Node<F>) => !crucial(x.call) && test(x.time, x.call)
  }

  /** No event is to be cancelled, in the heap or in its queue. */
  lemma NoneQueued<F>(s: seq<Node<F>>, n: nat, q: seq<Node<F>>, test: (real, F) -> bool, crucial: F -> bool)
    requires 1 <= n <= |s| && multiset(q) == Contents(s, n)
    ensures NoneFrom(s, n, 1, Cancels(test, crucial)) <==> NoneOf(Untag(q), Droppable(test, crucial))
  {
    if NoneFrom(s, n, 1, Cancels(test, crucial)) {
      forall i: nat | i < |q|
        ensures !Droppable(test, crucial)(Untag(q)[i])
      {
        var j := Slot(s, n, q, i);
      }
    }
    if NoneOf(Untag(q), Droppable(test, crucial)) {
      forall j: nat | 1 <= j < n
        ensures !Cancels(test, crucial)(s[j])
      {
        var k := Position(s, n, q, j);
        assert Untag(q)[k] == Event(s[j].time, s[j].call);
      }
    }
  }

  lemma EmptyTags<F>(s: seq<Node<F>>, q: seq<Node<F>>)
    requires 1 <= |s| && multiset(q) == Contents(s, 1)
    ensures TagsBelow(q, 0)
  {
    assert s[1..1] == [];
    assert |multiset(q)| == |q|;
  }
}
