/** The order of scheduled events and the binary heap that keeps it, on plain
    sequences (src/edf-sched.lisp:21-35, 128-131). Index 0 of a heap sequence is
    not part of the heap. */
module EdfOrder {

  /** A scheduled event: its time in samples, the ordering tag, and the function
      with its arguments. */
  datatype Node<F> = Node(time: real, order: nat, call: F)

  /** node-time>: by time, then by tag. */
  predicate After<F>(a: Node<F>, b: Node<F>) {
    a.time > b.time || (a.time == b.time && a.order > b.order)
  }

  lemma NotAfterTransitive<F>(a: Node<F>, b: Node<F>, c: Node<F>)
    requires !After(a, b) && !After(b, c)
    ensures !After(a, c)
  {
  }

  /** Every node of s[1..n] follows its parent. */
  ghost predicate HeapOrdered<F>(s: seq<Node<F>>, n: nat) {
    n <= |s| && forall i :: 2 <= i < n ==> !After(s[i / 2], s[i])
  }

  /** The heap order leaving out node h: its neighbours are compared with each
      other instead. */
  ghost predicate HeapBut<F>(s: seq<Node<F>>, n: nat, h: nat) {
    && n <= |s|
    && (forall i :: 2 <= i < n && i != h && i / 2 != h ==> !After(s[i / 2], s[i]))
    && (forall i :: 2 <= i < n && i / 2 == h && h >= 2 ==> !After(s[h / 2], s[i]))
  }

  /** x, put at h, is not before the parent of h nor after its children. */
  ghost predicate Fits<F>(s: seq<Node<F>>, n: nat, h: nat, x: Node<F>) {
    && n <= |s|
    && (2 <= h < n ==> !After(s[h / 2], x))
    && (forall i :: 2 <= i < n && i / 2 == h ==> !After(x, s[i]))
  }

  lemma HeapHole<F>(s: seq<Node<F>>, n: nat, h: nat)
    requires HeapOrdered(s, n)
    ensures HeapBut(s, n, h)
  {
    forall i | 2 <= i < n && i / 2 == h && h >= 2
      ensures !After(s[h / 2], s[i])
    {
      NotAfterTransitive(s[h / 2], s[h], s[i]);
    }
  }

  lemma HeapFill<F>(s: seq<Node<F>>, n: nat, h: nat, x: Node<F>)
    requires HeapBut(s, n, h) && 1 <= h < n && Fits(s, n, h, x)
    ensures HeapOrdered(s[h := x], n)
  {
  }

  /** Moving the parent of the hole down into it. */
  lemma HoleUp<F>(s: seq<Node<F>>, n: nat, h: nat)
    requires HeapBut(s, n, h) && 2 <= h < n
    ensures HeapBut(s[h := s[h / 2]], n, h / 2)
  {
    var p := h / 2;
    var s' := s[h := s[p]];
    assert p >= 2 ==> !After(s[p / 2], s[p]);
    forall i | 2 <= i < n && i != p && i / 2 != p
      ensures !After(s'[i / 2], s'[i])
    {
    }
    forall i | 2 <= i < n && i / 2 == p && p >= 2
      ensures !After(s'[p / 2], s'[i])
    {
      if i != h {
        NotAfterTransitive(s[p / 2], s[p], s[i]);
      }
    }
  }

  /** Moving the earlier child of the hole up into it. */
  lemma HoleDown<F>(s: seq<Node<F>>, n: nat, h: nat, c: nat)
    requires HeapBut(s, n, h) && 1 <= h < c < n && c / 2 == h
    requires forall i :: 2 <= i < n && i / 2 == h ==> !After(s[c], s[i])
    ensures HeapBut(s[h := s[c]], n, c)
  {
    var s' := s[h := s[c]];
    forall i | 2 <= i < n && i != c && i / 2 != c
      ensures !After(s'[i / 2], s'[i])
    {
    }
    forall i | 2 <= i < n && i / 2 == c
      ensures !After(s'[c / 2], s'[i])
    {
      assert !After(s[i / 2], s[i]);
    }
  }

  /** The root is the earliest node. */
  lemma {:induction false} RootLeast<F>(s: seq<Node<F>>, n: nat, i: nat)
    requires HeapOrdered(s, n) && 1 <= i < n
    ensures !After(s[1], s[i])
  {
    if i > 1 {
      RootLeast(s, n, i / 2);
      NotAfterTransitive(s[1], s[i / 2], s[i]);
    }
  }

  /* Contents */

  /** The nodes in the heap. */
  ghost function Contents<F>(s: seq<Node<F>>, n: nat): multiset<Node<F>>
    requires 1 <= n <= |s|
  {
    multiset(s[1..n])
  }

  lemma ContentsUpdate<F>(s: seq<Node<F>>, n: nat, i: nat, x: Node<F>)
    requires 1 <= i < n <= |s|
    ensures Contents(s[i := x], n) == Contents(s, n) - multiset{s[i]} + multiset{x}
    ensures s[i] in Contents(s, n)
  {
    assert s[i := x][1..n] == s[1..n][i - 1 := x];
    assert s[1..n][i - 1] == s[i];
  }

  /** Filling the hole j instead of i, after node j has moved to i. */
  lemma ContentsMove<F>(s: seq<Node<F>>, n: nat, i: nat, j: nat, x: Node<F>)
    requires 1 <= i < n <= |s| && 1 <= j < n && i != j
    ensures Contents(s[i := s[j]][j := x], n) == Contents(s[i := x], n)
  {
    ContentsUpdate(s, n, i, s[j]);
    ContentsUpdate(s, n, i, x);
    ContentsUpdate(s[i := s[j]], n, j, x);
    assert s[i := s[j]][j] == s[j];
  }

  lemma ContentsLast<F>(s: seq<Node<F>>, n: nat)
    requires 1 <= n < |s|
    ensures Contents(s, n + 1) == Contents(s, n) + multiset{s[n]}
  {
    assert s[1..n + 1] == s[1..n] + [s[n]];
  }

  /* The abstract queue */

  /** Strictly increasing in (time, tag). */
  ghost predicate Sorted<F>(q: seq<Node<F>>) {
    forall i, j :: 0 <= i < j < |q| ==> After(q[j], q[i])
  }

  ghost predicate TagsBelow<F>(q: seq<Node<F>>, tag: nat) {
    forall i :: 0 <= i < |q| ==> q[i].order < tag
  }

  /** An event without its tag. */
  datatype Event<F> = Event(time: real, call: F)

  function Untag<F>(q: seq<Node<F>>): (e: seq<Event<F>>)
    ensures |e| == |q|
    ensures forall i :: 0 <= i < |q| ==> e[i] == Event(q[i].time, q[i].call)
  {
    if q == [] then [] else [Event(q[0].time, q[0].call)] + Untag(q[1..])
  }

  /** Where an event of this time goes: behind all events that are not later. */
  function Rank<F>(e: seq<Event<F>>, time: real): (k: nat)
    ensures k <= |e|
    ensures forall i :: 0 <= i < k ==> e[i].time <= time
    ensures k < |e| ==> time < e[k].time
  {
    if e == [] || time < e[0].time then 0 else 1 + Rank(e[1..], time)
  }

  /** Stable insertion by time alone. */
  function Insert<F>(e: seq<Event<F>>, x: Event<F>): seq<Event<F>> {
    Splice(e, Rank(e, x.time), x)
  }

  function Splice<A>(q: seq<A>, k: nat, x: A): seq<A>
    requires k <= |q|
  {
    q[..k] + [x] + q[k..]
  }

  /** A fresh tag keeps the queue sorted when the node is put at its rank. */
  lemma SpliceSorted<F>(q: seq<Node<F>>, x: Node<F>, k: nat)
    requires Sorted(q) && TagsBelow(q, x.order)
    requires k == Rank(Untag(q), x.time)
    ensures Sorted(Splice(q, k, x)) && TagsBelow(Splice(q, k, x), x.order + 1)
  {
    hide Sorted;
    forall i | 0 <= i < |q|
      ensures i < k ==> After(x, q[i])
      ensures i >= k ==> After(q[i], x)
    {
      BesideRank(q, x, k, i);
    }
    SpliceBetween(q, x, k);
  }

  lemma {:induction false} BesideRank<F>(q: seq<Node<F>>, x: Node<F>, k: nat, i: nat)
    requires Sorted(q) && TagsBelow(q, x.order)
    requires k == Rank(Untag(q), x.time) && i < |q|
    ensures i < k ==> After(x, q[i])
    ensures i >= k ==> After(q[i], x)
  {
    assert Untag(q)[i].time == q[i].time;
    if i >= k {
      assert x.time < Untag(q)[k].time == q[k].time;
      assert i > k ==> After(q[i], q[k]);
    }
  }

  lemma SpliceBetween<F>(q: seq<Node<F>>, x: Node<F>, k: nat)
    requires Sorted(q) && TagsBelow(q, x.order) && k <= |q|
    requires forall i :: 0 <= i < k ==> After(x, q[i])
    requires forall i :: k <= i < |q| ==> After(q[i], x)
    ensures Sorted(Splice(q, k, x)) && TagsBelow(Splice(q, k, x), x.order + 1)
  {
    var q' := Splice(q, k, x);
    assert forall i :: 0 <= i < k ==> q'[i] == q[i];
    assert q'[k] == x;
    assert forall i :: k < i < |q'| ==> q'[i] == q[i - 1];
    hide Splice;
  }

  lemma SpliceContents<A>(q: seq<A>, k: nat, x: A)
    requires k <= |q|
    ensures multiset(Splice(q, k, x)) == multiset(q) + multiset{x}
  {
    assert q == q[..k] + q[k..];
  }

  lemma {:induction false} SpliceUntag<F>(q: seq<Node<F>>, k: nat, x: Node<F>)
    requires k <= |q|
    ensures Untag(Splice(q, k, x)) == Splice(Untag(q), k, Event(x.time, x.call))
  {
    hide Untag;
  }

  /** The earliest node is the head of the queue. */
  lemma HeadIsRoot<F>(s: seq<Node<F>>, n: nat, q: seq<Node<F>>)
    requires HeapOrdered(s, n) && 2 <= n && Sorted(q) && multiset(q) == Contents(s, n)
    ensures q != [] && q[0] == s[1]
  {
    assert s[1..n][0] == s[1];
    assert s[1] in multiset(q) && s[1] in q;
    var k :| 0 <= k < |q| && q[k] == s[1];
    assert q[0] in multiset(q) && q[0] in s[1..n];
    var i :| 0 <= i < n - 1 && s[1..n][i] == q[0];
    RootLeast(s, n, i + 1);
  }

  lemma TailContents<F>(q: seq<Node<F>>)
    requires q != [] && Sorted(q)
    ensures Sorted(q[1..]) && multiset(q[1..]) == multiset(q) - multiset{q[0]}
    ensures Untag(q[1..]) == Untag(q)[1..]
  {
    assert q == [q[0]] + q[1..];
  }

  function Drop<A>(q: seq<A>, k: nat): seq<A>
    requires k < |q|
  {
    q[..k] + q[k + 1..]
  }

  /** Taking one entry out of the middle. */
  lemma DropSorted<F>(q: seq<Node<F>>, k: nat)
    requires Sorted(q) && k < |q|
    ensures Sorted(Drop(q, k))
  {
  }

  lemma DropContents<A>(q: seq<A>, k: nat)
    requires k < |q|
    ensures multiset(Drop(q, k)) == multiset(q) - multiset{q[k]}
  {
    assert q == q[..k] + ([q[k]] + q[k + 1..]);
  }

  lemma {:induction false} DropUntag<F>(q: seq<Node<F>>, k: nat)
    requires k < |q|
    ensures Untag(Drop(q, k)) == Drop(Untag(q), k)
  {
    hide Untag;
  }

  /* Insertion */

  /** The children of the hole are strictly later than `time`. */
  ghost predicate LaterChildren<F>(s: seq<Node<F>>, n: nat, h: nat, time: real) {
    n <= |s| && forall i :: 2 <= i < n && i / 2 == h ==> s[i].time > time
  }

  /** A hole behind the last node. */
  lemma OpenAtEnd<F>(s: seq<Node<F>>, n: nat, x: Node<F>)
    requires HeapOrdered(s, n) && 1 <= n < |s|
    ensures HeapBut(s, n + 1, n) && LaterChildren(s, n + 1, n, x.time)
    ensures Contents(s[n := x], n + 1) == Contents(s, n) + multiset{x}
  {
    ContentsLast(s[n := x], n);
    assert s[n := x][1..n] == s[1..n];
  }

  lemma LaterUp<F>(s: seq<Node<F>>, n: nat, h: nat, time: real)
    requires HeapBut(s, n, h) && LaterChildren(s, n, h, time) && 2 <= h < n && time < s[h / 2].time
    ensures LaterChildren(s[h := s[h / 2]], n, h / 2, time)
  {
    forall i | 2 <= i < n && i / 2 == h / 2
      ensures s[h := s[h / 2]][i].time > time
    {
      assert i != h ==> !After(s[h / 2], s[i]);
    }
  }

  /** The new node fits the hole where the loop of schedule-at stops. */
  lemma InsertFits<F>(s: seq<Node<F>>, n: nat, h: nat, x: Node<F>)
    requires LaterChildren(s, n, h, x.time) && 1 <= h < n
    requires h > 1 ==> s[h / 2].time <= x.time && s[h / 2].order < x.order
    ensures Fits(s, n, h, x)
  {
  }

  ghost predicate OrdersBelow<F>(s: seq<Node<F>>, n: nat, h: nat, tag: nat) {
    n <= |s| && forall i :: 1 <= i < n && i != h ==> s[i].order < tag
  }

  lemma OrdersFromQueue<F>(s: seq<Node<F>>, n: nat, q: seq<Node<F>>, tag: nat)
    requires 1 <= n < |s| && TagsBelow(q, tag) && multiset(q) == Contents(s, n)
    ensures OrdersBelow(s, n + 1, n, tag)
  {
    forall i | 1 <= i < n
      ensures s[i].order < tag
    {
      assert s[1..n][i - 1] == s[i];
      assert s[i] in multiset(q) && s[i] in q;
    }
  }

  lemma OrdersUp<F>(s: seq<Node<F>>, n: nat, h: nat, tag: nat)
    requires OrdersBelow(s, n, h, tag) && 2 <= h < n
    ensures OrdersBelow(s[h := s[h / 2]], n, h / 2, tag)
  {
  }

  lemma InsertUntag<F>(q: seq<Node<F>>, x: Node<F>)
    ensures Untag(Splice(q, Rank(Untag(q), x.time), x)) == Insert(Untag(q), Event(x.time, x.call))
  {
    SpliceUntag(q, Rank(Untag(q), x.time), x);
  }

  /* Removal */

  /** The last node leaves the end for the hole at the root. */
  lemma LastToRoot<F>(s: seq<Node<F>>, s': seq<Node<F>>, n: nat, x: Node<F>, t: Node<F>)
    requires 1 <= n < |s| && |s'| == |s| && HeapBut(s, n + 1, 1)
    requires forall i :: 2 <= i < n ==> s'[i] == s[i]
    requires n > 1 ==> t == s[n] == s'[1]
    ensures n > 1 ==> HeapBut(s', n, 1)
    ensures n > 1 ==> Contents(s'[1 := t], n) == Contents(s[1 := x], n + 1) - multiset{x}
    ensures n == 1 ==> Contents(s[1 := x], n + 1) - multiset{x} == multiset{}
  {
    var w := s[1 := x];
    ContentsLast(w, n);
    if n > 1 {
      assert w[1..n] == [x] + s[2..n];
      assert s'[1 := t][1..n] == [t] + s[2..n];
      assert w[n] == s[n];
    } else {
      assert w[1..1] == [];
    }
  }

  /** What the loop of schedule-at keeps: node x fits the hole h as far as its
      children are concerned, and belongs to the contents m. */
  ghost predicate Rising<F>(s: seq<Node<F>>, n: nat, h: nat, x: Node<F>, m: multiset<Node<F>>) {
    && 1 <= h < n <= |s| && HeapBut(s, n, h) && LaterChildren(s, n, h, x.time)
    && OrdersBelow(s, n, h, x.order) && Contents(s[h := x], n) == m
  }

  lemma RiseStep<F>(s: seq<Node<F>>, n: nat, h: nat, x: Node<F>, m: multiset<Node<F>>)
    requires Rising(s, n, h, x, m) && h >= 2 && x.time < s[h / 2].time
    ensures Rising(s[h := s[h / 2]], n, h / 2, x, m)
  {
    hide HeapBut, LaterChildren, OrdersBelow, Contents;
    HoleUp(s, n, h);
    LaterUp(s, n, h, x.time);
    OrdersUp(s, n, h, x.order);
    ContentsMove(s, n, h, h / 2, x);
  }

  lemma RiseEnd<F>(s: seq<Node<F>>, n: nat, h: nat, x: Node<F>, m: multiset<Node<F>>)
    requires Rising(s, n, h, x, m) && (h >= 2 ==> !(x.time < s[h / 2].time))
    ensures HeapOrdered(s[h := x], n) && Contents(s[h := x], n) == m
  {
    InsertFits(s, n, h, x);
    HeapFill(s, n, h, x);
  }

  lemma RiseStart<F>(s: seq<Node<F>>, n: nat, q: seq<Node<F>>, x: Node<F>)
    requires HeapOrdered(s, n) && 1 <= n < |s|
    requires TagsBelow(q, x.order) && multiset(q) == Contents(s, n)
    ensures Rising(s, n + 1, n, x, multiset(q) + multiset{x})
  {
    OpenAtEnd(s, n, x);
    OrdersFromQueue(s, n, q, x.order);
  }

  /** What the sift-down loop keeps: t fits below the parent of the hole h. */
  ghost predicate Sinking<F>(s: seq<Node<F>>, n: nat, h: nat, t: Node<F>, m: multiset<Node<F>>) {
    && 1 <= h < n <= |s| && HeapBut(s, n, h) && Contents(s[h := t], n) == m
    && (h >= 2 ==> !After(s[h / 2], t))
  }

  /** c is the child of h that is not after its sister. */
  ghost predicate EarlierChild<F>(s: seq<Node<F>>, n: nat, h: nat, c: nat) {
    && 1 <= h < c < n <= |s| && c / 2 == h
    && forall i :: 2 <= i < n && i / 2 == h ==> !After(s[c], s[i])
  }

  lemma ChooseChild<F>(s: seq<Node<F>>, n: nat, h: nat, c: nat)
    requires 1 <= h && 2 * h < n <= |s|
    requires c == if 2 * h + 1 < n && After(s[2 * h], s[2 * h + 1]) then 2 * h + 1 else 2 * h
    ensures EarlierChild(s, n, h, c)
  {
  }

  lemma SinkStep<F>(s: seq<Node<F>>, n: nat, h: nat, c: nat, t: Node<F>, m: multiset<Node<F>>)
    requires Sinking(s, n, h, t, m) && EarlierChild(s, n, h, c) && After(t, s[c])
    ensures Sinking(s[h := s[c]], n, c, t, m)
  {
    HoleDown(s, n, h, c);
    ContentsMove(s, n, h, c, t);
  }

  lemma SinkEnd<F>(s: seq<Node<F>>, n: nat, h: nat, t: Node<F>, m: multiset<Node<F>>)
    requires Sinking(s, n, h, t, m)
    requires 2 * h >= n || exists c: nat {:trigger EarlierChild(s, n, h, c)} :: EarlierChild(s, n, h, c) && !After(t, s[c])
    ensures HeapOrdered(s[h := t], n) && Contents(s[h := t], n) == m
  {
    if 2 * h < n {
      var c: nat :| EarlierChild(s, n, h, c) && !After(t, s[c]);
      forall i | 2 <= i < n && i / 2 == h
        ensures !After(t, s[i])
      {
        NotAfterTransitive(t, s[c], s[i]);
      }
    }
    assert Fits(s, n, h, t);
    HeapFill(s, n, h, t);
  }

  lemma NothingLeft<F>(s: seq<Node<F>>, q: seq<Node<F>>)
    requires multiset(q) == multiset{} && 1 <= |s|
    ensures q == [] && Contents(s, 1) == multiset(q) && HeapOrdered(s, 1) && TagsBelow(q, 0)
  {
    assert |multiset(q)| == |q|;
    assert s[1..1] == [];
  }

  lemma SinkStart<F>(s: seq<Node<F>>, n: nat, t: Node<F>, m: multiset<Node<F>>)
    requires 1 <= n <= |s|
    requires n > 1 ==> HeapBut(s, n, 1) && Contents(s[1 := t], n) == m
    ensures n > 1 ==> Sinking(s, n, 1, t, m)
  {
  }

  /** The abstract queue with one more event. */
  lemma QueueInsert<F>(q: seq<Node<F>>, x: Node<F>)
    requires Sorted(q) && TagsBelow(q, x.order)
    ensures var q' := Splice(q, Rank(Untag(q), x.time), x);
            && Sorted(q') && TagsBelow(q', x.order + 1) && multiset(q') == multiset(q) + multiset{x}
            && Untag(q') == Insert(Untag(q), Event(x.time, x.call))
  {
    hide *;
    var k := Rank(Untag(q), x.time);
    SpliceSorted(q, x, k);
    SpliceContents(q, k, x);
    InsertUntag(q, x);
  }

  /** Slot 0, used for the result, is outside the heap. */
  lemma ZeroSlot<F>(s: seq<Node<F>>, n: nat, x: Node<F>)
    requires 2 <= n <= |s| && HeapOrdered(s, n)
    ensures HeapOrdered(s[0 := x], n) && Contents(s[0 := x], n) == Contents(s, n)
  {
    assert s[0 := x][1..n] == s[1..n];
  }

  /** What taking the head of the queue leaves behind. */
  lemma HeadOut<F>(s: seq<Node<F>>, n: nat, q: seq<Node<F>>, tag: nat)
    requires 2 <= n <= |s| && HeapOrdered(s, n) && Sorted(q) && TagsBelow(q, tag)
    requires multiset(q) == Contents(s, n)
    ensures q != [] && q[0] == s[1] && Untag(q)[0] == Event(s[1].time, s[1].call)
    ensures Sorted(q[1..]) && TagsBelow(q[1..], tag) && Untag(q[1..]) == Untag(q)[1..]
    ensures HeapBut(s[0 := s[1]], n, 1)
    ensures Contents(s[0 := s[1]][1 := s[1]], n) == multiset(q[1..]) + multiset{s[1]}
  {
    hide Sorted, HeapOrdered, Contents, HeapBut;
    HeadIsRoot(s, n, q);
    TailContents(q);
    assert q[0] in multiset(q);
    ZeroSlot(s, n, s[1]);
    HeapHole(s[0 := s[1]], n, 1);
    assert s[0 := s[1]][1 := s[1]] == s[0 := s[1]];
  }

  /** The hole left by a deleted node on its way to the root. */
  ghost predicate Climbing<F>(s: seq<Node<F>>, n: nat, h: nat, x: Node<F>, m: multiset<Node<F>>) {
    1 <= h < n <= |s| && HeapBut(s, n, h) && Contents(s[h := x], n) == m
  }

  lemma ClimbStart<F>(s: seq<Node<F>>, n: nat, h: nat)
    requires 1 <= h < n <= |s| && HeapOrdered(s, n)
    ensures Climbing(s, n, h, s[h], Contents(s, n))
  {
    HeapHole(s, n, h);
    assert s[h := s[h]] == s;
  }

  lemma ClimbStep<F>(s: seq<Node<F>>, n: nat, h: nat, x: Node<F>, m: multiset<Node<F>>)
    requires Climbing(s, n, h, x, m) && h >= 2
    ensures Climbing(s[h := s[h / 2]], n, h / 2, x, m)
  {
    HoleUp(s, n, h);
    ContentsMove(s, n, h, h / 2, x);
  }

  /** Every node of the heap is somewhere in the queue. */
  lemma Position<F>(s: seq<Node<F>>, n: nat, q: seq<Node<F>>, i: nat) returns (k: nat)
    requires 1 <= i < n <= |s| && multiset(q) == Contents(s, n)
    ensures k < |q| && q[k] == s[i]
  {
    assert s[1..n][i - 1] == s[i];
    assert s[i] in multiset(q) && s[i] in q;
    k :| 0 <= k < |q| && q[k] == s[i];
  }

  lemma {:induction false} QueueDrop<F>(q: seq<Node<F>>, k: nat, tag: nat)
    requires Sorted(q) && TagsBelow(q, tag) && k < |q|
    ensures Sorted(Drop(q, k)) && TagsBelow(Drop(q, k), tag) && Untag(Drop(q, k)) == Drop(Untag(q), k)
    ensures multiset(q) == multiset(Drop(q, k)) + multiset{q[k]}
  {
    DropSorted(q, k);
    DropUntag(q, k);
    DropContents(q, k);
    assert q[k] in multiset(q);
  }

  /** Ordered by time alone. */
  ghost predicate InTime<F>(e: seq<Event<F>>) {
    forall i, j :: 0 <= i < j < |e| ==> e[i].time <= e[j].time
  }

  /** Where Insert puts an event. */
  lemma InsertView<F>(e: seq<Event<F>>, x: Event<F>) returns (k: nat)
    ensures k <= |e| && |Insert(e, x)| == |e| + 1 && Insert(e, x) == e[..k] + [x] + e[k..]
    ensures forall i :: 0 <= i < k ==> Insert(e, x)[i] == e[i] && e[i].time <= x.time
    ensures Insert(e, x)[k] == x
    ensures forall i :: k < i <= |e| ==> Insert(e, x)[i] == e[i - 1]
    ensures k < |e| ==> x.time < e[k].time
  {
    k := Rank(e, x.time);
  }

  lemma InsertInTime<F>(e: seq<Event<F>>, x: Event<F>)
    requires InTime(e)
    ensures InTime(Insert(e, x))
  {
    hide Insert, Rank, Splice;
    var k := InsertView(e, x);
  }

  /** The events of one time. */
  function AtTime<F>(e: seq<Event<F>>, time: real): seq<Event<F>> {
    if e == [] then []
    else (if e[0].time == time then [e[0]] else []) + AtTime(e[1..], time)
  }

  lemma AtTimeCons<F>(x: Event<F>, e: seq<Event<F>>, time: real)
    ensures AtTime([x] + e, time) == (if x.time == time then [x] else []) + AtTime(e, time)
  {
    assert ([x] + e)[1..] == e;
  }

  lemma AtTimeSingle<F>(e: Event<F>, time: real)
    ensures AtTime([e], time) == if e.time == time then [e] else []
  {
    assert [e][1..] == [];
  }

  lemma {:induction false} AtTimeAppend<F>(a: seq<Event<F>>, b: seq<Event<F>>, time: real)
    ensures AtTime(a + b, time) == AtTime(a, time) + AtTime(b, time)
  {
    if a == [] {
      assert a + b == b;
    } else {
      hide AtTime;
      AtTimeAppend(a[1..], b, time);
      AtTimeCons(a[0], a[1..] + b, time);
      AtTimeCons(a[0], a[1..], time);
      assert a + b == [a[0]] + (a[1..] + b) && a == [a[0]] + a[1..];
    }
  }

  lemma {:induction false} AtTimeNone<F>(e: seq<Event<F>>, time: real)
    requires forall i :: 0 <= i < |e| ==> e[i].time != time
    ensures AtTime(e, time) == []
  {
    if e != [] {
      AtTimeNone(e[1..], time);
    }
  }

  /** A new event is the last one of its time. */
  lemma InsertStable<F>(e: seq<Event<F>>, x: Event<F>, time: real)
    requires InTime(e)
    ensures AtTime(Insert(e, x), time) == AtTime(e, time) + (if x.time == time then [x] else [])
  {
    hide Insert, Rank, Splice, AtTime;
    var k := InsertView(e, x);
    assert e == e[..k] + e[k..];
    assert Insert(e, x) == e[..k] + ([x] + e[k..]);
    AtTimeAppend(e[..k], [x] + e[k..], time);
    AtTimeCons(x, e[k..], time);
    AtTimeAppend(e[..k], e[k..], time);
    if x.time == time {
      AtTimeNone(e[k..], time);
    }
  }

  /** The queue after a series of schedule-at calls. */
  function Scheduled<F>(e: seq<Event<F>>, calls: seq<Event<F>>): seq<Event<F>>
    decreases |calls|
  {
    if calls == [] then e else Scheduled(Insert(e, calls[0]), calls[1..])
  }

  /** Whatever is scheduled, in any order, comes out sorted by time, with the
      events of each time in the order of the calls, and nothing lost or added. */
  lemma {:induction false} ScheduledStable<F>(e: seq<Event<F>>, calls: seq<Event<F>>, time: real)
    requires InTime(e)
    ensures InTime(Scheduled(e, calls))
    ensures AtTime(Scheduled(e, calls), time) == AtTime(e, time) + AtTime(calls, time)
    ensures multiset(Scheduled(e, calls)) == multiset(e) + multiset(calls)
    decreases |calls|
  {
    hide Insert, InTime, AtTime;
    if calls == [] {
      AtTimeNone(calls, time);
    } else {
      var x, rest := calls[0], calls[1..];
      InsertInTime(e, x);
      InsertStable(e, x, time);
      InsertContents(e, x);
      ScheduledStable(Insert(e, x), rest, time);
      assert calls == [x] + rest;
      AtTimeCons(x, rest, time);
    }
  }

  lemma InsertContents<F>(e: seq<Event<F>>, x: Event<F>)
    ensures multiset(Insert(e, x)) == multiset(e) + multiset{x}
  {
    SpliceContents(e, Rank(e, x.time), x);
  }

  /* Thinning a queue */

  /** `after` is `before` without some of the events that may be dropped. */
  ghost predicate Thinned<F>(before: seq<Event<F>>, after: seq<Event<F>>, drop: Event<F> -> bool) {
    if before == [] then after == []
    else
      || (after != [] && after[0] == before[0] && Thinned(before[1..], after[1..], drop))
      || (drop(before[0]) && Thinned(before[1..], after, drop))
  }

  lemma {:induction false} ThinnedSame<F>(e: seq<Event<F>>, drop: Event<F> -> bool)
    ensures Thinned(e, e, drop)
  {
    if e != [] {
      ThinnedSame(e[1..], drop);
    }
  }

  lemma {:induction false} ThinnedDrop<F>(before: seq<Event<F>>, after: seq<Event<F>>,
                                                drop: Event<F> -> bool, k: nat)
    requires Thinned(before, after, drop) && k < |after| && drop(after[k])
    ensures Thinned(before, Drop(after, k), drop)
  {
    if after[0] == before[0] && Thinned(before[1..], after[1..], drop) {
      if k == 0 {
        assert Drop(after, 0) == after[1..];
      } else {
        ThinnedDrop(before[1..], after[1..], drop, k - 1);
        assert Drop(after, k)[1..] == Drop(after[1..], k - 1);
      }
    } else {
      ThinnedDrop(before[1..], after, drop, k);
    }
  }

  ghost predicate NoneOf<F>(e: seq<Event<F>>, drop: Event<F> -> bool) {
    forall i: nat {:trigger e[i]} :: i < |e| ==> !drop(e[i])
  }

  lemma {:induction false} ThinnedNone<F>(before: seq<Event<F>>, after: seq<Event<F>>, drop: Event<F> -> bool)
    requires Thinned(before, after, drop) && NoneOf(before, drop)
    ensures after == before
  {
    if before != [] {
      assert !drop(before[0]);
      NoneOfTail(before, drop);
      ThinnedNone(before[1..], after[1..], drop);
    }
  }

  lemma NoneOfTail<F>(e: seq<Event<F>>, drop: Event<F> -> bool)
    requires NoneOf(e, drop) && e != []
    ensures NoneOf(e[1..], drop)
  {
  }

  /** The events that may not be dropped. */
  function Spared<F>(e: seq<Event<F>>, drop: Event<F> -> bool): seq<Event<F>> {
    if e == [] then []
    else if drop(e[0]) then Spared(e[1..], drop)
    else [e[0]] + Spared(e[1..], drop)
  }

  /** Thinning keeps every spared event, in order. */
  lemma {:induction false} ThinnedSpares<F>(before: seq<Event<F>>, after: seq<Event<F>>, drop: Event<F> -> bool)
    requires Thinned(before, after, drop)
    ensures Spared(after, drop) == Spared(before, drop)
  {
    if before != [] {
      if after != [] && after[0] == before[0] && Thinned(before[1..], after[1..], drop) {
        ThinnedSpares(before[1..], after[1..], drop);
      } else {
        ThinnedSpares(before[1..], after, drop);
      }
    }
  }

  lemma SparedCons<F>(y: Event<F>, e: seq<Event<F>>, others: Event<F> -> bool)
    ensures Spared([y] + e, others) == (if others(y) then [] else [y]) + Spared(e, others)
  {
    assert ([y] + e)[1..] == e;
  }

  lemma {:induction false} SparedAppend<F>(a: seq<Event<F>>, b: seq<Event<F>>, others: Event<F> -> bool)
    ensures Spared(a + b, others) == Spared(a, others) + Spared(b, others)
  {
    if a == [] {
      assert a + b == b;
    } else {
      hide Spared;
      SparedAppend(a[1..], b, others);
      SparedCons(a[0], a[1..] + b, others);
      SparedCons(a[0], a[1..], others);
      assert a + b == [a[0]] + (a[1..] + b) && a == [a[0]] + a[1..];
    }
  }

  lemma {:induction false} SparedAtTime<F>(e: seq<Event<F>>, others: Event<F> -> bool, time: real)
    ensures Spared(AtTime(e, time), others) == AtTime(Spared(e, others), time)
  {
    if e == [] {
      SparedNone(others);
      assert AtTime(e, time) == [];
    } else {
      var y, rest := e[0], e[1..];
      SparedAtTime(rest, others, time);
      assert e == [y] + rest;
      AtTimeCons(y, rest, time);
      AtTimeCons(y, Spared(rest, others), time);
      SparedCons(y, rest, others);
      SparedCons(y, AtTime(rest, time), others);
      SparedNone(others);
      hide AtTime, Spared;
      assert [] + AtTime(rest, time) == AtTime(rest, time);
      assert [] + Spared(rest, others) == Spared(rest, others);
      assert [] + AtTime(Spared(rest, others), time) == AtTime(Spared(rest, others), time);
    }
  }

  lemma SparedNone<F>(others: Event<F> -> bool)
    ensures Spared([], others) == []
  {
  }

  lemma SparedLast<F>(e: seq<Event<F>>, x: Event<F>, others: Event<F> -> bool)
    ensures Spared(e + [x], others) == Spared(e, others) + (if others(x) then [] else [x])
  {
    SparedAppend(e, [x], others);
    assert [x][1..] == [];
  }
}
