/** Removal from the event heap on plain sequences (src/edf-sched.lisp:187-212,
    373-433): what delete-event and unschedule-if leave in the array, and which events
    the restart of unschedule-if can miss. */
module EdfCancel {
  import opened EdfOrder
  import opened PowersOfTwo

  /** The ancestors of node i move down; the hole ends at the root. */
  function Lifted<F>(s: seq<Node<F>>, i: nat): (r: seq<Node<F>>)
    requires i < |s|
    ensures |r| == |s|
    decreases i
  {
    if i < 2 then s else Lifted(s[i := s[i / 2]], i / 2)
  }

  /** The child of node h that is not after its sister. */
  function FirstChild<F>(s: seq<Node<F>>, n: nat, h: nat): (c: nat)
    requires n <= |s| && 2 * h < n
    ensures 2 * h <= c < n && c / 2 == h
  {
    if 2 * h + 1 < n && After(s[2 * h], s[2 * h + 1]) then 2 * h + 1 else 2 * h
  }

  /** Node t sinks from the hole h: earlier children move up. */
  function Sunk<F>(s: seq<Node<F>>, n: nat, h: nat, t: Node<F>): (r: seq<Node<F>>)
    requires 1 <= h < |s| && n <= |s|
    ensures |r| == |s|
    decreases |s| - h
  {
    if 2 * h < n && After(t, s[FirstChild(s, n, h)])
    then Sunk(s[h := s[FirstChild(s, n, h)]], n, FirstChild(s, n, h), t)
    else s[h := t]
  }

  /** The last of n nodes leaves the end and sinks from the root. */
  function Filled<F>(s: seq<Node<F>>, n: nat, blank: Node<F>): (r: seq<Node<F>>)
    requires 2 <= n <= |s|
    ensures |r| == |s|
  {
    var s' := s[1 := s[n - 1]][n - 1 := blank];
    Sunk(s', n - 1, 1, s'[1])
  }

  function Deleted<F>(s: seq<Node<F>>, n: nat, i: nat, blank: Node<F>): (r: seq<Node<F>>)
    requires 1 <= i < n <= |s|
    ensures |r| == |s|
  {
    Filled(Lifted(s, i), n, blank)
  }

  /** (logior i 2) */
  function WithBitOne(i: nat): (r: nat)
    ensures r >= 2
  {
    if i / 2 % 2 == 1 then i else i + 2
  }

  /** Where unschedule-if goes on after deleting node i: the depth of the node. */
  function Restart(i: nat): (r: nat)
    ensures r >= 1
  {
    IntegerLength(WithBitOne(i)) - 1
  }

  /** The rest of unschedule-if from node i on: the array and the end of the heap. */
  function Unscheduled<F>(s: seq<Node<F>>, n: nat, i: nat, drop: Node<F> -> bool, blank: Node<F>): (r: (seq<Node<F>>, nat))
    requires 1 <= i && n <= |s|
    ensures |r.0| == |s| && r.1 <= n
    decreases n, n - i
  {
    if i >= n then (s, n)
    else if drop(s[i]) then Unscheduled(Deleted(s, n, i, blank), n - 1, Restart(i), drop, blank)
    else Unscheduled(s, n, i + 1, drop, blank)
  }

  /** s[1..n] is a heap that holds exactly the nodes of q. */
  ghost predicate HeapOf<F>(s: seq<Node<F>>, n: nat, q: seq<Node<F>>) {
    1 <= n <= |s| && HeapOrdered(s, n) && Sorted(q) && multiset(q) == Contents(s, n)
  }

  lemma {:induction false} SunkHeap<F>(s: seq<Node<F>>, n: nat, h: nat, t: Node<F>, m: multiset<Node<F>>)
    requires Sinking(s, n, h, t, m)
    ensures HeapOrdered(Sunk(s, n, h, t), n) && Contents(Sunk(s, n, h, t), n) == m
    decreases |s| - h
  {
    hide HeapOrdered, Contents, EarlierChild;
    SinkingBounds(s, n, h, t, m);
    if 2 * h < n {
      var c := FirstChild(s, n, h);
      ChooseChild(s, n, h, c);
      if After(t, s[c]) {
        SinkStep(s, n, h, c, t, m);
        hide Sinking, After;
        SunkHeap(s[h := s[c]], n, c, t, m);
        return;
      }
    }
    SinkEnd(s, n, h, t, m);
  }

  lemma SinkingBounds<F>(s: seq<Node<F>>, n: nat, h: nat, t: Node<F>, m: multiset<Node<F>>)
    requires Sinking(s, n, h, t, m)
    ensures 1 <= h < n <= |s|
  {
  }

  /** Filling the hole at the root gives a heap without the node x that was there. */
  lemma FilledHeap<F>(s: seq<Node<F>>, n: nat, x: Node<F>, q: seq<Node<F>>, blank: Node<F>)
    requires 2 <= n <= |s| && HeapBut(s, n, 1) && Sorted(q)
    requires Contents(s[1 := x], n) == multiset(q) + multiset{x}
    ensures HeapOf(Filled(s, n, blank), n - 1, q)
  {
    hide HeapBut, Sorted, HeapOrdered, Sinking, Contents, Sunk;
    var s' := s[1 := s[n - 1]][n - 1 := blank];
    LastToRoot(s, s', n - 1, x, s'[1]);
    if n > 2 {
      SinkStart(s', n - 1, s'[1], multiset(q));
      SunkHeap(s', n - 1, 1, s'[1], multiset(q));
    } else {
      NothingLeft(Filled(s, n, blank), q);
    }
  }

  lemma {:induction false} LiftedHole<F>(s: seq<Node<F>>, n: nat, h: nat, x: Node<F>, m: multiset<Node<F>>)
    requires Climbing(s, n, h, x, m)
    ensures h < |s| && HeapBut(Lifted(s, h), n, 1) && 1 < n <= |s| && Contents(Lifted(s, h)[1 := x], n) == m
    decreases h
  {
    hide HeapBut, Contents;
    if h >= 2 {
      ClimbStep(s, n, h, x, m);
      LiftedHole(s[h := s[h / 2]], n, h / 2, x, m);
    }
  }

  /** Exactly the chosen node leaves the queue. */
  lemma DeletedHeap<F>(s: seq<Node<F>>, n: nat, i: nat, q: seq<Node<F>>, blank: Node<F>) returns (k: nat)
    requires HeapOf(s, n, q) && 1 <= i < n
    ensures k < |q| && q[k] == s[i] && HeapOf(Deleted(s, n, i, blank), n - 1, Drop(q, k))
  {
    hide HeapOrdered, Sorted, Contents, Climbing, HeapBut, Filled, Lifted, Drop, TagsBelow;
    k := Position(s, n, q, i);
    DropSorted(q, k);
    DropContents(q, k);
    assert q[k] in multiset(q);
    ClimbStart(s, n, i);
    LiftedHole(s, n, i, s[i], multiset(q));
    FilledHeap(Lifted(s, i), n, s[i], Drop(q, k), blank);
  }

  /* Which places a deletion leaves alone */

  lemma {:induction false} OnceInQueue<F>(q: seq<Node<F>>, x: Node<F>)
    requires Sorted(q)
    ensures multiset(q)[x] <= 1
  {
    if q != [] {
      var q' := q[..|q| - 1];
      assert q == q' + [q[|q| - 1]];
      OnceInQueue(q', x);
      if x in q' {
        var i :| 0 <= i < |q'| && q'[i] == x;
        assert After(q[|q| - 1], q[i]);
      }
    }
  }

  lemma TwiceInHeap<F>(s: seq<Node<F>>, i: nat, j: nat)
    requires i < j < |s| && s[i] == s[j]
    ensures multiset(s)[s[i]] >= 2
  {
    assert s == s[..j] + s[j..];
    assert s[..j][i] == s[i] && s[j..][0] == s[j];
  }

  /** No two nodes of the heap have the same time and tag. */
  lemma StrictOrder<F>(s: seq<Node<F>>, n: nat, q: seq<Node<F>>, i: nat, j: nat)
    requires HeapOf(s, n, q) && 1 <= i < n && 1 <= j < n && i != j && !After(s[i], s[j])
    ensures After(s[j], s[i]) && s[i] != s[j]
  {
    if s[i] == s[j] {
      var h := s[1..n];
      assert h[i - 1] == s[i] && h[j - 1] == s[j];
      TwiceInHeap(h, if i < j then i - 1 else j - 1, if i < j then j - 1 else i - 1);
      OnceInQueue(q, s[i]);
      assert false;
    }
    var a := Position(s, n, q, i);
    var b := Position(s, n, q, j);
    if a < b {
      InOrder(q, a, b);
    } else {
      InOrder(q, b, a);
      assert false;
    }
  }

  lemma InOrder<F>(q: seq<Node<F>>, a: nat, b: nat)
    requires Sorted(q) && a < b < |q|
    ensures After(q[b], q[a])
  {
  }

  /** The root stays when another node is deleted. */
  lemma RootStays<F>(s: seq<Node<F>>, n: nat, i: nat, q: seq<Node<F>>, blank: Node<F>)
    requires HeapOf(s, n, q) && 2 <= i < n
    ensures Deleted(s, n, i, blank)[1] == s[1]
  {
    hide HeapOrdered, Sorted, Contents, Deleted, Drop;
    var k := DeletedHeap(s, n, i, q, blank);
    HeadIsRoot(s, n, q);
    RootLeast(s, n, i);
    StrictOrder(s, n, q, 1, i);
    DropHead(q, k);
    HeadIsRoot(Deleted(s, n, i, blank), n - 1, Drop(q, k));
  }

  lemma DropHead<F>(q: seq<Node<F>>, k: nat)
    requires 0 < k < |q|
    ensures Drop(q, k) != [] && Drop(q, k)[0] == q[0]
  {
  }

  lemma {:induction false} SunkKeeps<F>(s: seq<Node<F>>, n: nat, h: nat, t: Node<F>, j: nat)
    requires 1 <= h < |s| && n <= |s| && j < h
    ensures Sunk(s, n, h, t)[j] == s[j]
    decreases |s| - h
  {
    if 2 * h < n && After(t, s[FirstChild(s, n, h)]) {
      SunkKeeps(s[h := s[FirstChild(s, n, h)]], n, FirstChild(s, n, h), t, j);
    }
  }

  lemma LiftedFar<F>(s: seq<Node<F>>, i: nat)
    requires 8 <= i < 12 && i < |s|
    ensures Lifted(s, i) == s[i := s[i / 2]][i / 2 := s[2]][2 := s[1]]
  {
    var s1 := s[i := s[i / 2]];
    var s2 := s1[i / 2 := s1[2]];
    assert Lifted(s, i) == Lifted(s1, i / 2) == Lifted(s2, 2);
    assert Lifted(s2, 2) == s2[2 := s2[1]];
  }

  /** The node that sinks in a heap of at most eleven nodes, with the hole lifted from
      the fourth level, comes from below node 2 and ends below it. */
  lemma SunkFar<F>(s: seq<Node<F>>, l: nat, i: nat, t: Node<F>)
    requires 8 <= i <= l < 12 && l < |s|
    requires !After(s[1], s[3]) && !After(s[2], s[5]) && After(s[4], s[2]) && After(t, s[1]) && After(t, s[2])
    ensures Sunk(s[i / 2 := s[2]][2 := s[1]][1 := t], l, 1, t)[2] == s[2]
  {
    var s0 := s[i / 2 := s[2]][2 := s[1]][1 := t];
    assert FirstChild(s0, l, 1) == 2;
    var s1 := s0[1 := s[1]];
    assert Sunk(s0, l, 1, t) == Sunk(s1, l, 2, t);
    var c := i / 2;
    assert FirstChild(s1, l, 2) == c && s1[c] == s[2];
    assert Sunk(s1, l, 2, t) == Sunk(s1[2 := s[2]], l, c, t);
    SunkKeeps(s1[2 := s[2]], l, c, t, 2);
  }

  lemma ParentFirst<F>(s: seq<Node<F>>, n: nat, c: nat)
    requires HeapOrdered(s, n) && 2 <= c < n
    ensures !After(s[c / 2], s[c])
  {
  }

  lemma BelowTwo<F>(s: seq<Node<F>>, n: nat, l: nat)
    requires HeapOrdered(s, n) && 4 <= l < n && l < 12 && (l / 2 == 2 || l / 4 == 2)
    ensures !After(s[2], s[l])
  {
    ParentFirst(s, n, l);
    if l >= 8 {
      ParentFirst(s, n, l / 2);
      NotAfterTransitive(s[2], s[l / 2], s[l]);
    }
  }

  /** In a heap of at most eleven nodes, node 2 stays when one of the fourth level is
      deleted. */
  lemma SecondStays<F>(s: seq<Node<F>>, n: nat, i: nat, q: seq<Node<F>>, blank: Node<F>)
    requires HeapOf(s, n, q) && 8 <= i < n <= 12
    ensures Deleted(s, n, i, blank)[2] == s[2]
  {
    var l := n - 1;
    var t := if l == i then s[i / 2] else s[l];
    var j := if l == i then i / 2 else l;
    LiftedFar(s, i);
    ParentFirst(s, n, 3);
    ParentFirst(s, n, 4);
    ParentFirst(s, n, 5);
    BelowTwo(s, n, j);
    RootLeast(s, n, j);
    hide HeapOrdered;
    StrictOrder(s, n, q, 2, 4);
    StrictOrder(s, n, q, 2, j);
    StrictOrder(s, n, q, 1, j);
    hide HeapOf, Sunk, Lifted, After;
    FarPlaces(s, l, i, t, blank);
    SunkFar(s[i := s[i / 2]][l := blank], l, i, t);
  }

  /** The array that node t sinks into, and t itself. */
  lemma FarPlaces<F>(s: seq<Node<F>>, l: nat, i: nat, t: Node<F>, blank: Node<F>)
    requires 8 <= i <= l < 12 && l < |s| && t == if l == i then s[i / 2] else s[l]
    ensures var r := s[i := s[i / 2]][i / 2 := s[2]][2 := s[1]];
            var w := s[i := s[i / 2]][l := blank];
            r[l] == t && r[1 := r[l]][l := blank] == w[i / 2 := w[2]][2 := w[1]][1 := t]
  {
  }

  lemma RestartIs(i: nat)
    requires 1 <= i < 12
    ensures Restart(i) == if i < 4 then 1 else if i < 8 then 2 else 3
  {
    var w := WithBitOne(i);
    assert IntegerLength(w) == if w < 4 then 2 else if w < 8 then 3 else 4 by {
      assert IntegerLength(w / 8) == if w < 8 then 0 else 1;
      assert IntegerLength(w / 4) == if w < 4 then 0 else 1 + IntegerLength(w / 8);
      assert IntegerLength(w / 2) == 1 + IntegerLength(w / 4);
    }
  }

  /* What unschedule-if achieves */

  ghost predicate NoneFrom<F>(s: seq<Node<F>>, n: nat, i: nat, drop: Node<F> -> bool) {
    n <= |s| && forall j :: i <= j < n ==> !drop(s[j])
  }

  ghost predicate NoneBefore<F>(s: seq<Node<F>>, n: nat, i: nat, drop: Node<F> -> bool) {
    n <= |s| && forall j :: 1 <= j < i && j < n ==> !drop(s[j])
  }

  /** Nodes that are not to be dropped are passed over. */
  lemma {:induction false} PassOver<F>(s: seq<Node<F>>, n: nat, i: nat, j: nat, drop: Node<F> -> bool, blank: Node<F>)
    requires 1 <= i <= j <= n <= |s| && forall k :: i <= k < j ==> !drop(s[k])
    ensures Unscheduled(s, n, i, drop, blank) == Unscheduled(s, n, j, drop, blank)
    decreases j - i
  {
    if i < j {
      PassOver(s, n, i + 1, j, drop, blank);
    }
  }

  /** Something is deleted exactly if some node from i on is to be dropped. */
  lemma {:induction false} DeletesSome<F>(s: seq<Node<F>>, n: nat, i: nat, drop: Node<F> -> bool, blank: Node<F>)
    requires 1 <= i && n <= |s|
    ensures NoneFrom(s, n, i, drop) ==> Unscheduled(s, n, i, drop, blank) == (s, n)
    ensures !NoneFrom(s, n, i, drop) ==> Unscheduled(s, n, i, drop, blank).1 < n
    decreases n - i
  {
    if i < n && !drop(s[i]) {
      DeletesSome(s, n, i + 1, drop, blank);
    }
  }

  /** With at most eleven events none is missed: the restart never skips a place that
      the deletion has refilled. */
  lemma {:induction false} DeletesAll<F>(s: seq<Node<F>>, n: nat, i: nat, drop: Node<F> -> bool, blank: Node<F>, q: seq<Node<F>>)
    requires HeapOf(s, n, q) && n <= 12 && 1 <= i && NoneBefore(s, n, i, drop)
    ensures var r := Unscheduled(s, n, i, drop, blank); NoneFrom(r.0, r.1, 1, drop)
    decreases n, n - i
  {
    hide HeapOf, Deleted, Restart;
    if i < n {
      if drop(s[i]) {
        var k := DeletedHeap(s, n, i, q, blank);
        NothingSkipped(s, n, i, drop, blank, q);
        DeletesAll(Deleted(s, n, i, blank), n - 1, Restart(i), drop, blank, Drop(q, k));
      } else {
        DeletesAll(s, n, i + 1, drop, blank, q);
      }
    }
  }

  lemma NothingSkipped<F>(s: seq<Node<F>>, n: nat, i: nat, drop: Node<F> -> bool, blank: Node<F>, q: seq<Node<F>>)
    requires HeapOf(s, n, q) && 1 <= i < n <= 12 && NoneBefore(s, n, i, drop)
    ensures NoneBefore(Deleted(s, n, i, blank), n - 1, Restart(i), drop)
  {
    hide HeapOf, Deleted, Restart;
    RestartIs(i);
    if i >= 4 {
      RootStays(s, n, i, q, blank);
    }
    if i >= 8 {
      SecondStays(s, n, i, q, blank);
    }
  }

  /* Twelve events, of which one is missed */

  function At(time: nat): Node<nat> {
    Node(time as real, time, time)
  }

  /** The events, by their times. */
  function Twelve(): (s: seq<Node<nat>>)
    ensures |s| == 13
  {
    [At(0), At(0), At(4), At(1), At(8), At(5), At(2), At(6), At(11), At(9), At(10), At(7), At(3)]
  }

  /** After the event at time 11 is deleted, the last one rests at node 2. */
  function Eleven(): (s: seq<Node<nat>>)
    ensures |s| == 13
  {
    [At(0), At(0), At(3), At(1), At(4), At(5), At(2), At(6), At(8), At(9), At(10), At(7), At(0)]
  }

  function Ten(): (s: seq<Node<nat>>)
    ensures |s| == 13
  {
    [At(0), At(0), At(3), At(1), At(4), At(5), At(2), At(6), At(8), At(7), At(10), At(0), At(0)]
  }

  predicate Unwanted(x: Node<nat>) {
    x.call == 11 || x.call == 9 || x.call == 3
  }

  lemma DeleteEleven()
    ensures Deleted(Twelve(), 13, 8, At(0)) == Eleven()
  {
    var s := Twelve();
    LiftedFar(s, 8);
    var r := s[8 := s[4]][4 := s[2]][2 := s[1]];
    var s0 := r[1 := r[12]][12 := At(0)];
    var s1 := s0[1 := At(0)];
    assert FirstChild(s0, 12, 1) == 2 && Sunk(s0, 12, 1, At(3)) == Sunk(s1, 12, 2, At(3));
    assert FirstChild(s1, 12, 2) == 4 && Sunk(s1, 12, 2, At(3)) == s1[2 := At(3)];
    assert s1[2 := At(3)] == Eleven();
  }

  lemma DeleteNine()
    ensures Deleted(Eleven(), 12, 9, At(0)) == Ten()
  {
    var s := Eleven();
    LiftedFar(s, 9);
    var r := s[9 := s[4]][4 := s[2]][2 := s[1]];
    var s0 := r[1 := r[11]][11 := At(0)];
    var s1 := s0[1 := At(0)];
    var s2 := s1[2 := At(3)];
    var s4 := s2[4 := At(4)];
    assert FirstChild(s0, 11, 1) == 2 && Sunk(s0, 11, 1, At(7)) == Sunk(s1, 11, 2, At(7));
    assert FirstChild(s1, 11, 2) == 4 && Sunk(s1, 11, 2, At(7)) == Sunk(s2, 11, 4, At(7));
    assert FirstChild(s2, 11, 4) == 9 && Sunk(s2, 11, 4, At(7)) == Sunk(s4, 11, 9, At(7));
    assert Sunk(s4, 11, 9, At(7)) == s4[9 := At(7)] == Ten();
  }

  /** With twelve events, one that satisfies the test can be missed: the event at time 3
      is still pending, at a place in front of the restart. */
  lemma TwelveMissOne()
    ensures HeapOrdered(Twelve(), 13)
    ensures Unscheduled(Twelve(), 13, 1, Unwanted, At(0)) == (Ten(), 11)
    ensures Unwanted(Ten()[2])
  {
    hide Deleted, Restart;
    PassOver(Twelve(), 13, 1, 8, Unwanted, At(0));
    DeleteEleven();
    RestartIs(8);
    PassOver(Eleven(), 12, 3, 9, Unwanted, At(0));
    DeleteNine();
    RestartIs(9);
    DeletesSome(Ten(), 11, 3, Unwanted, At(0));
  }
}
