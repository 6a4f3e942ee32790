/** Pruned searches in the event heap and the full scans they agree with
    (src/edf-sched.lisp:237-290). */
module EdfSearch {
  import opened EdfOrder
  import opened PowersOfTwo

  datatype Found<F> = Nothing | Hit(node: Node<F>)

  datatype Start = Anytime | From(time: real)

  predicate Matches<F>(wanted: F -> bool, start: Start, time: real, call: F) {
    wanted(call) && (start.From? ==> time >= start.time)
  }

  /** The earlier of two search results. */
  function Earlier<F>(left: Found<F>, right: Found<F>): Found<F> {
    if left.Hit? && right.Hit? then
      if After(right.node, left.node) then left else right
    else if left.Hit? then left else right
  }

  /** The search below node i of s[1..n] stops at the first match on each path. */
  function Search<F>(s: seq<Node<F>>, n: nat, wanted: F -> bool, start: Start, i: nat): Found<F>
    requires 1 <= i && n <= |s|
    decreases n - i
  {
    if i >= n then Nothing
    else if Matches(wanted, start, s[i].time, s[i].call) then Hit(s[i])
    else Earlier(Search(s, n, wanted, start, 2 * i), Search(s, n, wanted, start, 2 * i + 1))
  }

  /** The first match in an ordered list of events, read from front to back. */
  function FirstTime<F>(e: seq<Event<F>>, wanted: F -> bool, start: Start): real {
    if e == [] then 0.0
    else if Matches(wanted, start, e[0].time, e[0].call) then e[0].time
    else FirstTime(e[1..], wanted, start)
  }

  /** In an ordered list the first match is the least one. */
  lemma {:induction false} FirstTimeIs<F>(e: seq<Event<F>>, wanted: F -> bool, start: Start)
    requires InTime(e)
    ensures var t := FirstTime(e, wanted, start);
      && (forall i :: 0 <= i < |e| && wanted(e[i].call) && (start.Anytime? || e[i].time >= start.time) ==> t <= e[i].time)
      && ((exists i :: 0 <= i < |e| && t == e[i].time && wanted(e[i].call) && (start.Anytime? || e[i].time >= start.time))
          || (t == 0.0 && forall i :: 0 <= i < |e| ==> !(wanted(e[i].call) && (start.Anytime? || e[i].time >= start.time))))
  {
    if e != [] {
      var x, rest := e[0], e[1..];
      assert forall i :: 0 < i < |e| ==> e[i] == rest[i - 1];
      FirstTimeIs(rest, wanted, start);
      if !Matches(wanted, start, x.time, x.call) {
        var t := FirstTime(rest, wanted, start);
        if j :| 0 <= j < |rest| && t == rest[j].time && wanted(rest[j].call) && (start.Anytime? || rest[j].time >= start.time) {
          assert e[j + 1] == rest[j];
        }
      } else {
        assert e[0] == x;
      }
    }
  }

  /** Node j is i or one of its descendants. */
  predicate Under(i: nat, j: nat) {
    j == i || (j > i && Under(i, j / 2))
  }

  lemma {:induction false} UnderRoot(j: nat)
    requires j >= 1
    ensures Under(1, j)
  {
    if j > 1 {
      UnderRoot(j / 2);
    }
  }

  /** A proper descendant is below one of the two children. */
  lemma {:induction false} UnderChild(i: nat, j: nat)
    requires 1 <= i < j && Under(i, j)
    ensures Under(2 * i, j) || Under(2 * i + 1, j)
  {
    if j / 2 != i {
      UnderChild(i, j / 2);
    }
  }

  lemma {:induction false} AncestorFirst<F>(s: seq<Node<F>>, n: nat, i: nat, j: nat)
    requires HeapOrdered(s, n) && 1 <= i <= j < n && Under(i, j)
    ensures !After(s[i], s[j])
  {
    if i < j {
      AncestorFirst(s, n, i, j / 2);
      NotAfterTransitive(s[i], s[j / 2], s[j]);
    }
  }

  ghost predicate MatchAt<F>(s: seq<Node<F>>, n: nat, wanted: F -> bool, start: Start, i: nat, j: nat) {
    i <= j < n <= |s| && Under(i, j) && Matches(wanted, start, s[j].time, s[j].call)
  }

  /** r is the earliest match at or below node i. */
  ghost predicate EarliestBelow<F>(s: seq<Node<F>>, n: nat, wanted: F -> bool, start: Start, i: nat, r: Found<F>) {
    && (r.Nothing? ==> forall j: nat :: !MatchAt(s, n, wanted, start, i, j))
    && (r.Hit? ==> forall j: nat :: MatchAt(s, n, wanted, start, i, j) ==> !After(r.node, s[j]))
    && (r.Hit? ==> exists j: nat :: MatchAt(s, n, wanted, start, i, j) && s[j] == r.node)
  }

  lemma {:induction false} SearchEarliest<F>(s: seq<Node<F>>, n: nat, wanted: F -> bool, start: Start, i: nat)
    requires HeapOrdered(s, n) && 1 <= i
    ensures EarliestBelow(s, n, wanted, start, i, Search(s, n, wanted, start, i))
    decreases n - i
  {
    if i < n {
      if Matches(wanted, start, s[i].time, s[i].call) {
        assert MatchAt(s, n, wanted, start, i, i);
        forall j: nat | MatchAt(s, n, wanted, start, i, j)
          ensures !After(s[i], s[j])
        {
          AncestorFirst(s, n, i, j);
        }
      } else {
        SearchEarliest(s, n, wanted, start, 2 * i);
        SearchEarliest(s, n, wanted, start, 2 * i + 1);
        EarliestOfBoth(s, n, wanted, start, i, Search(s, n, wanted, start, 2 * i), Search(s, n, wanted, start, 2 * i + 1));
      }
    }
  }

  lemma ChildMatch<F>(s: seq<Node<F>>, n: nat, wanted: F -> bool, start: Start, i: nat, c: nat, j: nat)
    requires 1 <= i && c / 2 == i && MatchAt(s, n, wanted, start, c, j)
    ensures MatchAt(s, n, wanted, start, i, j)
  {
    UnderTrans(i, c, j);
  }

  lemma {:induction false} UnderTrans(i: nat, c: nat, j: nat)
    requires 1 <= i && c / 2 == i && Under(c, j)
    ensures Under(i, j)
  {
    if j > c {
      UnderTrans(i, c, j / 2);
    }
  }

  lemma EarliestOfBoth<F>(s: seq<Node<F>>, n: nat, wanted: F -> bool, start: Start, i: nat,
                          left: Found<F>, right: Found<F>)
    requires 1 <= i < n <= |s| && !Matches(wanted, start, s[i].time, s[i].call)
    requires EarliestBelow(s, n, wanted, start, 2 * i, left)
    requires EarliestBelow(s, n, wanted, start, 2 * i + 1, right)
    ensures EarliestBelow(s, n, wanted, start, i, Earlier(left, right))
  {
    var r := Earlier(left, right);
    forall j: nat | MatchAt(s, n, wanted, start, i, j)
      ensures r.Hit? && !After(r.node, s[j])
    {
      UnderChild(i, j);
      assert MatchAt(s, n, wanted, start, 2 * i, j) || MatchAt(s, n, wanted, start, 2 * i + 1, j);
    }
    if r.Hit? {
      var c := if r == left then 2 * i else 2 * i + 1;
      var j: nat :| MatchAt(s, n, wanted, start, c, j) && s[j] == r.node;
      ChildMatch(s, n, wanted, start, i, c, j);
    }
  }

  /** Scanning the queue finds the least match. */
  lemma {:induction false} ScanFinds<F>(q: seq<Node<F>>, wanted: F -> bool, start: Start, k: nat)
    requires Sorted(q) && k < |q| && Matches(wanted, start, q[k].time, q[k].call)
    requires forall i :: 0 <= i < |q| && Matches(wanted, start, q[i].time, q[i].call) ==> !After(q[k], q[i])
    ensures FirstTime(Untag(q), wanted, start) == q[k].time
  {
    if k > 0 {
      assert After(q[k], q[0]);
      assert Sorted(q[1..]);
      ScanFinds(q[1..], wanted, start, k - 1);
      assert Untag(q)[1..] == Untag(q[1..]);
    }
  }

  lemma {:induction false} ScanMisses<F>(q: seq<Node<F>>, wanted: F -> bool, start: Start)
    requires forall i :: 0 <= i < |q| ==> !Matches(wanted, start, q[i].time, q[i].call)
    ensures FirstTime(Untag(q), wanted, start) == 0.0
  {
    if q != [] {
      ScanMisses(q[1..], wanted, start);
      assert Untag(q)[1..] == Untag(q[1..]);
    }
  }

  /** next-time: the pruned search from the root finds what a full scan of the
      ordered queue finds first. */
  lemma SearchIsScan<F>(s: seq<Node<F>>, n: nat, q: seq<Node<F>>, wanted: F -> bool, start: Start)
    requires HeapOrdered(s, n) && 1 <= n && Sorted(q) && multiset(q) == Contents(s, n)
    ensures var r := Search(s, n, wanted, start, 1);
            FirstTime(Untag(q), wanted, start) == if r.Hit? then r.node.time else 0.0
  {
    var r := Search(s, n, wanted, start, 1);
    SearchEarliest(s, n, wanted, start, 1);
    forall i | 0 <= i < |q| && Matches(wanted, start, q[i].time, q[i].call)
      ensures r.Hit? && !After(r.node, q[i])
    {
      var j := Slot(s, n, q, i);
      UnderRoot(j);
      assert MatchAt(s, n, wanted, start, 1, j);
    }
    if r.Hit? {
      var j: nat :| MatchAt(s, n, wanted, start, 1, j) && s[j] == r.node;
      var k := Position(s, n, q, j);
      ScanFinds(q, wanted, start, k);
    } else {
      ScanMisses(q, wanted, start);
    }
  }

  /** Every queue entry is somewhere in the heap. */
  lemma Slot<F>(s: seq<Node<F>>, n: nat, q: seq<Node<F>>, i: nat) returns (j: nat)
    requires 1 <= n <= |s| && i < |q| && multiset(q) == Contents(s, n)
    ensures 1 <= j < n && s[j] == q[i]
  {
    assert q[i] in multiset(q) && q[i] in s[1..n];
    var k :| 0 <= k < n - 1 && s[1..n][k] == q[i];
    j := k + 1;
  }

  /* The last time */

  /** Where last-time starts to scan a heap that ends before index n. */
  function ScanStart(n: nat): (start: nat)
    requires 1 <= n
    ensures n >= 2 ==> 1 <= start < n && 2 * start <= n + 1
    ensures n == 1 ==> start == 0
  {
    if IsPowerOfTwo(n) then n / 2
    else
      var m := n / 4;
      if m < 2 then m + 1 else NextPowerOfTwo(m)
  }

  function Latest<F>(s: seq<Node<F>>, i: nat, n: nat, time: real): (t: real)
    requires i <= n <= |s|
    ensures t >= time && forall j :: i <= j < n ==> t >= s[j].time
    ensures t == time || exists j :: i <= j < n && t == s[j].time
    decreases n - i
  {
    if i == n then time
    else Latest(s, i + 1, n, if s[i].time > time then s[i].time else time)
  }

  /** Some node from the start of the scan on is at least as late as node j. */
  lemma {:induction false} LaterInScan<F>(s: seq<Node<F>>, n: nat, j: nat)
    requires HeapOrdered(s, n) && 1 <= j < n
    ensures exists i :: ScanStart(n) <= i < n && s[j].time <= s[i].time
    decreases n - j
  {
    if j < ScanStart(n) {
      LaterInScan(s, n, 2 * j);
      var i :| ScanStart(n) <= i < n && s[2 * j].time <= s[i].time;
      assert !After(s[2 * j / 2], s[2 * j]);
    }
  }

  /** last-time: scanning from the computed start finds the end of the queue. */
  lemma ScanFindsLast<F>(s: seq<Node<F>>, n: nat, q: seq<Node<F>>)
    requires HeapOrdered(s, n) && 2 <= n && Sorted(q) && multiset(q) == Contents(s, n)
    ensures q != []
    ensures var start := ScanStart(n); Latest(s, start + 1, n, s[start].time) == q[|q| - 1].time
  {
    var start := ScanStart(n);
    var t := Latest(s, start + 1, n, s[start].time);
    var top: nat :| start <= top < n && t == s[top].time;
    var k := Position(s, n, q, top);
    var j := Slot(s, n, q, |q| - 1);
    LaterInScan(s, n, j);
    assert k < |q| - 1 ==> After(q[|q| - 1], q[k]);
  }
}
