/** The shape of the node graph, as its list of nodes in pre-order with depths
    (src/graph.lisp). A group is followed by its members; a depth says how many
    groups a node is in. */
module GraphShape {

  const NIL := -1
  /** The `last` field of a group without nodes, and the `prev` field of the root. */
  const DUMMY := -2
  const ROOT := 0

  datatype Entry = Entry(id: int, depth: nat, group: bool)

  /** A pre-order list that starts with the root group. */
  ghost predicate Shape(f: seq<Entry>) {
    && f != [] && f[0] == Entry(ROOT, 0, true)
    && (forall i :: 0 <= i < |f| ==> f[i].id >= 0)
    && (forall i {:trigger f[i].depth} :: 0 < i < |f| ==> f[i].depth >= 1)
    && (forall i, j :: i == j - 1 && 0 <= i < j < |f| ==> f[j].depth <= f[i].depth + if f[i].group then 1 else 0)
    && (forall i, j :: 0 <= i < j < |f| ==> f[i].id != f[j].id)
  }

  ghost predicate Within(f: seq<Entry>, x: int) {
    exists i :: 0 <= i < |f| && f[i].id == x
  }

  function IndexOf(f: seq<Entry>, x: int): (i: nat)
    requires Within(f, x)
    ensures i < |f| && f[i].id == x
  {
    if f[0].id == x then 0 else
      assert Within(f[1..], x) by {
        var i :| 0 <= i < |f| && f[i].id == x;
        assert f[1..][i - 1] == f[i];
      }
      1 + IndexOf(f[1..], x)
  }

  /** The last node up to j that is less deep than d. */
  function Up(f: seq<Entry>, j: nat, d: nat): (r: nat)
    requires j < |f| && f[0].depth < d
    ensures r <= j && f[r].depth < d
    ensures forall m :: r < m <= j ==> f[m].depth >= d
  {
    if f[j].depth < d then j else Up(f, j - 1, d)
  }

  /** The group that a node is in. */
  function Par(f: seq<Entry>, i: nat): (r: nat)
    requires Shape(f) && 0 < i < |f|
    ensures IsParent(f, i, r)
  {
    Up(f, i - 1, f[i].depth)
  }

  ghost predicate IsParent(f: seq<Entry>, i: nat, r: nat) {
    r < i < |f| && f[r].depth < f[i].depth && forall m :: r < m < i ==> f[m].depth >= f[i].depth
  }

  lemma ParUnique(f: seq<Entry>, i: nat, r: nat)
    requires Shape(f) && 0 < i < |f| && IsParent(f, i, r)
    ensures Par(f, i) == r
  {
    hide Shape;
    var u := Par(f, i);
  }

  /** A parent is a group, one level up. */
  lemma ParentIsGroup(f: seq<Entry>, i: nat)
    requires Shape(f) && 0 < i < |f|
    ensures f[Par(f, i)].group && f[Par(f, i)].depth + 1 == f[i].depth
  {
    var r := Par(f, i);
    assert f[r + 1].depth >= f[i].depth;
    assert f[r + 1].depth <= f[r].depth + if f[r].group then 1 else 0;
  }

  /** The node after the members of a group, when the scan has come to j. */
  function Skip(f: seq<Entry>, j: nat, d: nat): (r: nat)
    requires j <= |f|
    ensures j <= r <= |f| && forall m :: j <= m < r ==> f[m].depth > d
    ensures r < |f| ==> f[r].depth <= d
    decreases |f| - j
  {
    if j < |f| && f[j].depth > d then Skip(f, j + 1, d) else j
  }

  /** The first node that is not in node i. */
  function End(f: seq<Entry>, i: nat): (r: nat)
    requires i < |f|
    ensures i < r <= |f|
  {
    Skip(f, i + 1, f[i].depth)
  }

  /* Adding and taking away one entry */

  function Ins(f: seq<Entry>, k: nat, e: Entry): seq<Entry>
    requires k <= |f|
  {
    f[..k] + [e] + f[k..]
  }

  function Del(f: seq<Entry>, k: nat): seq<Entry>
    requires k < |f|
  {
    f[..k] + f[k + 1..]
  }

  /** Where an index goes when an entry is put at k. */
  function Sh(k: nat, j: nat): nat {
    if j < k then j else j + 1
  }

  lemma InsView(f: seq<Entry>, k: nat, e: Entry)
    requires k <= |f|
    ensures |Ins(f, k, e)| == |f| + 1 && Ins(f, k, e)[k] == e
    ensures forall j {:trigger Ins(f, k, e)[j]} :: 0 <= j <= |f| ==>
      Ins(f, k, e)[j] == if j < k then f[j] else if j == k then e else f[j - 1]
    ensures forall j: nat {:trigger Sh(k, j)} :: j < |f| ==> Ins(f, k, e)[Sh(k, j)] == f[j]
  {
  }

  lemma DelView(f: seq<Entry>, k: nat)
    requires k < |f|
    ensures |Del(f, k)| == |f| - 1 && Ins(Del(f, k), k, f[k]) == f
    ensures forall j {:trigger Del(f, k)[j]} :: 0 <= j < |f| - 1 ==> Del(f, k)[j] == f[if j < k then j else j + 1]
  {
  }

  /** A new entry may stand at k: no deeper than its surroundings allow, and
      without members. */
  ghost predicate Fits(f: seq<Entry>, k: nat, e: Entry) {
    && 0 < k <= |f| && e.id >= 0 && !Within(f, e.id)
    && 1 <= e.depth <= f[k - 1].depth + (if f[k - 1].group then 1 else 0)
    && (k < |f| ==> f[k].depth <= e.depth)
  }

  lemma InsShape(f: seq<Entry>, k: nat, e: Entry)
    requires Shape(f) && Fits(f, k, e)
    ensures Shape(Ins(f, k, e))
  {
    hide Ins;
    InsView(f, k, e);
    InsIds(f, k, e);
    InsDepths(f, k, e);
  }

  lemma InsIds(f: seq<Entry>, k: nat, e: Entry)
    requires Shape(f) && Fits(f, k, e)
    ensures forall i :: 0 <= i <= |f| ==> Ins(f, k, e)[i].id >= 0
    ensures forall i, j :: 0 <= i < j <= |f| ==> Ins(f, k, e)[i].id != Ins(f, k, e)[j].id
  {
    hide Ins;
    InsView(f, k, e);
    assert forall i :: 0 <= i < |f| ==> f[i].id != e.id;
    var f' := Ins(f, k, e);
    forall i, j | 0 <= i < j <= |f|
      ensures f'[i].id != f'[j].id
    {
      assert f'[i] == if i < k then f[i] else if i == k then e else f[i - 1];
      assert f'[j] == if j < k then f[j] else if j == k then e else f[j - 1];
    }
  }

  lemma InsDepths(f: seq<Entry>, k: nat, e: Entry)
    requires Shape(f) && Fits(f, k, e)
    ensures forall i {:trigger Ins(f, k, e)[i].depth} :: 0 < i <= |f| ==> Ins(f, k, e)[i].depth >= 1
    ensures forall i, j :: i == j - 1 && 0 <= i < j <= |f| ==>
      Ins(f, k, e)[j].depth <= Ins(f, k, e)[i].depth + if Ins(f, k, e)[i].group then 1 else 0
  {
    hide Ins, Within;
    InsView(f, k, e);
  }

  /** Nobody changes groups when an entry is put in. */
  lemma InsPar(f: seq<Entry>, k: nat, e: Entry, j: nat)
    requires Shape(f) && Fits(f, k, e) && 0 < j < |f|
    requires Shape(Ins(f, k, e)) && Sh(k, j) < |Ins(f, k, e)|
    ensures Par(Ins(f, k, e), Sh(k, j)) == Sh(k, Par(f, j))
  {
    hide Ins, Shape, Within;
    InsView(f, k, e);
    var f', r := Ins(f, k, e), Par(f, j);
    assert f'[Sh(k, j)] == f[j] && f'[Sh(k, r)] == f[r];
    forall m | Sh(k, r) < m < Sh(k, j)
      ensures f'[m].depth >= f[j].depth
    {
      if m == k {
        assert f[k].depth >= f[j].depth;
      }
    }
    ParUnique(f', Sh(k, j), Sh(k, r));
  }

  /** r is the group of an entry that is put in at k. */
  ghost predicate ParentAt(f: seq<Entry>, k: nat, e: Entry, r: nat) {
    r < k <= |f| && f[r].depth < e.depth && forall m :: r < m < k ==> f[m].depth >= e.depth
  }

  lemma InsParNew(f: seq<Entry>, k: nat, e: Entry, r: nat)
    requires Shape(f) && Fits(f, k, e) && ParentAt(f, k, e, r)
    requires Shape(Ins(f, k, e)) && k < |Ins(f, k, e)|
    ensures Par(Ins(f, k, e), k) == r
  {
    hide Ins, Shape, Within;
    InsView(f, k, e);
    ParUnique(Ins(f, k, e), k, r);
  }

  lemma DelShape(f: seq<Entry>, k: nat)
    requires Shape(f) && 0 < k < |f| && (k + 1 < |f| ==> f[k + 1].depth <= f[k].depth)
    ensures Shape(Del(f, k)) && Fits(Del(f, k), k, f[k])
  {
    hide Del;
    DelView(f, k);
    var f' := Del(f, k);
    forall i, j | i == j - 1 && 0 <= i < j < |f'|
      ensures f'[j].depth <= f'[i].depth + if f'[i].group then 1 else 0
    {
      if j == k {
        assert f[k].depth <= f[k - 1].depth + if f[k - 1].group then 1 else 0;
      }
    }
    DelIds(f, k);
  }

  lemma DelIds(f: seq<Entry>, k: nat)
    requires Shape(f) && k < |f|
    ensures forall i, j :: 0 <= i < j < |Del(f, k)| ==> Del(f, k)[i].id != Del(f, k)[j].id
    ensures !Within(Del(f, k), f[k].id)
  {
    hide Del;
    DelView(f, k);
    var f' := Del(f, k);
    forall i, j | 0 <= i < j < |f'|
      ensures f'[i].id != f'[j].id
    {
      assert f'[i] == f[Sh(k, i)] && f'[j] == f[Sh(k, j)];
    }
    forall i | 0 <= i < |f'|
      ensures f'[i].id != f[k].id
    {
      assert f'[i] == f[Sh(k, i)];
    }
  }

  /* Members of a group */

  ghost predicate IsKid(f: seq<Entry>, i: nat, j: nat)
    requires Shape(f)
  {
    0 < j < |f| && Par(f, j) == i
  }

  ghost predicate NoKids(f: seq<Entry>, i: nat)
    requires Shape(f)
  {
    forall j: nat :: !IsKid(f, i, j)
  }

  ghost predicate IsLastKid(f: seq<Entry>, i: nat, j: nat)
    requires Shape(f)
  {
    IsKid(f, i, j) && forall m: nat :: m > j ==> !IsKid(f, i, m)
  }

  /** The members of node i between two places of the list, in order. */
  ghost function KidsIn(f: seq<Entry>, i: nat, lo: nat, hi: nat): seq<int>
    requires Shape(f) && lo <= hi <= |f|
    decreases hi - lo
  {
    if lo == hi then []
    else (if IsKid(f, i, lo) then [f[lo].id] else []) + KidsIn(f, i, lo + 1, hi)
  }

  /** The members of node i, first to last. */
  ghost function Kids(f: seq<Entry>, i: nat): seq<int>
    requires Shape(f)
  {
    KidsIn(f, i, 0, |f|)
  }

  lemma {:induction false} KidsSplit(f: seq<Entry>, i: nat, lo: nat, mid: nat, hi: nat)
    requires Shape(f) && lo <= mid <= hi <= |f|
    ensures KidsIn(f, i, lo, hi) == KidsIn(f, i, lo, mid) + KidsIn(f, i, mid, hi)
    decreases mid - lo
  {
    hide Shape, IsKid;
    if lo < mid {
      KidsSplit(f, i, lo + 1, mid, hi);
    }
  }

  lemma {:induction false} NoKidsIn(f: seq<Entry>, i: nat, lo: nat, hi: nat)
    requires Shape(f) && lo <= hi <= |f|
    requires forall j: nat :: lo <= j < hi ==> !IsKid(f, i, j)
    ensures KidsIn(f, i, lo, hi) == []
    decreases hi - lo
  {
    hide Shape, IsKid;
    if lo < hi {
      NoKidsIn(f, i, lo + 1, hi);
    }
  }

  /** Entries of the old list are members of the same groups in the new one. */
  lemma InsKid(f: seq<Entry>, k: nat, e: Entry, i: nat, j: nat)
    requires Shape(f) && Fits(f, k, e) && Shape(Ins(f, k, e))
    ensures IsKid(Ins(f, k, e), Sh(k, i), Sh(k, j)) <==> IsKid(f, i, j)
  {
    hide Ins, Shape, Fits;
    FitsBehindRoot(f, k, e);
    InsView(f, k, e);
    if 0 < j < |f| {
      InsPar(f, k, e, j);
    }
  }

  lemma FitsBehindRoot(f: seq<Entry>, k: nat, e: Entry)
    requires Fits(f, k, e)
    ensures 0 < k <= |f| && e.id >= 0
  {
  }

  lemma InsKidNew(f: seq<Entry>, k: nat, e: Entry, r: nat, i: nat)
    requires Shape(f) && Fits(f, k, e) && ParentAt(f, k, e, r) && Shape(Ins(f, k, e))
    ensures IsKid(Ins(f, k, e), Sh(k, i), k) <==> i == r
  {
    hide Ins, Shape;
    InsView(f, k, e);
    InsParNew(f, k, e, r);
  }

  /** The new entry has no members of its own. */
  lemma InsNoKids(f: seq<Entry>, k: nat, e: Entry)
    requires Shape(f) && Fits(f, k, e) && Shape(Ins(f, k, e))
    ensures NoKids(Ins(f, k, e), k)
  {
    hide Ins;
    InsView(f, k, e);
    var f' := Ins(f, k, e);
    forall j: nat
      ensures !IsKid(f', k, j)
    {
      if 0 < j < |f'| {
        ParentIsGroup(f', j);
        assert j > k + 1 ==> f'[k + 1].depth <= e.depth;
      }
    }
  }

  lemma {:induction false} KidsBefore(f: seq<Entry>, k: nat, e: Entry, i: nat, lo: nat)
    requires Shape(f) && Fits(f, k, e) && Shape(Ins(f, k, e)) && lo <= k <= |f| && k <= |Ins(f, k, e)|
    ensures KidsIn(Ins(f, k, e), Sh(k, i), lo, k) == KidsIn(f, i, lo, k)
    decreases k - lo
  {
    hide Ins, Shape, Fits, IsKid;
    InsView(f, k, e);
    if lo < k {
      KidsBefore(f, k, e, i, lo + 1);
      InsKid(f, k, e, i, lo);
    }
  }

  lemma {:induction false} KidsBehind(f: seq<Entry>, k: nat, e: Entry, i: nat, lo: nat)
    requires Shape(f) && Fits(f, k, e) && Shape(Ins(f, k, e)) && k <= lo <= |f| && |Ins(f, k, e)| == |f| + 1
    ensures KidsIn(Ins(f, k, e), Sh(k, i), lo + 1, |f| + 1) == KidsIn(f, i, lo, |f|)
    decreases |f| - lo
  {
    hide Ins, Shape, Fits, IsKid;
    InsView(f, k, e);
    if lo < |f| {
      KidsBehind(f, k, e, i, lo + 1);
      InsKid(f, k, e, i, lo);
    }
  }

  /** Putting an entry into the list adds it to the members of one group, between
      those before and those behind it, and leaves all other groups alone. */
  lemma InsKids(f: seq<Entry>, k: nat, e: Entry, r: nat, i: nat)
    requires Shape(f) && Fits(f, k, e) && ParentAt(f, k, e, r) && Shape(Ins(f, k, e))
    ensures Kids(Ins(f, k, e), Sh(k, i)) == KidsIn(f, i, 0, k) + (if i == r then [e.id] else []) + KidsIn(f, i, k, |f|)
    ensures Kids(f, i) == KidsIn(f, i, 0, k) + KidsIn(f, i, k, |f|)
  {
    hide Ins, Shape, IsKid;
    var f' := Ins(f, k, e);
    InsView(f, k, e);
    KidsSplit(f, i, 0, k, |f|);
    KidsSplit(f', Sh(k, i), 0, k, |f'|);
    KidsBefore(f, k, e, i, 0);
    KidsBehind(f, k, e, i, k);
    InsKidNew(f, k, e, r, i);
  }

  /* The four places for a new node */

  datatype Action = Head | Tail | Before | After

  /** Whether a node may be added at this place of node i. */
  ghost predicate Allowed(f: seq<Entry>, a: Action, i: nat) {
    i < |f| && if a.Head? || a.Tail? then f[i].group else i > 0
  }

  ghost function Place(f: seq<Entry>, a: Action, i: nat): nat
    requires Allowed(f, a, i)
  {
    match a
    case Head => i + 1
    case Tail => End(f, i)
    case Before => i
    case After => End(f, i)
  }

  ghost function NewEntry(f: seq<Entry>, a: Action, i: nat, id: int, group: bool): Entry
    requires Allowed(f, a, i)
  {
    Entry(id, if a.Head? || a.Tail? then f[i].depth + 1 else f[i].depth, group)
  }

  /** The group that the new node is in. */
  ghost function GroupOf(f: seq<Entry>, a: Action, i: nat): nat
    requires Shape(f) && Allowed(f, a, i)
  {
    if a.Head? || a.Tail? then i else Par(f, i)
  }

  ghost function Added(f: seq<Entry>, a: Action, i: nat, id: int, group: bool): seq<Entry>
    requires Allowed(f, a, i)
  {
    Ins(f, Place(f, a, i), NewEntry(f, a, i, id, group))
  }

  lemma AddedFits(f: seq<Entry>, a: Action, i: nat, id: int, group: bool)
    requires Shape(f) && Allowed(f, a, i) && id >= 0 && !Within(f, id)
    ensures Fits(f, Place(f, a, i), NewEntry(f, a, i, id, group))
    ensures ParentAt(f, Place(f, a, i), NewEntry(f, a, i, id, group), GroupOf(f, a, i))
    ensures Shape(Added(f, a, i, id, group)) && GroupOf(f, a, i) < Place(f, a, i) <= |f| && f[GroupOf(f, a, i)].group
  {
    hide Within;
    if a.Before? || a.After? {
      ParentIsGroup(f, i);
    }
    InsShape(f, Place(f, a, i), NewEntry(f, a, i, id, group));
  }

  /** Which members of the group are behind the new place. */
  lemma BehindPlace(f: seq<Entry>, a: Action, i: nat)
    requires Shape(f) && Allowed(f, a, i)
    ensures var r, k := GroupOf(f, a, i), Place(f, a, i);
      && (a.Head? ==> forall j: nat :: j < k ==> !IsKid(f, r, j))
      && (a.Tail? ==> forall j: nat :: j >= k ==> !IsKid(f, r, j))
      && (a.Before? ==> IsKid(f, r, k))
      && (a.After? ==> IsKid(f, r, i) && forall j: nat :: i < j < k ==> !IsKid(f, r, j))
  {
    if a.Tail? && End(f, i) < |f| {
      forall j: nat | j >= End(f, i)
        ensures !IsKid(f, i, j)
      {
        if 0 < j < |f| && Par(f, j) == i {
          ParentIsGroup(f, j);
        }
      }
    }
    if a.After? {
      ParentIsGroup(f, i);
      forall j: nat | i < j < End(f, i)
        ensures !IsKid(f, Par(f, i), j)
      {
        ParentIsGroup(f, j);
      }
    }
  }

  /** The members of the group x, first to last. */
  ghost function Members(f: seq<Entry>, x: int): seq<int>
    requires Shape(f) && Within(f, x)
  {
    Kids(f, IndexOf(f, x))
  }

  lemma IndexUnique(f: seq<Entry>, i: nat)
    requires Shape(f) && i < |f|
    ensures Within(f, f[i].id) && IndexOf(f, f[i].id) == i
  {
  }

  lemma InsIndex(f: seq<Entry>, k: nat, e: Entry, i: nat)
    requires Shape(f) && Fits(f, k, e) && Shape(Ins(f, k, e)) && i < |f|
    ensures Within(Ins(f, k, e), f[i].id) && IndexOf(Ins(f, k, e), f[i].id) == Sh(k, i)
  {
    InsView(f, k, e);
    assert Ins(f, k, e)[Sh(k, i)] == f[i];
    hide Ins;
    IndexUnique(Ins(f, k, e), Sh(k, i));
  }

  /** Putting an entry into the list, seen from the group that it is put in. */
  lemma InsMembers(f: seq<Entry>, k: nat, e: Entry, r: nat)
    requires Shape(f) && Fits(f, k, e) && ParentAt(f, k, e, r) && Shape(Ins(f, k, e)) && r < |f| && k <= |f|
    ensures var g := f[r].id;
      && Within(f, g) && Members(f, g) == KidsIn(f, r, 0, k) + KidsIn(f, r, k, |f|)
      && Within(Ins(f, k, e), g)
      && Members(Ins(f, k, e), g) == KidsIn(f, r, 0, k) + [e.id] + KidsIn(f, r, k, |f|)
  {
    hide Shape, Ins, Fits, ParentAt, Within, KidsIn;
    IndexUnique(f, r);
    InsIndex(f, k, e, r);
    InsKids(f, k, e, r, r);
  }

  /** The same, seen from any other group. */
  lemma InsOther(f: seq<Entry>, k: nat, e: Entry, r: nat, x: int)
    requires Shape(f) && Fits(f, k, e) && ParentAt(f, k, e, r) && Shape(Ins(f, k, e)) && r < |f|
    requires Within(f, x) && x != f[r].id
    ensures Within(Ins(f, k, e), x) && Members(Ins(f, k, e), x) == Members(f, x)
  {
    hide Shape, Ins, Fits, ParentAt, Within, KidsIn;
    FitsBehindRoot(f, k, e);
    var j := IndexOf(f, x);
    InsIndex(f, k, e, j);
    InsKids(f, k, e, r, j);
    assert KidsIn(f, j, 0, k) + [] == KidsIn(f, j, 0, k);
  }

  /** Adding a node, seen from the groups: a group that is not concerned keeps its
      members; the new node has none. */
  lemma AddedElsewhere(f: seq<Entry>, a: Action, i: nat, id: int, group: bool, x: int)
    requires Shape(f) && Allowed(f, a, i) && id >= 0 && !Within(f, id) && Shape(Added(f, a, i, id, group))
    requires Within(f, x) && x != f[GroupOf(f, a, i)].id
    ensures Within(Added(f, a, i, id, group), x) && Members(Added(f, a, i, id, group), x) == Members(f, x)
  {
    hide Shape, Ins, Place, NewEntry, GroupOf, Allowed, Fits, ParentAt, Within, Members;
    AddedFits(f, a, i, id, group);
    InsOther(f, Place(f, a, i), NewEntry(f, a, i, id, group), GroupOf(f, a, i), x);
  }

  lemma AddedEmpty(f: seq<Entry>, a: Action, i: nat, id: int, group: bool)
    requires Shape(f) && Allowed(f, a, i) && id >= 0 && !Within(f, id) && Shape(Added(f, a, i, id, group))
    ensures Within(Added(f, a, i, id, group), id) && Members(Added(f, a, i, id, group), id) == []
  {
    AddedFits(f, a, i, id, group);
    var k, e := Place(f, a, i), NewEntry(f, a, i, id, group);
    var f' := Added(f, a, i, id, group);
    InsView(f, k, e);
    hide Shape, Ins, Place, NewEntry, KidsIn, IsKid, Fits;
    IndexUnique(f', k);
    InsNoKids(f, k, e);
    NoKidsIn(f', k, 0, |f'|);
  }

  /** The members before and behind the place of an addition. */
  lemma PlaceSides(f: seq<Entry>, a: Action, i: nat)
    requires Shape(f) && Allowed(f, a, i) && Place(f, a, i) <= |f|
    ensures a.Head? ==> KidsIn(f, GroupOf(f, a, i), 0, Place(f, a, i)) == []
    ensures a.Tail? ==> KidsIn(f, GroupOf(f, a, i), Place(f, a, i), |f|) == []
    ensures a.Before? ==> var s := KidsIn(f, GroupOf(f, a, i), Place(f, a, i), |f|); s != [] && s[0] == f[i].id
    ensures a.After? ==> var s := KidsIn(f, GroupOf(f, a, i), 0, Place(f, a, i)); s != [] && s[|s| - 1] == f[i].id
  {
    BehindPlace(f, a, i);
    var k, r := Place(f, a, i), GroupOf(f, a, i);
    assert i < |f| && (a.Before? ==> k == i) && (a.After? ==> i < k);
    hide Shape, Place, GroupOf, IsKid, Allowed;
    match a
    case Head => NoKidsIn(f, r, 0, k);
    case Tail => NoKidsIn(f, r, k, |f|);
    case Before =>
    case After =>
      KidsSplit(f, r, 0, i, k);
      NoKidsIn(f, r, i + 1, k);
  }

  /** The group of the new node gets it at its head, at its tail, or right before
      or after the target. */
  lemma AddedMember(f: seq<Entry>, a: Action, i: nat, id: int, group: bool)
      returns (before: seq<int>, behind: seq<int>)
    requires Shape(f) && Allowed(f, a, i) && id >= 0 && !Within(f, id) && Shape(Added(f, a, i, id, group))
    ensures var g := f[GroupOf(f, a, i)].id;
      && Within(f, g) && Members(f, g) == before + behind
      && Within(Added(f, a, i, id, group), g) && Members(Added(f, a, i, id, group), g) == before + [id] + behind
    ensures a.Head? ==> before == []
    ensures a.Tail? ==> behind == []
    ensures a.Before? ==> behind != [] && behind[0] == f[i].id
    ensures a.After? ==> before != [] && before[|before| - 1] == f[i].id
  {
    AddedFits(f, a, i, id, group);
    var k, e, r := Place(f, a, i), NewEntry(f, a, i, id, group), GroupOf(f, a, i);
    assert e.id == id && i < |f|;
    hide Shape, Ins, Place, NewEntry, GroupOf, Fits, ParentAt, Within, Members, KidsIn, Allowed;
    InsMembers(f, k, e, r);
    PlaceSides(f, a, i);
    before, behind := KidsIn(f, r, 0, k), KidsIn(f, r, k, |f|);
  }

  /** Taking a leaf out is the inverse of putting it in. */
  lemma FreedFits(f: seq<Entry>, k: nat)
    requires Shape(f) && 0 < k < |f| && !f[k].group
    ensures var f', r := Del(f, k), Par(f, k);
      && Shape(f') && Fits(f', k, f[k]) && r < k <= |f'| && ParentAt(f', k, f[k], r) && f'[r] == f[r]
      && Ins(f', k, f[k]) == f && !Within(f', f[k].id)
  {
    DelShape(f, k);
    DelView(f, k);
    assert forall m {:trigger Del(f, k)[m]} :: Par(f, k) <= m < k ==> Del(f, k)[m] == f[m];
  }

  /** Freeing a leaf takes it out of its group and leaves all other groups alone. */
  lemma FreedMember(f: seq<Entry>, k: nat) returns (before: seq<int>, behind: seq<int>)
    requires Shape(f) && 0 < k < |f| && !f[k].group
    ensures Shape(Del(f, k)) && !Within(Del(f, k), f[k].id)
    ensures var g := f[Par(f, k)].id;
      && Within(f, g) && Members(f, g) == before + [f[k].id] + behind
      && Within(Del(f, k), g) && Members(Del(f, k), g) == before + behind
    ensures forall x {:trigger Within(Del(f, k), x)} :: Within(Del(f, k), x) && x != f[Par(f, k)].id ==>
      Within(f, x) && Members(f, x) == Members(Del(f, k), x)
  {
    hide Shape, Ins, Del, Fits, ParentAt, Within, Members, Par, KidsIn;
    FreedFits(f, k);
    var f', e, r := Del(f, k), f[k], Par(f, k);
    InsMembers(f', k, e, r);
    before, behind := KidsIn(f', r, 0, k), KidsIn(f', r, k, |f'|);
    forall x {:trigger Within(f', x)} | Within(f', x) && x != f[r].id
      ensures Within(f, x) && Members(f, x) == Members(f', x)
    {
      InsOther(f', k, e, r, x);
    }
  }

  lemma SkipUnique(f: seq<Entry>, j: nat, d: nat, r: nat)
    requires j <= r <= |f| && (forall m :: j <= m < r ==> f[m].depth > d) && (r < |f| ==> f[r].depth <= d)
    ensures Skip(f, j, d) == r
  {
    var u := Skip(f, j, d);
  }

  /** A node without members ends at once. */
  lemma NoMembersEnd(f: seq<Entry>, i: nat)
    requires Shape(f) && i < |f| && NoKids(f, i)
    ensures End(f, i) == i + 1
  {
    if i + 1 < |f| {
      assert !IsKid(f, i, i + 1);
      assert f[i].depth >= f[i + 1].depth;
    }
  }

  lemma KidAt(f: seq<Entry>, i: nat, j: nat)
    requires Shape(f) && IsParent(f, j, i)
    ensures IsKid(f, i, j)
  {
    ParUnique(f, j, i);
  }

  /** A group ends where its last member ends. */
  lemma EndOfLast(f: seq<Entry>, i: nat, j: nat)
    requires Shape(f) && i < |f| && IsLastKid(f, i, j)
    ensures i < j < |f| && End(f, i) == End(f, j)
  {
    ParentIsGroup(f, j);
    var r := End(f, j);
    if r < |f| && f[r].depth == f[j].depth {
      KidAt(f, i, r);
      assert false;
    }
    SkipUnique(f, i + 1, f[i].depth, r);
  }
}
