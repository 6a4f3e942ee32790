/** What the fields of the nodes say about the shape of the graph, and how adding
    or freeing a node changes them. Fields are maps from node identifiers. */
module GraphLinks {
  import opened GraphShape

  function IdAt(f: seq<Entry>, i: nat): int {
    if i < |f| then f[i].id else NIL
  }

  /** next lists the nodes in pre-order. */
  ghost predicate Forward(next: map<int, int>, f: seq<Entry>) {
    forall i: nat {:trigger f[i]} :: i < |f| ==> f[i].id in next && next[f[i].id] == IdAt(f, i + 1)
  }

  /** prev lists them backwards. */
  ghost predicate Backward(prev: map<int, int>, f: seq<Entry>) {
    forall i: nat {:trigger f[i]} :: i < |f| ==> f[i].id in prev && prev[f[i].id] == BeforeId(f, i)
  }

  function BeforeId(f: seq<Entry>, i: nat): int
    requires i <= |f|
  {
    if i == 0 then DUMMY else f[i - 1].id
  }

  ghost predicate Parented(parent: map<int, int>, f: seq<Entry>)
    requires Shape(f)
  {
    forall i: nat {:trigger Par(f, i)} :: 0 < i < |f| ==> f[i].id in parent && parent[f[i].id] == f[Par(f, i)].id
  }

  /** The last field of node i: nothing for a leaf, a mark for an empty group, or
      the last direct member. */
  ghost predicate LastOk(f: seq<Entry>, i: nat, l: int)
    requires Shape(f) && i < |f|
  {
    && (l == NIL <==> !f[i].group)
    && (l < 0 ==> (l == NIL || l == DUMMY) && NoKids(f, i))
    && (l >= 0 ==> exists j: nat :: IsLastKid(f, i, j) && f[j].id == l)
  }

  ghost predicate Lasted(last: map<int, int>, f: seq<Entry>)
    requires Shape(f)
  {
    forall i: nat {:trigger f[i]} :: i < |f| ==> f[i].id in last && LastOk(f, i, last[f[i].id])
  }

  /** The first leaf at or behind place i: the cons where the functions to run
      from there on begin. */
  function Chain(f: seq<Entry>, i: nat): (x: int)
    requires i <= |f|
    decreases |f| - i
  {
    if i == |f| then NIL else if !f[i].group then f[i].id else Chain(f, i + 1)
  }

  /** The cdr of a leaf's cons and the funcons of a group, from node `from` on. */
  ghost predicate ChainedFrom(fun: map<int, int>, f: seq<Entry>, from: nat) {
    forall i: nat {:trigger f[i]} :: from <= i < |f| ==> f[i].id in fun && fun[f[i].id] == Chain(f, i + 1)
  }

  /** m' differs from m at the given keys only. */
  ghost predicate Same(m: map<int, int>, m': map<int, int>, except: set<int>) {
    forall x :: x in m && x !in except ==> x in m' && m'[x] == m[x]
  }

  lemma SameId(f: seq<Entry>, i: nat, j: nat)
    requires Shape(f) && i < |f| && j < |f| && f[i].id == f[j].id
    ensures i == j
  {
  }

  lemma NotWithin(f: seq<Entry>, x: int)
    requires !Within(f, x)
    ensures forall i: nat :: i < |f| ==> f[i].id != x
  {
  }

  /* next and prev */

  lemma StepForward(next: map<int, int>, next': map<int, int>, f: seq<Entry>, i: nat, s: set<int>)
    requires Forward(next, f) && Same(next, next', s) && i < |f| && f[i].id !in s
    ensures f[i].id in next' && next'[f[i].id] == IdAt(f, i + 1)
  {
  }

  lemma StepBackward(prev: map<int, int>, prev': map<int, int>, f: seq<Entry>, i: nat, s: set<int>)
    requires Backward(prev, f) && Same(prev, prev', s) && i < |f| && f[i].id !in s
    ensures f[i].id in prev' && prev'[f[i].id] == BeforeId(f, i)
  {
  }

  lemma ForwardFrom(next: map<int, int>, f: seq<Entry>)
    requires forall i: nat {:trigger f[i]} :: i < |f| ==> f[i].id in next && next[f[i].id] == IdAt(f, i + 1)
    ensures Forward(next, f)
  {
  }

  lemma BackwardFrom(prev: map<int, int>, f: seq<Entry>)
    requires forall i: nat {:trigger f[i]} :: i < |f| ==> f[i].id in prev && prev[f[i].id] == BeforeId(f, i)
    ensures Backward(prev, f)
  {
  }

  lemma InsForward(next: map<int, int>, next': map<int, int>, f: seq<Entry>, k: nat, e: Entry)
    requires Shape(f) && Forward(next, f) && Fits(f, k, e)
    requires Same(next, next', {e.id, f[k - 1].id})
    requires e.id in next' && next'[e.id] == IdAt(f, k)
    requires f[k - 1].id in next' && next'[f[k - 1].id] == e.id
    ensures Forward(next', Ins(f, k, e))
  {
    hide Ins, Within, Shape, Forward, Same, IdAt;
    NotWithin(f, e.id);
    var f' := Ins(f, k, e);
    InsView(f, k, e);
    forall i: nat {:trigger f'[i]} | i < |f'|
      ensures f'[i].id in next' && next'[f'[i].id] == IdAt(f', i + 1)
    {
      InsIdAt(f, k, e, i);
      if i < k - 1 {
        SameIdNot(f, i, k - 1);
        StepForward(next, next', f, i, {e.id, f[k - 1].id});
      } else if i > k {
        SameIdNot(f, i - 1, k - 1);
        StepForward(next, next', f, i - 1, {e.id, f[k - 1].id});
      }
    }
    ForwardFrom(next', f');
  }

  lemma InsIdAt(f: seq<Entry>, k: nat, e: Entry, i: nat)
    requires k <= |f| && i <= |f|
    ensures |Ins(f, k, e)| == |f| + 1
    ensures Ins(f, k, e)[i] == if i < k then f[i] else if i == k then e else f[i - 1]
    ensures IdAt(Ins(f, k, e), i + 1) == if i + 1 < k then IdAt(f, i + 1) else if i + 1 == k then e.id else IdAt(f, i)
  {
  }

  lemma SameIdNot(f: seq<Entry>, i: nat, j: nat)
    requires Shape(f) && i < |f| && j < |f| && i != j
    ensures f[i].id != f[j].id && f[i].id >= 0
  {
  }

  lemma InsBackward(prev: map<int, int>, prev': map<int, int>, f: seq<Entry>, k: nat, e: Entry)
    requires Shape(f) && Backward(prev, f) && Fits(f, k, e)
    requires Same(prev, prev', {e.id, IdAt(f, k)})
    requires e.id in prev' && prev'[e.id] == f[k - 1].id
    requires k < |f| ==> f[k].id in prev' && prev'[f[k].id] == e.id
    ensures Backward(prev', Ins(f, k, e))
  {
    hide Ins, Within, Shape, Backward, Same;
    NotWithin(f, e.id);
    InsView(f, k, e);
    var f' := Ins(f, k, e);
    forall i: nat {:trigger f'[i]} | i < |f'|
      ensures f'[i].id in prev' && prev'[f'[i].id] == BeforeId(f', i)
    {
      if i < k {
        NotIdAt(f, i, k);
        StepBackward(prev, prev', f, i, {e.id, IdAt(f, k)});
      } else if i > k + 1 {
        NotIdAt(f, i - 1, k);
        StepBackward(prev, prev', f, i - 1, {e.id, IdAt(f, k)});
      }
    }
    BackwardFrom(prev', f');
  }

  lemma NotIdAt(f: seq<Entry>, i: nat, j: nat)
    requires Shape(f) && i < |f| && i != j
    ensures f[i].id != IdAt(f, j)
  {
    assert f[i].id >= 0;
  }

  lemma DelForward(next: map<int, int>, next': map<int, int>, f: seq<Entry>, k: nat)
    requires Shape(f) && Forward(next, f) && 0 < k < |f|
    requires Same(next, next', {f[k - 1].id})
    requires f[k - 1].id in next' && next'[f[k - 1].id] == IdAt(f, k + 1)
    ensures Forward(next', Del(f, k))
  {
    hide Del, Shape, Forward, Same;
    DelView(f, k);
    var f' := Del(f, k);
    forall i: nat {:trigger f'[i]} | i < |f'|
      ensures f'[i].id in next' && next'[f'[i].id] == IdAt(f', i + 1)
    {
      if i != k - 1 {
        SameIdNot(f, Sh(k, i), k - 1);
        StepForward(next, next', f, Sh(k, i), {f[k - 1].id});
      }
    }
    ForwardFrom(next', f');
  }

  lemma DelBackward(prev: map<int, int>, prev': map<int, int>, f: seq<Entry>, k: nat)
    requires Shape(f) && Backward(prev, f) && 0 < k < |f|
    requires Same(prev, prev', {IdAt(f, k + 1)})
    requires k + 1 < |f| ==> f[k + 1].id in prev' && prev'[f[k + 1].id] == f[k - 1].id
    ensures Backward(prev', Del(f, k))
  {
    hide Del, Shape, Backward, Same;
    DelView(f, k);
    var f' := Del(f, k);
    forall i: nat {:trigger f'[i]} | i < |f'|
      ensures f'[i].id in prev' && prev'[f'[i].id] == BeforeId(f', i)
    {
      if i != k {
        NotIdAt(f, Sh(k, i), k + 1);
        StepBackward(prev, prev', f, Sh(k, i), {IdAt(f, k + 1)});
      }
    }
    BackwardFrom(prev', f');
  }

  /* parent */

  lemma InsParented(parent: map<int, int>, parent': map<int, int>, f: seq<Entry>, k: nat, e: Entry, r: nat)
    requires Shape(f) && Parented(parent, f) && Fits(f, k, e) && ParentAt(f, k, e, r) && Shape(Ins(f, k, e))
    requires Same(parent, parent', {e.id})
    requires e.id in parent' && parent'[e.id] == f[r].id
    ensures Parented(parent', Ins(f, k, e))
  {
    hide Ins, Shape, Within;
    InsView(f, k, e);
    var f' := Ins(f, k, e);
    NotWithin(f, e.id);
    forall i: nat | 0 < i < |f'|
      ensures f'[i].id in parent' && parent'[f'[i].id] == f'[Par(f', i)].id
    {
      if i == k {
        InsParNew(f, k, e, r);
      } else {
        var j := if i < k then i else i - 1;
        assert f'[i] == f[j] && i == Sh(k, j) && 0 < j;
        InsPar(f, k, e, j);
        assert f'[Sh(k, Par(f, j))] == f[Par(f, j)];
      }
    }
  }

  /** Freeing a leaf is the inverse of adding it. */
  lemma DelParented(parent: map<int, int>, f: seq<Entry>, k: nat)
    requires Shape(f) && Parented(parent, f) && 0 < k < |f|
    requires Shape(Del(f, k)) && Fits(Del(f, k), k, f[k])
    ensures Parented(parent, Del(f, k))
  {
    hide Ins, Del, Shape, Fits;
    DelView(f, k);
    var f' := Del(f, k);
    InsView(f', k, f[k]);
    forall j: nat | 0 < j < |f'|
      ensures f'[j].id in parent && parent[f'[j].id] == f'[Par(f', j)].id
    {
      InsPar(f', k, f[k], j);
      assert f[Sh(k, j)] == f'[j];
      assert f[Sh(k, Par(f', j))] == f'[Par(f', j)];
    }
  }

  /* last */

  lemma LastIndex(f: seq<Entry>, i: nat, l: int) returns (j: nat)
    requires Shape(f) && i < |f| && LastOk(f, i, l) && l >= 0
    ensures i < j < |f| && f[j].id == l && IsLastKid(f, i, j)
  {
    j :| IsLastKid(f, i, j) && f[j].id == l;
  }

  lemma NoKidsOf(f: seq<Entry>, i: nat, l: int)
    requires Shape(f) && i < |f| && LastOk(f, i, l) && l < 0
    ensures NoKids(f, i)
  {
  }

  /** Which last field a group gets when its member e is put in at k: e itself if
      no member is behind it. */
  lemma InsLastOk(f: seq<Entry>, k: nat, e: Entry, r: nat, i: nat, l: int, l': int)
    requires Shape(f) && Fits(f, k, e) && ParentAt(f, k, e, r) && Shape(Ins(f, k, e)) && Sh(k, i) < |Ins(f, k, e)|
    requires i < |f| && LastOk(f, i, l)
    requires i != r ==> l' == l
    requires i == r && (forall j: nat :: j >= k ==> !IsKid(f, r, j)) ==> l' == e.id
    requires i == r && (exists j: nat :: j >= k && IsKid(f, r, j)) ==> l' == l
    requires i == r ==> f[r].group
    ensures LastOk(Ins(f, k, e), Sh(k, i), l')
  {
    hide Ins, Shape, Within, IsKid, Par, Fits;
    InsView(f, k, e);
    FitsBehindRoot(f, k, e);
    var f' := Ins(f, k, e);
    var i' := Sh(k, i);
    InsKidNew(f, k, e, r, i);
    if i == r && forall j: nat :: j >= k ==> !IsKid(f, r, j) {
      forall m: nat | m > k
        ensures !IsKid(f', i', m)
      {
        InsKid(f, k, e, i, m - 1);
      }
      assert IsLastKid(f', i', k) && f'[k].id == l';
    } else {
      forall m: nat | m != k
        ensures IsKid(f', i', m) <==> IsKid(f, i, if m < k then m else m - 1)
      {
        InsKid(f, k, e, i, if m < k then m else m - 1);
      }
      if l >= 0 {
        var j := LastIndex(f, i, l);
        InsKid(f, k, e, i, j);
        assert i == r ==> j >= k;
        assert IsLastKid(f', i', Sh(k, j)) && f'[Sh(k, j)].id == l';
      }
    }
  }

  /** The last fields after an entry was put in. */
  lemma InsLasted(last: map<int, int>, last': map<int, int>, f: seq<Entry>, k: nat, e: Entry, r: nat)
    requires Shape(f) && Lasted(last, f) && Fits(f, k, e) && ParentAt(f, k, e, r) && Shape(Ins(f, k, e)) && f[r].group
    requires Same(last, last', {e.id, f[r].id})
    requires e.id in last' && last'[e.id] == if e.group then DUMMY else NIL
    requires f[r].id in last && f[r].id in last'
    requires (forall j: nat :: j >= k ==> !IsKid(f, r, j)) ==> last'[f[r].id] == e.id
    requires (exists j: nat :: j >= k && IsKid(f, r, j)) ==> last'[f[r].id] == last[f[r].id]
    ensures Lasted(last', Ins(f, k, e))
  {
    hide Ins, Shape, Within, LastOk, Fits, IsKid, Par;
    FitsBehindRoot(f, k, e);
    InsView(f, k, e);
    var f' := Ins(f, k, e);
    forall i: nat {:trigger f'[i]} | i < |f'|
      ensures f'[i].id in last' && LastOk(f', i, last'[f'[i].id])
    {
      if i == k {
        InsNoKids(f, k, e);
        NewLastOk(f', k);
      } else {
        var j := if i < k then i else i - 1;
        NotNew(f, k, e, j);
        if j != r {
          SameIdNot(f, j, r);
        }
        InsLastOk(f, k, e, r, j, last[f[j].id], last'[f[j].id]);
      }
    }
  }

  lemma NotNew(f: seq<Entry>, k: nat, e: Entry, j: nat)
    requires Fits(f, k, e) && j < |f|
    ensures f[j].id != e.id
  {
    NotWithin(f, e.id);
  }

  lemma NewLastOk(f: seq<Entry>, k: nat)
    requires Shape(f) && k < |f| && NoKids(f, k)
    ensures LastOk(f, k, if f[k].group then DUMMY else NIL)
  {
  }

  /** The last fields after a node without members was taken out; its group gets
      a new one if it was the last member. */
  lemma DelLastOk(f: seq<Entry>, k: nat, i: nat, l: int, l': int)
    requires Shape(f) && k < |f| && Shape(Del(f, k)) && Fits(Del(f, k), k, f[k])
    requires i < |Del(f, k)| && Sh(k, i) < |f| && LastOk(f, Sh(k, i), l)
    requires l != f[k].id ==> l' == l
    requires l == f[k].id ==> NewLast(f, k, Sh(k, i), l')
    ensures LastOk(Del(f, k), i, l')
  {
    hide Ins, Del, Shape, Within, IsKid, Par, Fits;
    DelView(f, k);
    var f', e := Del(f, k), f[k];
    FitsBehindRoot(f', k, e);
    InsView(f', k, e);
    var i' := Sh(k, i);
    forall m: nat
      ensures IsKid(f', i, m) <==> IsKid(f, i', Sh(k, m))
    {
      InsKid(f', k, e, i, m);
    }
    if l == f[k].id {
      var j := LastIndex(f, i', l);
      SameId(f, j, k);
    }
    if l != f[k].id && l >= 0 {
      var j := LastIndex(f, i', l);
      assert j != k;
      assert IsLastKid(f', i, if j < k then j else j - 1);
    } else if l >= 0 && l' >= 0 {
      var j: nat :| j < k && f[j].id == l' && IsKid(f, i', j) && forall m: nat :: j < m < k ==> !IsKid(f, i', m);
      assert IsLastKid(f', i, j);
    }
  }

  /** l is the last field of group i when its last member k is taken out. */
  ghost predicate NewLast(f: seq<Entry>, k: nat, i: nat, l: int)
    requires Shape(f) && k < |f|
  {
    && (l < 0 ==> l == DUMMY && forall m: nat :: m < k ==> !IsKid(f, i, m))
    && (l >= 0 ==> exists j: nat :: j < k && f[j].id == l && IsKid(f, i, j) && forall m: nat :: j < m < k ==> !IsKid(f, i, m))
  }

  /** Only the group of node k may get another last member. */
  ghost predicate ParentLast(last: map<int, int>, last': map<int, int>, f: seq<Entry>, k: nat)
    requires Shape(f) && 0 < k < |f|
  {
    var p := f[Par(f, k)].id;
    && p in last && p in last' && Same(last, last', {p})
    && (last[p] == f[k].id ==> NewLast(f, k, Par(f, k), last'[p]))
    && (last[p] != f[k].id ==> last'[p] == last[p])
  }

  lemma DelLasted(last: map<int, int>, last': map<int, int>, f: seq<Entry>, k: nat)
    requires Shape(f) && Lasted(last, f) && 0 < k < |f| && Shape(Del(f, k)) && Fits(Del(f, k), k, f[k])
    requires ParentLast(last, last', f, k)
    ensures Lasted(last', Del(f, k))
  {
    hide Shape, Within, LastOk, Fits, IsKid, Del, NewLast;
    DelView(f, k);
    var f' := Del(f, k);
    forall i: nat {:trigger f'[i]} | i < |f'|
      ensures f'[i].id in last' && LastOk(f', i, last'[f'[i].id])
    {
      var j := Sh(k, i);
      if j != Par(f, k) {
        SameIdNot(f, j, Par(f, k));
        LastOnlyOwn(f, j, k, last[f[j].id]);
      }
      DelLastOk(f, k, i, last[f[j].id], last'[f[j].id]);
    }
  }

  lemma LastOnlyOwn(f: seq<Entry>, i: nat, k: nat, l: int)
    requires Shape(f) && 0 < k < |f| && i < |f| && LastOk(f, i, l) && i != Par(f, k)
    ensures l != f[k].id
  {
    if l == f[k].id {
      var j := LastIndex(f, i, l);
      SameId(f, j, k);
      assert false;
    }
  }

  /* The chain of functions */

  lemma {:induction false} InsChainBehind(f: seq<Entry>, k: nat, e: Entry, i: nat)
    requires k <= i <= |f| && i + 1 <= |Ins(f, k, e)|
    ensures Chain(Ins(f, k, e), i + 1) == Chain(f, i)
    decreases |f| - i
  {
    hide Ins;
    InsView(f, k, e);
    if i < |f| && f[i].group {
      InsChainBehind(f, k, e, i + 1);
    }
  }

  /** An empty group is not in the chain. */
  lemma {:induction false} InsChainGroup(f: seq<Entry>, k: nat, e: Entry, i: nat)
    requires i <= k <= |f| && e.group && i <= |Ins(f, k, e)|
    ensures Chain(Ins(f, k, e), i) == Chain(f, i)
    decreases k - i
  {
    hide Ins;
    InsView(f, k, e);
    if i == k {
      InsChainBehind(f, k, e, k);
    } else if f[i].group {
      InsChainGroup(f, k, e, i + 1);
    }
  }

  /** A leaf ends what the nodes before it can see. */
  lemma {:induction false} ChainStops(f: seq<Entry>, g: seq<Entry>, i: nat, m: nat)
    requires i <= m < |f| && m < |g| && !f[m].group
    requires forall j {:trigger f[j]} {:trigger g[j]} :: 0 <= j <= m ==> f[j] == g[j]
    ensures Chain(f, i) == Chain(g, i)
    decreases m - i
  {
    if i < m && f[i].group {
      ChainStops(f, g, i + 1, m);
    }
  }

  lemma ChainedAt(fun: map<int, int>, f: seq<Entry>, from: nat, i: nat)
    requires ChainedFrom(fun, f, from) && from <= i < |f|
    ensures f[i].id in fun && fun[f[i].id] == Chain(f, i + 1)
  {
  }

  /** Behind a new entry the chain is right already. */
  lemma InsChained(fun: map<int, int>, f: seq<Entry>, k: nat, e: Entry)
    requires ChainedFrom(fun, f, 0) && k <= |f|
    ensures ChainedFrom(fun, Ins(f, k, e), k + 1)
  {
    hide Ins, Chain, ChainedFrom;
    InsView(f, k, e);
    var f' := Ins(f, k, e);
    forall i: nat {:trigger f'[i]} | k + 1 <= i < |f'|
      ensures f'[i].id in fun && fun[f'[i].id] == Chain(f', i + 1)
    {
      InsChainBehind(f, k, e, i);
      ChainedAt(fun, f, 0, i - 1);
    }
    ChainedBy(fun, f', k + 1);
  }

  lemma ChainEnd(fun: map<int, int>, f: seq<Entry>, k: nat)
    requires k + 1 == |f| && f[k].id in fun && fun[f[k].id] == NIL
    ensures ChainedFrom(fun, f, k)
  {
    assert forall i: nat {:trigger f[i]} :: k <= i < |f| ==> i == k;
  }

  lemma ChainedBy(fun: map<int, int>, f: seq<Entry>, from: nat)
    requires forall i: nat {:trigger f[i]} :: from <= i < |f| ==> f[i].id in fun && fun[f[i].id] == Chain(f, i + 1)
    ensures ChainedFrom(fun, f, from)
  {
  }

  lemma InsGroupChained(fun: map<int, int>, fun': map<int, int>, f: seq<Entry>, k: nat, e: Entry)
    requires ChainedFrom(fun, f, 0) && Fits(f, k, e) && e.group && Same(fun, fun', {e.id})
    requires e.id in fun' && fun'[e.id] == Chain(f, k)
    ensures ChainedFrom(fun', Ins(f, k, e), 0)
  {
    hide Ins, Chain, ChainedFrom, Within;
    InsView(f, k, e);
    var f' := Ins(f, k, e);
    forall i: nat {:trigger f'[i]} | i < |f'|
      ensures f'[i].id in fun' && fun'[f'[i].id] == Chain(f', i + 1)
    {
      if i < k {
        NotNew(f, k, e, i);
        ChainedAt(fun, f, 0, i);
        InsChainGroup(f, k, e, i + 1);
      } else {
        InsChainBehind(f, k, e, i);
        if i > k {
          NotNew(f, k, e, i - 1);
          ChainedAt(fun, f, 0, i - 1);
        }
      }
    }
    ChainedBy(fun', f', 0);
  }

  lemma DelChain(f: seq<Entry>, k: nat, i: nat)
    requires k < |f| && k <= i < |f| && i <= |Del(f, k)|
    ensures Chain(Del(f, k), i) == Chain(f, i + 1)
  {
    hide Ins, Del, Chain;
    DelView(f, k);
    InsChainBehind(Del(f, k), k, f[k], i);
  }

  /** Taking out node k: the nodes behind it are right already, and the node
      before it once its funcons is set. */
  lemma DelChained(fun: map<int, int>, fun': map<int, int>, f: seq<Entry>, k: nat)
    requires Shape(f) && ChainedFrom(fun, f, 0) && 0 < k < |f| && Same(fun, fun', {f[k - 1].id})
    requires f[k - 1].id in fun' && fun'[f[k - 1].id] == Chain(f, k + 1)
    ensures ChainedFrom(fun', Del(f, k), if f[k - 1].group then k - 1 else 0)
  {
    hide Del, Chain, ChainedFrom, Shape;
    DelView(f, k);
    var f' := Del(f, k);
    var from := if f[k - 1].group then k - 1 else 0;
    forall i: nat {:trigger f'[i]} | from <= i < |f'|
      ensures f'[i].id in fun' && fun'[f'[i].id] == Chain(f', i + 1)
    {
      if i != k - 1 {
        SameIdNot(f, Sh(k, i), k - 1);
        ChainedAt(fun, f, 0, Sh(k, i));
      }
      if i >= k - 1 {
        DelChain(f, k, i + 1);
      } else {
        ChainStops(f, f', i + 1, k - 1);
      }
    }
    ChainedBy(fun', f', from);
  }

  /** The leaves from place i on: the functions that a tick runs. */
  function Leaves(f: seq<Entry>, i: nat): seq<int>
    requires i <= |f|
    decreases |f| - i
  {
    if i == |f| then [] else if f[i].group then Leaves(f, i + 1) else [f[i].id] + Leaves(f, i + 1)
  }

  lemma LeavesSkip(f: seq<Entry>, i: nat)
    requires i < |f| && f[i].group
    ensures Leaves(f, i) == Leaves(f, i + 1) && Chain(f, i) == Chain(f, i + 1)
  {
  }

  lemma {:induction false} ChainLeaf(f: seq<Entry>, i: nat) returns (q: nat)
    requires i <= |f|
    ensures i <= q <= |f| && (q == |f| <==> Leaves(f, i) == [])
    ensures q == |f| ==> Chain(f, i) == NIL
    ensures q < |f| ==> !f[q].group && Chain(f, i) == f[q].id && Leaves(f, i) == [f[q].id] + Leaves(f, q + 1)
    decreases |f| - i
  {
    q := i;
    if i < |f| && f[i].group {
      q := ChainLeaf(f, i + 1);
      LeavesSkip(f, i);
    }
  }

  /* All fields together */

  ghost predicate Woven(next: map<int, int>, prev: map<int, int>, parent: map<int, int>, last: map<int, int>, f: seq<Entry>) {
    Shape(f) && Forward(next, f) && Backward(prev, f) && Parented(parent, f) && Lasted(last, f)
  }

  /** What the fields of node i say. */
  lemma WovenAt(next: map<int, int>, prev: map<int, int>, parent: map<int, int>, last: map<int, int>,
                f: seq<Entry>, i: nat)
    requires Woven(next, prev, parent, last, f) && i < |f|
    ensures Shape(f) && f[i].id >= 0
    ensures f[i].id in next && next[f[i].id] == IdAt(f, i + 1)
    ensures f[i].id in prev && prev[f[i].id] == BeforeId(f, i)
    ensures i > 0 ==> f[i].id in parent && parent[f[i].id] == f[Par(f, i)].id
    ensures f[i].id in last && LastOk(f, i, last[f[i].id]) && (last[f[i].id] == NIL <==> !f[i].group)
    ensures i > 0 ==> f[i - 1].id >= 0
    ensures i + 1 < |f| ==> f[i + 1].id >= 0
  {
    hide Shape, LastOk, Par;
    if i > 0 {
      assert Par(f, i) < i;
    }
    IdsNatural(f);
    GroupKnown(f, i, last[f[i].id]);
  }

  lemma IdsNatural(f: seq<Entry>)
    requires Shape(f)
    ensures forall i :: 0 <= i < |f| ==> f[i].id >= 0
  {
  }

  lemma GroupKnown(f: seq<Entry>, i: nat, l: int)
    requires Shape(f) && i < |f| && LastOk(f, i, l)
    ensures l == NIL <==> !f[i].group
  {
  }

  /** One step back repairs one more node. */
  lemma ChainBack(fun: map<int, int>, f: seq<Entry>, i: nat)
    requires Shape(f) && 0 < i <= |f| && ChainedFrom(fun, f, i)
    ensures ChainedFrom(fun[f[i - 1].id := Chain(f, i)], f, i - 1)
  {
    hide Chain, ChainedFrom, Shape;
    var fun' := fun[f[i - 1].id := Chain(f, i)];
    forall j: nat {:trigger f[j]} | i - 1 <= j < |f|
      ensures f[j].id in fun' && fun'[f[j].id] == Chain(f, j + 1)
    {
      if j >= i {
        SameIdNot(f, j, i - 1);
        ChainedAt(fun, f, i, j);
      }
    }
    ChainedBy(fun', f, i - 1);
  }

  /** The links after an entry was put in, field by field. */
  ghost predicate InNext(next: map<int, int>, next': map<int, int>, f: seq<Entry>, k: nat, x: int)
    requires 0 < k <= |f|
  {
    && Same(next, next', {x, f[k - 1].id})
    && x in next' && next'[x] == IdAt(f, k) && f[k - 1].id in next' && next'[f[k - 1].id] == x
  }

  ghost predicate InPrev(prev: map<int, int>, prev': map<int, int>, f: seq<Entry>, k: nat, x: int)
    requires 0 < k <= |f|
  {
    && Same(prev, prev', {x, IdAt(f, k)})
    && x in prev' && prev'[x] == f[k - 1].id && (k < |f| ==> f[k].id in prev' && prev'[f[k].id] == x)
  }

  ghost predicate InParent(parent: map<int, int>, parent': map<int, int>, x: int, p: int) {
    Same(parent, parent', {x}) && x in parent' && parent'[x] == p
  }

  ghost predicate InLast(last: map<int, int>, last': map<int, int>, f: seq<Entry>, k: nat, e: Entry, r: nat)
    requires Shape(f) && r < |f|
  {
    && Same(last, last', {e.id, f[r].id})
    && e.id in last' && last'[e.id] == (if e.group then DUMMY else NIL)
    && f[r].id in last && f[r].id in last'
    && ((forall j: nat :: j >= k ==> !IsKid(f, r, j)) ==> last'[f[r].id] == e.id)
    && ((exists j: nat :: j >= k && IsKid(f, r, j)) ==> last'[f[r].id] == last[f[r].id])
  }

  lemma InsWoven(next: map<int, int>, prev: map<int, int>, parent: map<int, int>, last: map<int, int>,
                 next': map<int, int>, prev': map<int, int>, parent': map<int, int>, last': map<int, int>,
                 f: seq<Entry>, k: nat, e: Entry, r: nat)
    requires Woven(next, prev, parent, last, f)
    requires Fits(f, k, e) && ParentAt(f, k, e, r) && f[r].group && Shape(Ins(f, k, e))
    requires InNext(next, next', f, k, e.id) && InPrev(prev, prev', f, k, e.id)
    requires InParent(parent, parent', e.id, f[r].id) && InLast(last, last', f, k, e, r)
    ensures Woven(next', prev', parent', last', Ins(f, k, e))
  {
    hide Shape, Ins, Forward, Backward, Parented, Lasted, Fits, Same;
    InsForward(next, next', f, k, e);
    InsBackward(prev, prev', f, k, e);
    InsParented(parent, parent', f, k, e, r);
    InsLasted(last, last', f, k, e, r);
  }

  /** Whether the new node becomes the last one of its group. */
  lemma LastChoice(f: seq<Entry>, a: Action, i: nat, l: int)
    requires Shape(f) && Allowed(f, a, i) && LastOk(f, GroupOf(f, a, i), l)
    ensures (forall j: nat :: j >= Place(f, a, i) ==> !IsKid(f, GroupOf(f, a, i), j)) <==> BecomesLast(f, a, i, l)
  {
    BehindPlace(f, a, i);
    var r, k := GroupOf(f, a, i), Place(f, a, i);
    assert a.After? ==> i < k;
    hide Shape, IsKid, Place, GroupOf, Allowed;
    if l >= 0 {
      var j := LastIndex(f, r, l);
      if a.After? && l == f[i].id {
        assert i < |f| by {
          KidBelow(f, r, i);
        }
        SameId(f, i, j);
      }
    }
  }

  lemma KidBelow(f: seq<Entry>, i: nat, j: nat)
    requires Shape(f) && IsKid(f, i, j)
    ensures i < j < |f|
  {
  }

  predicate BecomesLast(f: seq<Entry>, a: Action, i: nat, l: int)
    requires i < |f|
  {
    match a
    case Head => l < 0
    case Tail => true
    case Before => false
    case After => l == f[i].id
  }

  /** The fields after a node was added at one of the four places. */
  lemma AddWoven(next: map<int, int>, prev: map<int, int>, parent: map<int, int>, last: map<int, int>,
                 next': map<int, int>, prev': map<int, int>, parent': map<int, int>, last': map<int, int>,
                 f: seq<Entry>, a: Action, i: nat, id: int, group: bool)
    requires Woven(next, prev, parent, last, f) && Allowed(f, a, i) && id >= 0 && !Within(f, id)
    requires 0 < Place(f, a, i) <= |f|
    requires InNext(next, next', f, Place(f, a, i), id) && InPrev(prev, prev', f, Place(f, a, i), id)
    requires InParent(parent, parent', id, f[GroupOf(f, a, i)].id)
    requires LastOfGroup(last, last', f, a, i, id, group)
    ensures Woven(next', prev', parent', last', Added(f, a, i, id, group))
  {
    hide Shape, Ins, Fits, ParentAt, Same, InNext, InPrev, InParent, Woven, LastOk, IsKid, Place, GroupOf, Allowed, BecomesLast;
    WovenShape(next, prev, parent, last, f);
    AddedFits(f, a, i, id, group);
    var k, e, r := Place(f, a, i), NewEntry(f, a, i, id, group), GroupOf(f, a, i);
    WovenAt(next, prev, parent, last, f, r);
    LastChoice(f, a, i, last[f[r].id]);
    InsWoven(next, prev, parent, last, next', prev', parent', last', f, k, e, r);
  }

  lemma WovenShape(next: map<int, int>, prev: map<int, int>, parent: map<int, int>, last: map<int, int>,
                   f: seq<Entry>)
    requires Woven(next, prev, parent, last, f)
    ensures Shape(f)
  {
  }

  ghost predicate LastOfGroup(last: map<int, int>, last': map<int, int>, f: seq<Entry>, a: Action, i: nat, id: int, group: bool)
    requires Shape(f) && Allowed(f, a, i)
  {
    var g := f[GroupOf(f, a, i)].id;
    && Same(last, last', {id, g})
    && id in last' && last'[id] == (if group then DUMMY else NIL)
    && g in last && g in last' && last'[g] == if BecomesLast(f, a, i, last[g]) then id else last[g]
  }

  lemma InsWithin(f: seq<Entry>, a: Action, i: nat, id: int, group: bool)
    requires Allowed(f, a, i)
    requires Place(f, a, i) <= |f|
    ensures forall x :: Within(Added(f, a, i, id, group), x) <==> Within(f, x) || x == id
  {
    var k, e := Place(f, a, i), NewEntry(f, a, i, id, group);
    assert e.id == id;
    InsView(f, k, e);
    hide Ins, Place, NewEntry;
    var f' := Ins(f, k, e);
    forall x
      ensures Within(f', x) <==> Within(f, x) || x == id
    {
      if Within(f, x) {
        var j :| 0 <= j < |f| && f[j].id == x;
        assert f'[Sh(k, j)].id == x;
      }
      if x == id {
        assert f'[k].id == x;
      }
      if Within(f', x) {
        var j :| 0 <= j < |f'| && f'[j].id == x;
        assert j != k ==> f[if j < k then j else j - 1].id == x;
      }
    }
  }

  lemma SetNext(next: map<int, int>, f: seq<Entry>, k: nat, x: int)
    requires 0 < k <= |f| && !Within(f, x)
    ensures InNext(next, next[x := IdAt(f, k)][f[k - 1].id := x], f, k, x)
  {
    NotWithin(f, x);
    hide Within;
  }

  lemma SetPrev(prev: map<int, int>, f: seq<Entry>, k: nat, x: int)
    requires 0 < k <= |f| && !Within(f, x)
    ensures InPrev(prev, if k < |f| then prev[x := f[k - 1].id][f[k].id := x] else prev[x := f[k - 1].id], f, k, x)
  {
    NotWithin(f, x);
    hide Within;
  }

  lemma RootFirst(f: seq<Entry>)
    requires Shape(f)
    ensures f[0].id == ROOT && forall i :: 0 < i < |f| ==> f[i].id != ROOT
  {
  }

  lemma EntryKnown(f: seq<Entry>, a: Action, i: nat, id: int, group: bool)
    requires Allowed(f, a, i)
    ensures NewEntry(f, a, i, id, group).id == id && NewEntry(f, a, i, id, group).group == group
  {
  }

  /** In a group without members the tail is the head. */
  lemma EmptyTail(f: seq<Entry>, i: nat, l: int, id: int)
    requires Shape(f) && i < |f| && f[i].group && LastOk(f, i, l) && l < 0
    ensures l == DUMMY && Added(f, Tail, i, id, false) == Added(f, Head, i, id, false)
  {
    NoMembersEnd(f, i);
  }

  lemma NoChain(f: seq<Entry>, i: nat)
    requires i <= |f| && IdAt(f, i) < 0 && (i < |f| ==> f[i].id >= 0)
    ensures i == |f| && Chain(f, i) == NIL
  {
  }

  /** Fields of a node that is not in the graph do not matter. */
  lemma OffGraph(next: map<int, int>, prev: map<int, int>, parent: map<int, int>, last: map<int, int>,
                 f: seq<Entry>, x: int, l: int)
    requires Woven(next, prev, parent, last, f) && !Within(f, x)
    ensures Woven(next, prev, parent, last[x := l], f)
  {
    hide Shape, Forward, Backward, Parented, LastOk;
    NotWithin(f, x);
  }

  lemma OffChain(fun: map<int, int>, f: seq<Entry>, x: int, c: int)
    requires ChainedFrom(fun, f, 0) && !Within(f, x)
    ensures ChainedFrom(fun[x := c], f, 0)
  {
    hide Chain;
    NotWithin(f, x);
  }

  /* Freeing */

  lemma IsKidHere(f: seq<Entry>, i: nat)
    requires Shape(f) && 0 < i < |f|
    ensures IsKid(f, Par(f, i), i)
  {
  }

  /** Climbing from i to its group stays inside group g and passes no member. */
  lemma SisterStep(f: seq<Entry>, g: nat, i: nat, k: nat)
    requires Shape(f) && g < i < k < |f| && IsKid(f, g, k)
    requires forall m: nat :: i < m < k ==> !IsKid(f, g, m)
    ensures Par(f, i) >= g
    ensures Par(f, i) != g ==> forall m: nat :: Par(f, i) < m < k ==> !IsKid(f, g, m)
  {
    ParentIsGroup(f, k);
    ParentIsGroup(f, i);
    var p := Par(f, i);
    assert f[i].depth > f[g].depth;
    if p > g {
      assert f[p].depth > f[g].depth;
      forall m: nat | p < m < k
        ensures !IsKid(f, g, m)
      {
        if m <= i {
          ParentIsGroup(f, m);
        }
      }
    }
  }

  lemma OnlyMember(f: seq<Entry>, k: nat)
    requires Shape(f) && 0 < k < |f| && Par(f, k) + 1 == k
    ensures NewLast(f, k, Par(f, k), DUMMY)
  {
  }

  lemma NextKept(next: map<int, int>, next': map<int, int>, f: seq<Entry>, k: nat)
    requires Shape(f) && 0 < k < |f| && Same(next, next', {f[k - 1].id}) && f[k].id in next
    ensures f[k].id in next' && next'[f[k].id] == next[f[k].id]
  {
    SameIdNot(f, k, k - 1);
  }

  lemma DelWoven(next: map<int, int>, prev: map<int, int>, parent: map<int, int>, last: map<int, int>,
                 next': map<int, int>, prev': map<int, int>, last': map<int, int>, f: seq<Entry>, k: nat)
    requires Woven(next, prev, parent, last, f) && 0 < k < |f| && !f[k].group
    requires Same(next, next', {f[k - 1].id}) && f[k - 1].id in next' && next'[f[k - 1].id] == IdAt(f, k + 1)
    requires Same(prev, prev', {IdAt(f, k + 1)}) && (k + 1 < |f| ==> f[k + 1].id in prev' && prev'[f[k + 1].id] == f[k - 1].id)
    requires Shape(f) && ParentLast(last, last', f, k)
    ensures Woven(next', prev', parent, last', Del(f, k))
  {
    LeafDepth(f, k);
    hide Shape, Forward, Backward, Parented, Lasted, Same, ParentLast, Del;
    DelShape(f, k);
    DelForward(next, next', f, k);
    DelBackward(prev, prev', f, k);
    DelParented(parent, f, k);
    DelLasted(last, last', f, k);
  }

  lemma LeafDepth(f: seq<Entry>, k: nat)
    requires Shape(f) && k < |f| && !f[k].group
    ensures k + 1 < |f| ==> f[k + 1].depth <= f[k].depth
  {
  }

  lemma LeafBehindRoot(f: seq<Entry>, k: nat)
    requires Shape(f) && k < |f| && !f[k].group
    ensures k > 0
  {
  }

  lemma DelWithin(f: seq<Entry>, k: nat)
    requires Shape(f) && k < |f|
    ensures forall x :: Within(Del(f, k), x) <==> Within(f, x) && x != f[k].id
  {
    DelIds(f, k);
    hide Del, Shape, Within;
    forall x
      ensures Within(Del(f, k), x) <==> Within(f, x) && x != f[k].id
    {
      DelKeeps(f, k, x);
    }
  }

  lemma DelKeeps(f: seq<Entry>, k: nat, x: int)
    requires k < |f|
    ensures Within(f, x) && x != f[k].id ==> Within(Del(f, k), x)
    ensures Within(Del(f, k), x) ==> Within(f, x)
  {
    DelView(f, k);
    var f' := Del(f, k);
    hide Del, Ins;
    if Within(f, x) && x != f[k].id {
      var j :| 0 <= j < |f| && f[j].id == x;
      assert f'[if j < k then j else j - 1].id == x;
    }
    if Within(f', x) {
      var j :| 0 <= j < |f'| && f'[j].id == x;
      assert f[if j < k then j else j + 1].id == x;
    }
  }

  lemma DelChainedBehind(fun: map<int, int>, f: seq<Entry>, k: nat)
    requires ChainedFrom(fun, f, 0) && k < |f|
    ensures ChainedFrom(fun, Del(f, k), k)
  {
    hide Del, Chain, ChainedFrom;
    DelView(f, k);
    var f' := Del(f, k);
    forall i: nat {:trigger f'[i]} | k <= i < |f'|
      ensures f'[i].id in fun && fun[f'[i].id] == Chain(f', i + 1)
    {
      ChainedAt(fun, f, 0, i + 1);
      DelChain(f, k, i + 1);
    }
    ChainedBy(fun, f', k);
  }

  /** The root contains all nodes. */
  lemma WholeRoot(f: seq<Entry>)
    requires Shape(f)
    ensures End(f, 0) == |f|
  {
    SkipUnique(f, 1, 0, |f|);
  }

  lemma WovenLasted(next: map<int, int>, prev: map<int, int>, parent: map<int, int>, last: map<int, int>, f: seq<Entry>)
    requires Woven(next, prev, parent, last, f)
    ensures Shape(f) && Lasted(last, f)
  {
  }
}
