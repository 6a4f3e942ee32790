/** The node graph: a tree of groups and leaves, threaded in pre-order, and the
    chain of functions that a tick runs (src/graph.lisp). Nothing is paused. A node
    is named by its identifier, and each field of the nodes is a map. */
module NodeGraph {
  import opened GraphShape
  import opened GraphLinks

  /** What node-add comes to. After the root there is no place: the source reads a
      field of the missing parent, with part of the links set. */
  datatype Outcome = Done | Refused | NoNodes | NoTarget | NoParent

  class Graph {
    /** The number of nodes that fit, besides the root. */
    const size: nat
    var count: nat
    /** The nodes whose id is not null. */
    var live: set<int>
    var next: map<int, int>
    var prev: map<int, int>
    var parent: map<int, int>
    var last: map<int, int>
    /** For a leaf the cdr of its own cons, for a group its funcons. A cons is
        named by its leaf. */
    var fun: map<int, int>
    /** The nodes in pre-order. */
    ghost var flat: seq<Entry>

    ghost predicate Linked()
      reads this
    {
      Woven(next, prev, parent, last, flat)
    }

    ghost predicate Listed()
      reads this
    {
      && (forall x :: x in live <==> Within(flat, x))
      && |flat| == count + 1
    }

    ghost predicate Valid()
      reads this
    {
      Linked() && Listed() && ChainedFrom(fun, flat, 0)
    }

    /** The root group alone. */
    constructor (size: nat)
      ensures Valid() && flat == [Entry(ROOT, 0, true)] && this.size == size
    {
      this.size := size;
      count := 0;
      live := {ROOT};
      next := map[ROOT := NIL];
      prev := map[ROOT := DUMMY];
      parent := map[ROOT := NIL];
      last := map[ROOT := DUMMY];
      fun := map[ROOT := NIL];
      flat := [Entry(ROOT, 0, true)];
    }

    predicate GroupP(x: int)
      requires x in last
      reads this
    {
      last[x] != NIL
    }

    /** node-funcons: a leaf's own cons, or what the group holds. */
    function Funcons(x: int): int
      requires x in last && (last[x] != NIL ==> x in fun)
      reads this
    {
      if GroupP(x) then fun[x] else x
    }

    lemma FunconsIs(i: nat)
      requires Linked() && i < |flat| && ChainedFrom(fun, flat, i)
      ensures flat[i].id in last && flat[i].id in fun && Funcons(flat[i].id) == Chain(flat, i)
      ensures GroupP(flat[i].id) <==> flat[i].group
    {
      hide Woven, ChainedFrom;
      WovenAt(next, prev, parent, last, flat, i);
      ChainedAt(fun, flat, i, i);
    }

    /** update-previous-funcons: the chain is repaired by walking back from a node
        behind which it is right. */
    method UpdatePreviousFuncons(node: int, ghost m: nat)
      requires Linked() && m < |flat| && flat[m].id == node && ChainedFrom(fun, flat, m)
      modifies this`fun
      ensures Linked() && ChainedFrom(fun, flat, 0)
    {
      hide Woven, ChainedFrom, Chain, Shape, LastOk;
      var obj := node;
      ghost var i: nat := m;
      WovenAt(next, prev, parent, last, flat, i);
      while prev[obj] >= 0
        invariant Linked() && i < |flat| && flat[i].id == obj && ChainedFrom(fun, flat, i)
        invariant obj in prev && prev[obj] == BeforeId(flat, i)
        decreases i
      {
        FunconsIs(i);
        WovenAt(next, prev, parent, last, flat, i);
        var p := prev[obj];
        ChainBack(fun, flat, i);
        fun := fun[p := Funcons(obj)];
        obj := p;
        i := i - 1;
        WovenAt(next, prev, parent, last, flat, i);
      }
      WovenAt(next, prev, parent, last, flat, i);
    }

    /** find-last-node: the last node inside a group, at any depth. */
    method FindLastNode(node: int, ghost i: nat) returns (r: int)
      requires Linked() && i < |flat| && flat[i].id == node
      ensures r == flat[End(flat, i) - 1].id
      decreases |flat| - i
    {
      hide Woven, Shape, IsLastKid;
      WovenAt(next, prev, parent, last, flat, i);
      var l := last[node];
      if l >= 0 {
        ghost var j := LastIndex(flat, i, l);
        EndOfLast(flat, i, j);
        WovenAt(next, prev, parent, last, flat, j);
        if GroupP(l) {
          r := FindLastNode(l, j);
        } else {
          NoKidsOf(flat, j, last[l]);
          NoMembersEnd(flat, j);
          r := l;
        }
      } else {
        NoKidsOf(flat, i, l);
        NoMembersEnd(flat, i);
        r := node;
      }
    }

    /** update-next-funcons, and node-next-funcons for a group: the chain goes on
        behind the new node. */
    method UpdateNextFuncons(item: int, ghost k: nat)
      requires Linked() && k < |flat| && flat[k].id == item && ChainedFrom(fun, flat, k + 1)
      requires item in fun && fun[item] == NIL
      modifies this`fun
      ensures Linked() && ChainedFrom(fun, flat, k)
    {
      hide Woven, ChainedFrom, Chain, Shape, LastOk;
      WovenAt(next, prev, parent, last, flat, k);
      if next[item] >= 0 {
        FunconsIs(k + 1);
        ChainBack(fun, flat, k + 1);
        fun := fun[item := Funcons(next[item])];
      } else {
        ChainEnd(fun, flat, k);
      }
    }

    /** A node that was initialised but is not in the graph yet. */
    ghost predicate Fresh(item: int)
      reads this
    {
      && item > 0 && item !in live
      && item in last && last[item] == NIL && item in fun && fun[item] == NIL
    }

    /** The graph with one node more, as far as the links go; the chain of functions
        is right behind the new node only. */
    ghost predicate Joined(f: seq<Entry>, a: Action, i: nat, item: int, group: bool, funs: map<int, int>)
      reads this
    {
      && Allowed(f, a, i) && flat == Added(f, a, i, item, group) && Linked() && Listed()
      && Place(f, a, i) < |flat| && flat[Place(f, a, i)] == NewEntry(f, a, i, item, group)
      && ChainedFrom(fun, flat, Place(f, a, i) + 1) && fun == funs
    }

    /** The bookkeeping that all four additions end with. */
    ghost method Join(f: seq<Entry>, a: Action, i: nat, item: int, group: bool)
      requires flat == f && Allowed(f, a, i) && item > 0 && !Within(f, item) && ChainedFrom(fun, f, 0)
      requires Shape(f) && Woven(next, prev, parent, last, Added(f, a, i, item, group))
      requires (forall x :: x in live <==> Within(f, x) || x == item) && |f| == count
      modifies this`flat
      ensures Joined(f, a, i, item, group, fun)
    {
      hide Woven, ChainedFrom, Shape, Allowed, Place, NewEntry, GroupOf, Fits, ParentAt;
      AddedFits(f, a, i, item, group);
      flat := Added(f, a, i, item, group);
      var k, e := Place(f, a, i), NewEntry(f, a, i, item, group);
      InsView(f, k, e);
      InsChained(fun, f, k, e);
      InsWithin(f, a, i, item, group);
    }

    method AddNodeToHead(item: int, target: int) returns (ok: bool)
      requires Valid() && Fresh(item) && target in live
      modifies this
      ensures Valid() && Within(old(flat), target)
      ensures ok == old(flat)[IndexOf(old(flat), target)].group
      ensures flat == if ok then Added(old(flat), Head, IndexOf(old(flat), target), item, false) else old(flat)
    {
      hide Woven, ChainedFrom, Chain, Shape, LastOk, Place, NewEntry, Added;
      ghost var f := flat;
      ghost var i: nat := IndexOf(f, target);
      WovenAt(next, prev, parent, last, f, i);
      ok := GroupP(target);
      if ok {
        LinkToHead(item, target, i);
        live := live + {item};
        count := count + 1;
        Join(f, Head, i, item, false);
        NextKnown(f, Head, i, item, false);
        ChainToHead(item, target, f, i);
      }
    }

    /** After the links are set, the new node has a next field. */
    lemma NextKnown(f: seq<Entry>, a: Action, i: nat, item: int, group: bool)
      requires Joined(f, a, i, item, group, fun)
      ensures item in next && next[item] == IdAt(flat, Place(f, a, i) + 1)
    {
      hide Woven, ChainedFrom, Chain, Shape, LastOk, Place, Added;
      WovenAt(next, prev, parent, last, flat, Place(f, a, i));
    }

    /** The part of add-node-to-head that sets the links. */
    method LinkToHead(item: int, target: int, ghost i: nat)
      requires Linked() && item > 0 && !Within(flat, item) && item in last && last[item] == NIL
      requires Allowed(flat, Head, i) && flat[i].id == target
      modifies this`next, this`prev, this`parent, this`last
      ensures Woven(next, prev, parent, last, Added(flat, Head, i, item, false))
    {
      hide Woven, Shape, LastOk, Within, Added, InNext, InPrev;
      WovenAt(next, prev, parent, last, flat, i);
      SetNext(next, flat, i + 1, item);
      SetPrev(prev, flat, i + 1, item);
      if last[target] < 0 {
        last := last[target := item];
      }
      next := next[item := next[target]];
      next := next[target := item];
      prev := prev[item := target];
      parent := parent[item := target];
      if next[item] >= 0 {
        prev := prev[next[item] := item];
      }
      AddWoven(old(next), old(prev), old(parent), old(last), next, prev, parent, last, flat, Head, i, item, false);
    }

    /** The part of add-node-to-head that joins the functions. */
    method ChainToHead(item: int, target: int, ghost f: seq<Entry>, ghost i: nat)
      requires Joined(f, Head, i, item, false, fun) && ChainedFrom(fun, f, 0) && f[i].id == target
      requires item in fun && fun[item] == NIL && item in next
      modifies this`fun
      ensures Valid()
    {
      hide Woven, ChainedFrom, Chain, Shape, LastOk;
      WovenAt(next, prev, parent, last, flat, i);
      WovenAt(next, prev, parent, last, flat, i + 1);
      ChainedAt(fun, f, 0, i);
      InsChainBehind(f, i + 1, NewEntry(f, Head, i, item, false), i + 1);
      if next[item] >= 0 {
        FunconsIs(i + 2);
        ChainBack(fun, flat, i + 2);
        fun := fun[item := if Funcons(target) != NIL then Funcons(target) else Funcons(next[item])];
      } else {
        ChainEnd(fun, flat, i + 1);
      }
      FunconsIs(i + 1);
      ChainBack(fun, flat, i + 1);
      fun := fun[target := Funcons(item)];
      UpdatePreviousFuncons(target, i);
    }

    /** The functions of a new leaf at k join the chain. */
    method ChainBehind(item: int, ghost k: nat)
      requires Linked() && Listed() && k < |flat| && flat[k].id == item && !flat[k].group && ChainedFrom(fun, flat, k + 1)
      requires item in fun && fun[item] == NIL
      modifies this`fun
      ensures Valid()
    {
      hide Woven, ChainedFrom, Chain, Shape, LastOk;
      UpdateNextFuncons(item, k);
      UpdatePreviousFuncons(item, k);
    }

    /** The new node is put behind another one in next and prev. */
    method LinkBehind(item: int, node: int, ghost k: nat)
      requires Linked() && item > 0 && !Within(flat, item) && 0 < k <= |flat| && flat[k - 1].id == node
      modifies this`next, this`prev
      ensures InNext(old(next), next, flat, k, item) && InPrev(old(prev), prev, flat, k, item)
    {
      hide Woven, Shape, LastOk, Within, InNext, InPrev;
      WovenAt(next, prev, parent, last, flat, k - 1);
      SetNext(next, flat, k, item);
      SetPrev(prev, flat, k, item);
      NotWithin(flat, item);
      prev := prev[item := node];
      next := next[item := next[node]];
      next := next[node := item];
      if next[item] >= 0 {
        prev := prev[next[item] := item];
      }
    }

    /** The links of add-node-to-tail for a group with members. */
    method LinkToTail(item: int, target: int, ghost i: nat)
      requires Linked() && item > 0 && !Within(flat, item) && item in last && last[item] == NIL
      requires Allowed(flat, Tail, i) && flat[i].id == target
      modifies this`next, this`prev, this`parent, this`last
      ensures Woven(next, prev, parent, last, Added(flat, Tail, i, item, false))
    {
      hide Woven, Shape, LastOk, Within, Added, InNext, InPrev, Skip;
      WovenAt(next, prev, parent, last, flat, i);
      var node := FindLastNode(target, i);
      LinkBehind(item, node, End(flat, i));
      parent := parent[item := target];
      last := last[target := item];
      AddWoven(old(next), old(prev), old(parent), old(last), next, prev, parent, last, flat, Tail, i, item, false);
    }

    method AddNodeToTail(item: int, target: int) returns (ok: bool)
      requires Valid() && Fresh(item) && target in live
      modifies this
      ensures Valid() && Within(old(flat), target)
      ensures ok == old(flat)[IndexOf(old(flat), target)].group
      ensures flat == if ok then Added(old(flat), Tail, IndexOf(old(flat), target), item, false) else old(flat)
    {
      hide Woven, ChainedFrom, Chain, Shape, LastOk, Place, NewEntry, Added;
      ghost var f := flat;
      ghost var i: nat := IndexOf(f, target);
      WovenAt(next, prev, parent, last, f, i);
      ok := GroupP(target);
      if ok {
        if last[target] >= 0 {
          LinkToTail(item, target, i);
          live := live + {item};
          count := count + 1;
          Join(f, Tail, i, item, false);
          EntryKnown(f, Tail, i, item, false);
          ChainBehind(item, Place(f, Tail, i));
        } else {
          EmptyTail(f, i, last[target], item);
          AddNodeToEmptyGroup(item, target, i);
        }
      }
    }

    method AddNodeToEmptyGroup(item: int, target: int, ghost i: nat)
      requires Valid() && Fresh(item) && Allowed(flat, Head, i) && flat[i].id == target
      requires target in last && last[target] == DUMMY
      modifies this
      ensures Valid() && flat == Added(old(flat), Head, i, item, false)
    {
      hide Woven, ChainedFrom, Chain, Shape, LastOk, Place, NewEntry, Added;
      ghost var f := flat;
      WovenShape(next, prev, parent, last, f);
      LinkToEmptyGroup(item, target, i);
      live := live + {item};
      count := count + 1;
      Join(f, Head, i, item, false);
      NextKnown(f, Head, i, item, false);
      ChainToHead(item, target, f, i);
    }

    method LinkToEmptyGroup(item: int, target: int, ghost i: nat)
      requires Linked() && item > 0 && !Within(flat, item) && item in last && last[item] == NIL
      requires Allowed(flat, Head, i) && flat[i].id == target && target in last && last[target] == DUMMY
      modifies this`next, this`prev, this`parent, this`last
      ensures Woven(next, prev, parent, last, Added(flat, Head, i, item, false))
    {
      hide Woven, Shape, LastOk, Within, Added, InNext, InPrev;
      WovenAt(next, prev, parent, last, flat, i);
      SetNext(next, flat, i + 1, item);
      SetPrev(prev, flat, i + 1, item);
      parent := parent[item := target];
      next := next[item := next[target]];
      next := next[target := item];
      prev := prev[item := target];
      last := last[target := item];
      if next[item] >= 0 {
        prev := prev[next[item] := item];
      }
      AddWoven(old(next), old(prev), old(parent), old(last), next, prev, parent, last, flat, Head, i, item, false);
    }

    method LinkBefore(item: int, target: int, ghost i: nat, ghost group: bool)
      requires Linked() && item > 0 && !Within(flat, item) && item in last && last[item] == if group then DUMMY else NIL
      requires Allowed(flat, Before, i) && flat[i].id == target
      modifies this`next, this`prev, this`parent
      ensures Woven(next, prev, parent, last, Added(flat, Before, i, item, group))
    {
      hide Woven, Shape, LastOk, Within, Added, InNext, InPrev;
      WovenAt(next, prev, parent, last, flat, i);
      WovenAt(next, prev, parent, last, flat, Par(flat, i));
      SetNext(next, flat, i, item);
      SetPrev(prev, flat, i, item);
      NotWithin(flat, item);
      prev := prev[item := prev[target]];
      next := next[item := target];
      prev := prev[target := item];
      next := next[prev[item] := item];
      parent := parent[item := parent[target]];
      AddWoven(old(next), old(prev), old(parent), old(last), next, prev, parent, last, flat, Before, i, item, group);
    }

    method AddNodeBefore(item: int, target: int) returns (ok: bool)
      requires Valid() && Fresh(item) && target in live
      modifies this
      ensures Valid() && Within(old(flat), target)
      ensures ok == (target != ROOT)
      ensures ok ==> IndexOf(old(flat), target) > 0
      ensures flat == if ok then Added(old(flat), Before, IndexOf(old(flat), target), item, false) else old(flat)
    {
      hide Woven, ChainedFrom, Chain, Shape, LastOk, Place, NewEntry, Added;
      ghost var f := flat;
      ghost var i: nat := IndexOf(f, target);
      WovenAt(next, prev, parent, last, f, i);
      RootFirst(f);
      ok := target != ROOT;
      if ok {
        LinkBefore(item, target, i, false);
        live := live + {item};
        count := count + 1;
        Join(f, Before, i, item, false);
        EntryKnown(f, Before, i, item, false);
        ChainBehind(item, Place(f, Before, i));
      }
    }

    method LinkAfter(item: int, target: int, ghost i: nat)
      requires Linked() && item > 0 && !Within(flat, item) && item in last && last[item] == NIL
      requires Allowed(flat, After, i) && flat[i].id == target
      modifies this`next, this`prev, this`parent, this`last
      ensures Woven(next, prev, parent, last, Added(flat, After, i, item, false))
    {
      hide Woven, Shape, LastOk, Within, Added, InNext, InPrev, Skip;
      WovenAt(next, prev, parent, last, flat, i);
      WovenAt(next, prev, parent, last, flat, Par(flat, i));
      NotWithin(flat, item);
      var node := FindLastNode(target, i);
      LinkBehind(item, node, End(flat, i));
      parent := parent[item := parent[target]];
      if target == last[parent[item]] {
        last := last[parent[item] := item];
      }
      AddWoven(old(next), old(prev), old(parent), old(last), next, prev, parent, last, flat, After, i, item, false);
    }

    /** What is left when a node was to be added after the root: it hangs behind the
        last node of the graph in next, and points back to it, but belongs to no
        group; nothing else is changed, in particular not the functions to run. */
    ghost predicate Stray(item: int, next0: map<int, int>, prev0: map<int, int>, parent0: map<int, int>)
      reads this
    {
      && Shape(flat) && Lasted(last, flat) && ChainedFrom(fun, flat, 0)
      && var z := flat[|flat| - 1].id;
      && next == next0[item := NIL][z := item] && prev == prev0[item := z] && parent == parent0[item := NIL]
    }

    /** add-node-after. The root has no siblings: false means that the parent is
        missing. */
    method AddNodeAfter(item: int, target: int) returns (ok: bool)
      requires Valid() && Fresh(item) && target in live
      modifies this
      ensures ok == (target != ROOT) && Within(old(flat), target)
      ensures ok ==> IndexOf(old(flat), target) > 0
      ensures flat == if ok then Added(old(flat), After, IndexOf(old(flat), target), item, false) else old(flat)
      ensures ok ==> Valid()
      ensures !ok ==> Stray(item, old(next), old(prev), old(parent))
    {
      hide Woven, ChainedFrom, Chain, Shape, LastOk, Place, NewEntry, Added;
      ghost var f := flat;
      ghost var i: nat := IndexOf(f, target);
      WovenAt(next, prev, parent, last, f, i);
      RootFirst(f);
      ok := target != ROOT;
      if ok {
        LinkAfter(item, target, i);
        live := live + {item};
        count := count + 1;
        Join(f, After, i, item, false);
        EntryKnown(f, After, i, item, false);
        ChainBehind(item, Place(f, After, i));
      } else {
        AfterRoot(item);
        live := live + {item};
      }
    }

    /** The links of add-node-after up to the missing parent. */
    method AfterRoot(item: int)
      requires Valid() && Fresh(item)
      modifies this`next, this`prev, this`parent
      ensures Stray(item, old(next), old(prev), old(parent))
    {
      hide Woven, ChainedFrom, Chain, Shape, LastOk, Skip;
      WovenAt(next, prev, parent, last, flat, 0);
      WovenAt(next, prev, parent, last, flat, |flat| - 1);
      NotWithin(flat, item);
      RootFirst(flat);
      WholeRoot(flat);
      WovenLasted(next, prev, parent, last, flat);
      var node := FindLastNode(ROOT, 0);
      parent := parent[item := NIL];
      prev := prev[item := node];
      next := next[item := next[node]];
      next := next[node := item];
      assert node != item && next == old(next)[item := NIL][node := item];
    }

    /** initialize-node, as far as the graph is concerned: no last node, and a cons
        of its own without successor. */
    method InitializeNode(item: int)
      requires Valid() && item > 0 && item !in live
      modifies this`last, this`fun
      ensures Valid() && Fresh(item)
    {
      hide Woven, ChainedFrom, Shape, Within;
      OffGraph(next, prev, parent, last, flat, item, NIL);
      OffChain(fun, flat, item, NIL);
      last := last[item := NIL];
      fun := fun[item := NIL];
    }

    /** node-add: a full graph and a missing target are errors; a node that is in
        the graph already is left alone. */
    method NodeAdd(item: int, action: Action, target: int) returns (r: Outcome)
      requires Valid() && item > 0
      modifies this
      ensures r.NoNodes? <==> old(count) == size
      ensures r.NoTarget? <==> old(count) != size && target !in old(live)
      ensures r.Done? <==> (old(count) != size && target in old(live) && item !in old(live)
                            && Allowed(old(flat), action, IndexOf(old(flat), target)))
      ensures r.NoParent? <==> (old(count) != size && target in old(live) && item !in old(live)
                                && action.After? && target == ROOT)
      ensures flat == if r.Done? then Added(old(flat), action, IndexOf(old(flat), target), item, false) else old(flat)
      ensures !r.NoParent? ==> Valid()
      ensures r.NoParent? ==> Stray(item, old(next), old(prev), old(parent))
    {
      hide Woven, ChainedFrom, Chain, Shape, LastOk, Place, NewEntry, Added;
      WovenShape(next, prev, parent, last, flat);
      RootFirst(flat);
      if count == size {
        r := NoNodes;
      } else if target !in live {
        r := NoTarget;
      } else if item in live {
        r := Refused;
      } else {
        InitializeNode(item);
        var ok;
        match action {
          case Head => ok := AddNodeToHead(item, target);
          case Tail => ok := AddNodeToTail(item, target);
          case Before => ok := AddNodeBefore(item, target);
          case After => ok := AddNodeAfter(item, target);
        }
        r := if ok then Done else if action.After? then NoParent else Refused;
      }
    }

    /** common-set of %make-group. */
    method NewGroup(group: int)
      requires Valid() && group > 0 && group !in live
      modifies this`last
      ensures Valid() && group in last && last[group] == DUMMY
    {
      hide Woven, ChainedFrom, Shape, Within;
      OffGraph(next, prev, parent, last, flat, group, DUMMY);
      last := last[group := DUMMY];
    }

    /** %make-group :before. The new group does not alter the previous funcons. */
    method MakeGroupBefore(group: int, target: int) returns (ok: bool, ghost i: nat)
      requires Valid() && group > 0
      modifies this
      ensures ok == (group !in old(live) && target in old(live) && target != ROOT)
      ensures ok ==> 0 < i < |old(flat)| && old(flat)[i].id == target
      ensures flat == if ok then Added(old(flat), Before, i, group, true) else old(flat)
      ensures Valid()
    {
      hide Woven, ChainedFrom, Chain, Shape, LastOk, Place, NewEntry, Added, Within, IndexOf;
      WovenShape(next, prev, parent, last, flat);
      RootFirst(flat);
      ok := group !in live && target in live && target != ROOT;
      if ok {
        i := IndexOf(flat, target);
        NewGroup(group);
        PutGroupBefore(group, target, i);
      } else {
        i := 0;
      }
    }

    method PutGroupBefore(group: int, target: int, ghost i: nat)
      requires Valid() && group > 0 && group !in live && group in last && last[group] == DUMMY
      requires Shape(flat) && 0 < i < |flat| && flat[i].id == target
      modifies this
      ensures Valid() && flat == Added(old(flat), Before, i, group, true)
    {
      hide Woven, ChainedFrom, Chain, Shape, LastOk, Place, NewEntry, Added;
      ghost var f := flat;
      count := count + 1;
      LinkBefore(group, target, i, true);
      live := live + {group};
      Join(f, Before, i, group, true);
      NextKnown(f, Before, i, group, true);
      JoinGroup(group, f, Before, i);
    }

    /** The funcons of an empty group is that of the next node. */
    method JoinGroup(group: int, ghost f: seq<Entry>, ghost a: Action, ghost i: nat)
      requires Joined(f, a, i, group, true, fun) && ChainedFrom(fun, f, 0)
      requires group > 0 && !Within(f, group) && Shape(f)
      requires group in next && next[group] == IdAt(flat, Place(f, a, i) + 1)
      modifies this`fun
      ensures Valid()
    {
      hide Woven, ChainedFrom, Chain, Shape, LastOk, Place, NewEntry, GroupOf, Allowed, Fits, ParentAt;
      ghost var k, e := Place(f, a, i), NewEntry(f, a, i, group, true);
      EntryKnown(f, a, i, group, true);
      AddedFits(f, a, i, group, true);
      InsChainBehind(f, k, e, k);
      WovenAt(next, prev, parent, last, flat, k);
      if next[group] >= 0 {
        FunconsIs(k + 1);
        InsGroupChained(fun, fun[group := Chain(f, k)], f, k, e);
        fun := fun[group := Funcons(next[group])];
      } else {
        InsGroupChained(fun, fun[group := Chain(f, k)], f, k, e);
        NoChain(flat, k + 1);
        fun := fun[group := NIL];
      }
    }

    /** %make-group :head. */
    method MakeGroupHead(group: int, target: int) returns (ok: bool)
      requires Valid() && group > 0
      modifies this
      ensures Valid()
      ensures ok == (group !in old(live) && target in old(live) && old(flat)[IndexOf(old(flat), target)].group)
      ensures flat == if ok then Added(old(flat), Head, IndexOf(old(flat), target), group, true) else old(flat)
    {
      hide Woven, ChainedFrom, Chain, Shape, LastOk, Place, NewEntry, Added;
      ok := group !in live && target in live;
      if ok {
        ghost var f := flat;
        ghost var i: nat := IndexOf(f, target);
        WovenAt(next, prev, parent, last, f, i);
        ok := GroupP(target);
        if ok {
          NewGroup(group);
          LinkGroupToHead(group, target, i);
          count := count + 1;
          live := live + {group};
          Join(f, Head, i, group, true);
          FunconsToHead(group, target, f, i);
        }
      }
    }

    method LinkGroupToHead(group: int, target: int, ghost i: nat)
      requires Linked() && group > 0 && !Within(flat, group) && group in last && last[group] == DUMMY
      requires Allowed(flat, Head, i) && flat[i].id == target
      modifies this`next, this`prev, this`parent, this`last
      ensures Woven(next, prev, parent, last, Added(flat, Head, i, group, true))
    {
      hide Woven, Shape, LastOk, Within, Added, InNext, InPrev;
      WovenAt(next, prev, parent, last, flat, i);
      NotWithin(flat, group);
      LinkBehind(group, target, i + 1);
      parent := parent[group := target];
      if last[target] < 0 {
        last := last[target := group];
      }
      AddWoven(old(next), old(prev), old(parent), old(last), next, prev, parent, last, flat, Head, i, group, true);
    }

    /** The new group is empty: it takes over the funcons of the target. */
    method FunconsToHead(group: int, target: int, ghost f: seq<Entry>, ghost i: nat)
      requires Joined(f, Head, i, group, true, fun) && ChainedFrom(fun, f, 0) && f[i].id == target
      requires group > 0 && !Within(f, group) && Shape(f)
      modifies this`fun
      ensures Valid()
    {
      hide Woven, ChainedFrom, Chain, Shape, LastOk, GroupOf, Fits, ParentAt;
      ghost var k, e := Place(f, Head, i), NewEntry(f, Head, i, group, true);
      AddedFits(f, Head, i, group, true);
      ChainedAt(fun, f, 0, i);
      InsGroupChained(fun, fun[group := Chain(f, k)], f, k, e);
      fun := fun[group := fun[target]];
    }

    /** The search of unlink-parent for the member before the freed one: from the
        node in front of it up to the group. */
    method PrevSister(n: int, group: int, ghost i: nat, ghost g: nat, ghost k: nat) returns (r: int)
      requires Linked() && g < i < k < |flat| && flat[i].id == n && flat[g].id == group
      requires IsKid(flat, g, k) && forall m: nat :: i < m < k ==> !IsKid(flat, g, m)
      ensures NewLast(flat, k, g, r)
      decreases i
    {
      hide Woven, Shape, LastOk, IsKid;
      WovenAt(next, prev, parent, last, flat, i);
      ghost var p: nat := Par(flat, i);
      SisterStep(flat, g, i, k);
      if parent[n] == group {
        SameId(flat, p, g);
        IsKidHere(flat, i);
        r := n;
      } else {
        r := PrevSister(parent[n], group, p, g, k);
      }
    }

    /** unlink-parent: the group of the freed leaf gets another last member, or
        becomes empty. */
    method UnlinkParent(x: int, ghost k: nat)
      requires Linked() && 0 < k < |flat| && flat[k].id == x
      modifies this`last, this`next
      ensures ParentLast(old(last), last, flat, k) && Same(old(next), next, {flat[k - 1].id})
      ensures flat[k - 1].id in next
    {
      hide Woven, Shape, LastOk, IsKid, NewLast;
      WovenAt(next, prev, parent, last, flat, k);
      WovenAt(next, prev, parent, last, flat, k - 1);
      ghost var g: nat := Par(flat, k);
      WovenAt(next, prev, parent, last, flat, g);
      IsKidHere(flat, k);
      if last[parent[x]] == x {
        if next[parent[x]] == x {
          SameId(flat, g + 1, k);
          OnlyMember(flat, k);
          last := last[parent[x] := DUMMY];
        } else {
          assert g + 1 != k;
          var sister := PrevSister(prev[x], parent[x], k - 1, g, k);
          last := last[parent[x] := sister];
        }
      } else if next[parent[x]] == x {
        SameId(flat, g + 1, k);
        next := next[parent[x] := next[x]];
      }
    }

    /** The links of a freed leaf. */
    method UnlinkNeighbors(x: int, ghost k: nat)
      requires Linked() && 0 < k < |flat| && flat[k].id == x && !flat[k].group
      modifies this`last, this`next, this`prev, this`flat
      ensures Linked() && flat == Del(old(flat), k)
      ensures x in prev && prev[x] == old(flat)[k - 1].id && x in next && next[x] == IdAt(old(flat), k + 1)
    {
      hide Woven, Shape, LastOk, ParentLast, Del;
      ghost var f := flat;
      WovenAt(next, prev, parent, last, f, k);
      WovenAt(next, prev, parent, last, f, k - 1);
      UnlinkParent(x, k);
      NextKept(old(next), next, f, k);
      SameIdNot(f, k, k - 1);
      NotIdAt(f, k, k + 1);
      next := next[prev[x] := next[x]];
      if next[x] >= 0 {
        prev := prev[next[x] := prev[x]];
      }
      DelWoven(old(next), old(prev), parent, old(last), next, prev, last, f, k);
      flat := Del(f, k);
    }

    /** unlink-prev, as far as the functions are concerned: the node before the freed
        one goes on behind it. */
    method UnlinkFuncons(x: int, ghost f: seq<Entry>, ghost k: nat)
      requires Linked() && Shape(f) && 0 < k < |f| && f[k].id == x && flat == Del(f, k) && ChainedFrom(fun, f, 0)
      requires x in prev && prev[x] == f[k - 1].id && x in next && next[x] == IdAt(f, k + 1)
      modifies this`fun
      ensures Linked() && ChainedFrom(fun, flat, 0)
    {
      hide Woven, ChainedFrom, Chain, Shape, LastOk, Del;
      DelView(f, k);
      WovenAt(next, prev, parent, last, flat, k - 1);
      DelChainedBehind(fun, f, k);
      DelChain(f, k, k);
      if k < |flat| {
        WovenAt(next, prev, parent, last, flat, k);
        FunconsIs(k);
      } else {
        NoChain(flat, k);
      }
      DelChained(fun, fun[f[k - 1].id := Chain(f, k + 1)], f, k);
      var p := prev[x];
      fun := fun[p := if next[x] >= 0 then Funcons(next[x]) else NIL];
      if GroupP(p) {
        UpdatePreviousFuncons(p, k - 1);
      }
    }

    /** %node-free for a leaf. */
    method NodeFree(x: int) returns (freed: bool)
      requires Valid() && (x in live ==> x in last && !GroupP(x))
      modifies this
      ensures Valid() && freed == (x in old(live))
      ensures freed ==> Within(old(flat), x) && IndexOf(old(flat), x) > 0 && !old(flat)[IndexOf(old(flat), x)].group
      ensures flat == if freed then Del(old(flat), IndexOf(old(flat), x)) else old(flat)
    {
      hide Woven, ChainedFrom, Chain, Shape, LastOk, Del;
      freed := x in live;
      if freed {
        ghost var f := flat;
        ghost var k: nat := IndexOf(f, x);
        WovenAt(next, prev, parent, last, f, k);
        LeafBehindRoot(f, k);
        UnlinkNeighbors(x, k);
        UnlinkFuncons(x, f, k);
        live := live - {x};
        count := count - 1;
        DelWithin(f, k);
        DelView(f, k);
      }
    }

    /** compute-tick: the functions in the chain of the root are called, which are
        those of all leaves in pre-order. Each call is recorded by its leaf. */
    method ComputeTick() returns (ran: seq<int>)
      requires Valid()
      ensures ran == Leaves(flat, 0)
    {
      hide Woven, ChainedFrom, Chain, Shape, LastOk, Leaves;
      WovenAt(next, prev, parent, last, flat, 0);
      RootFirst(flat);
      FunconsIs(0);
      var list := Funcons(ROOT);
      ran := [];
      ghost var i: nat := ChainLeaf(flat, 0);
      if i < |flat| {
        WovenAt(next, prev, parent, last, flat, i);
      }
      while list != NIL
        invariant i <= |flat| && (list == NIL <==> i == |flat|)
        invariant i < |flat| ==> list == flat[i].id && !flat[i].group
        invariant ran + (if i < |flat| then [list] + Leaves(flat, i + 1) else []) == Leaves(flat, 0)
        decreases |flat| - i
      {
        ran := ran + [list];
        ChainedAt(fun, flat, 0, i);
        list := fun[list];
        ghost var j: nat := ChainLeaf(flat, i + 1);
        if j < |flat| {
          WovenAt(next, prev, parent, last, flat, j);
        }
        i := j;
      }
    }
  }

  /** What a tick runs after a leaf was added: the same functions in the same
      order, and the new one behind those of the leaves before its place. */
  lemma {:induction false} AddedLeaves(f: seq<Entry>, a: Action, i: nat, id: int)
    requires Allowed(f, a, i) && Place(f, a, i) <= |f|
    ensures Leaves(Added(f, a, i, id, false), 0) ==
            Leaves(f[..Place(f, a, i)], 0) + [id] + Leaves(f, Place(f, a, i))
    ensures Leaves(f, 0) == Leaves(f[..Place(f, a, i)], 0) + Leaves(f, Place(f, a, i))
  {
    var k, e := Place(f, a, i), NewEntry(f, a, i, id, false);
    EntryKnown(f, a, i, id, false);
    hide Place, NewEntry, Ins, Leaves;
    InsView(f, k, e);
    var f' := Ins(f, k, e);
    LeavesSplit(f, 0, k);
    LeavesSplit(f', 0, k);
    assert f'[..k] == f[..k];
    LeavesStep(f', k);
    LeavesShift(f, k, e, k);
  }

  lemma LeavesStep(f: seq<Entry>, i: nat)
    requires i < |f|
    ensures Leaves(f, i) == (if f[i].group then [] else [f[i].id]) + Leaves(f, i + 1)
  {
  }

  lemma JoinThree(a: seq<int>, b: seq<int>, c: seq<int>)
    ensures (a + b) + c == a + (b + c)
  {
  }

  lemma {:induction false} LeavesSplit(f: seq<Entry>, i: nat, k: nat)
    requires i <= k <= |f|
    ensures Leaves(f, i) == Leaves(f[..k], i) + Leaves(f, k)
    decreases k - i
  {
    if i == k {
      assert Leaves(f[..k], k) == [];
    } else {
      hide Leaves;
      LeavesSplit(f, i + 1, k);
      LeavesStep(f, i);
      LeavesStep(f[..k], i);
      assert f[..k][i] == f[i];
      JoinThree(if f[i].group then [] else [f[i].id], Leaves(f[..k], i + 1), Leaves(f, k));
    }
  }

  lemma {:induction false} LeavesShift(f: seq<Entry>, k: nat, e: Entry, i: nat)
    requires k <= i <= |f| && i + 1 <= |Ins(f, k, e)|
    ensures Leaves(Ins(f, k, e), i + 1) == Leaves(f, i)
    decreases |f| - i
  {
    hide Ins, Leaves;
    InsView(f, k, e);
    if i < |f| {
      LeavesShift(f, k, e, i + 1);
      LeavesStep(f, i);
      LeavesStep(Ins(f, k, e), i + 1);
    } else {
      NoLeaves(f);
      NoLeaves(Ins(f, k, e));
    }
  }

  lemma NoLeaves(f: seq<Entry>)
    ensures Leaves(f, |f|) == []
  {
  }
}
