/** Linear probing on plain sequences (src/int-hash.lisp:52-101). */
module HashShape {
  import opened Cyclic
  import opened PowersOfTwo

  datatype Slot<V> = Null | Full(key: int, hash: nat, value: V)

  /** (logand hash mask), where the mask is one less than the number of slots. */
  function Home(n: nat, hash: nat): (a: nat)
    requires n > 0
    ensures a < n
  {
    And(hash, n - 1)
  }

  /** The tables have a power of two of slots: stepping is (logand (1+ i) mask), and
      the home is the remainder of the hash. */
  lemma Masks(n: nat, i: nat, hash: nat)
    requires IsPowerOfTwo(n) && i < n
    ensures Next(n, i) == And(i + 1, n - 1) && Home(n, hash) == hash % n
  {
    hide And, IsPowerOfTwo;
    AndMask(i + 1, n);
    AndMask(hash, n);
  }

  /** A slot strictly before j on the probe path from a. */
  predicate OnPath(n: nat, a: nat, j: nat, m: nat)
    requires a < n && j < n && m < n
  {
    Dist(n, a, m) < Dist(n, a, j)
  }

  ghost predicate FullAt<V>(s: seq<Slot<V>>, m: int) {
    0 <= m < |s| && s[m].Full?
  }

  /** The entry of slot j is reached by probing: no null slot comes before it. */
  ghost predicate Reached<V>(s: seq<Slot<V>>, j: nat)
    requires j < |s| && s[j].Full?
  {
    forall m: nat {:trigger FullAt(s, m)} :: m < |s| && OnPath(|s|, Home(|s|, s[j].hash), j, m) ==> FullAt(s, m)
  }

  ghost predicate Distinct<V>(s: seq<Slot<V>>) {
    forall i, j :: 0 <= i < j < |s| && s[i].Full? && s[j].Full? ==> s[i].key != s[j].key
  }

  ghost predicate Hashed<V>(s: seq<Slot<V>>, h: int -> nat) {
    forall i :: 0 <= i < |s| && s[i].Full? ==> s[i].hash == h(s[i].key)
  }

  ghost predicate Probed<V>(s: seq<Slot<V>>, h: int -> nat) {
    && Distinct(s) && Hashed(s, h)
    && forall j: nat {:trigger s[j]} :: j < |s| && s[j].Full? ==> Reached(s, j)
  }

  /** What a probe for a key finds: the first slot on the path that is null or
      holds the key. */
  ghost predicate ProbeEnds<V>(s: seq<Slot<V>>, key: int, a: nat, r: nat)
    requires a < |s|
  {
    r < |s| && (s[r].Full? ==> s[r].key == key) && Passed(s, key, a, r)
  }

  /** All slots on the path to r are full, with other keys. */
  ghost predicate Passed<V>(s: seq<Slot<V>>, key: int, a: nat, r: nat)
    requires a < |s| && r < |s|
  {
    forall m: nat {:trigger FullAt(s, m)} :: m < |s| && OnPath(|s|, a, r, m) ==> FullAt(s, m) && s[m].key != key
  }

  lemma PassNext<V>(s: seq<Slot<V>>, key: int, a: nat, i: nat)
    requires a < |s| && i < |s| && Passed(s, key, a, i) && s[i].Full? && s[i].key != key
    requires Dist(|s|, a, Next(|s|, i)) == Dist(|s|, a, i) + 1
    ensures Passed(s, key, a, Next(|s|, i))
  {
    forall m: nat | m < |s| && OnPath(|s|, a, Next(|s|, i), m)
      ensures FullAt(s, m) && s[m].key != key
    {
      if !OnPath(|s|, a, i, m) {
        DistInjective(|s|, a, i, m);
      }
      assert FullAt(s, m);
    }
  }

  lemma ReachedAt<V>(s: seq<Slot<V>>, j: nat, m: nat)
    requires j < |s| && s[j].Full? && Reached(s, j) && m < |s| && OnPath(|s|, Home(|s|, s[j].hash), j, m)
    ensures FullAt(s, m)
  {
  }

  lemma ProbePassed<V>(s: seq<Slot<V>>, key: int, a: nat, r: nat, m: nat)
    requires a < |s| && ProbeEnds(s, key, a, r) && m < |s| && OnPath(|s|, a, r, m)
    ensures FullAt(s, m) && s[m].key != key
  {
    assert FullAt(s, m);
  }

  /** A key that is in the table is found where it is. */
  lemma ProbeFinds<V>(s: seq<Slot<V>>, h: int -> nat, key: int, r: nat, j: nat)
    requires Probed(s, h) && |s| > 0 && ProbeEnds(s, key, Home(|s|, h(key)), r)
    requires j < |s| && s[j].Full? && s[j].key == key
    ensures r == j
  {
    var n, a := |s|, Home(|s|, h(key));
    if OnPath(n, a, j, r) {
      ReachedAt(s, j, r);
      assert false;
    } else if OnPath(n, a, r, j) {
      ProbePassed(s, key, a, r, j);
      assert false;
    } else {
      DistInjective(n, a, r, j);
    }
  }

  /** A probe that ends at a null slot shows that the key is not in the table. */
  lemma ProbeMisses<V>(s: seq<Slot<V>>, h: int -> nat, key: int, r: nat)
    requires Probed(s, h) && |s| > 0 && ProbeEnds(s, key, Home(|s|, h(key)), r) && s[r].Null?
    ensures forall j :: 0 <= j < |s| && s[j].Full? ==> s[j].key != key
  {
    forall j | 0 <= j < |s| && s[j].Full?
      ensures s[j].key != key
    {
      if s[j].key == key {
        ProbeFinds(s, h, key, r, j);
        assert false;
      }
    }
  }

  /** Filling the null slot at the end of the probe. */
  lemma InsertProbed<V>(s: seq<Slot<V>>, h: int -> nat, key: int, value: V, r: nat)
    requires Probed(s, h) && |s| > 0 && ProbeEnds(s, key, Home(|s|, h(key)), r) && s[r].Null?
    ensures Probed(s[r := Full(key, h(key), value)], h)
  {
    ProbeMisses(s, h, key, r);
    var s' := s[r := Full(key, h(key), value)];
    forall j: nat | j < |s| && s'[j].Full?
      ensures Reached(s', j)
    {
      forall m: nat | m < |s| && OnPath(|s|, Home(|s|, s'[j].hash), j, m)
        ensures FullAt(s', m)
      {
        if j != r {
          assert Reached(s, j);
        }
        assert FullAt(s, m) ;
      }
    }
  }

  /* Repair after a deletion */

  /** The state of the repair: `hole` is null, and so is `end`, which comes after
      it; all slots between them are full. Only entries from `at` on, and before
      `end`, may have the hole on their probe path. */
  ghost predicate Repairing<V>(s: seq<Slot<V>>, h: int -> nat, hole: nat, at: nat, end: nat) {
    && hole < |s| && at < |s| && end < |s| && hole != end
    && Distinct(s) && Hashed(s, h)
    && s[hole].Null? && s[end].Null?
    && 1 <= Dist(|s|, hole, at) <= Dist(|s|, hole, end)
    && (forall m: nat {:trigger FullAt(s, m)} :: m < |s| && 1 <= Dist(|s|, hole, m) < Dist(|s|, hole, end) ==> FullAt(s, m))
    && (forall j: nat {:trigger s[j]} :: j < |s| && s[j].Full? ==> NearlyReached(s, hole, at, end, j))
  }

  ghost predicate NearlyReached<V>(s: seq<Slot<V>>, hole: nat, at: nat, end: nat, j: nat)
    requires hole < |s| && at < |s| && end < |s| && j < |s| && s[j].Full?
  {
    forall m: nat {:trigger FullAt(s, m)} :: m < |s| && OnPath(|s|, Home(|s|, s[j].hash), j, m) ==>
      FullAt(s, m) || (m == hole && Dist(|s|, hole, at) <= Dist(|s|, hole, j) < Dist(|s|, hole, end))
  }

  /** If the path to j goes through p, and e comes before j when probing from p,
      then e is on the path too. */
  lemma PathThrough(n: nat, a: nat, p: nat, e: nat, j: nat)
    requires a < n && p < n && e < n && j < n
    requires OnPath(n, a, j, p) && Dist(n, p, e) < Dist(n, p, j)
    ensures OnPath(n, a, j, e)
  {
  }

  lemma RepairStart<V>(s: seq<Slot<V>>, h: int -> nat, hole: nat, end: nat)
    requires Probed(s, h) && hole < |s| && end < |s| && s[hole].Full? && s[end].Null?
    requires forall m: nat {:trigger FullAt(s, m)} :: m < |s| && 1 <= Dist(|s|, hole, m) < Dist(|s|, hole, end) ==> FullAt(s, m)
    ensures Repairing(s[hole := Null], h, hole, Next(|s|, hole), end)
  {
    var n, s' := |s|, s[hole := Null];
    forall m: nat
      ensures FullAt(s', m) <==> FullAt(s, m) && m != hole
    {
    }
    forall j: nat | j < n && s'[j].Full?
      ensures NearlyReached(s', hole, Next(n, hole), end, j)
    {
      assert Reached(s, j);
      BeforeEnd(s, hole, end, j);
    }
  }

  /** An entry whose path goes through p lies between p and the next null slot. */
  lemma BeforeEnd<V>(s: seq<Slot<V>>, p: nat, end: nat, j: nat)
    requires p < |s| && end < |s| && j < |s| && s[j].Full? && s[end].Null? && j != p
    requires OnPath(|s|, Home(|s|, s[j].hash), j, end) ==> FullAt(s, end)
    ensures OnPath(|s|, Home(|s|, s[j].hash), j, p) ==> 1 <= Dist(|s|, p, j) < Dist(|s|, p, end)
  {
    var n, a := |s|, Home(|s|, s[j].hash);
    if OnPath(n, a, j, p) && Dist(n, p, end) < Dist(n, p, j) {
      PathThrough(n, a, p, end, j);
    } else if OnPath(n, a, j, p) && Dist(n, p, end) == Dist(n, p, j) {
      DistInjective(n, p, end, j);
    }
  }

  /** The entry that is looked at finds the hole or itself. */
  lemma RepairFinds<V>(s: seq<Slot<V>>, h: int -> nat, hole: nat, at: nat, end: nat, r: nat)
    requires Repairing(s, h, hole, at, end) && s[at].Full?
    requires ProbeEnds(s, s[at].key, Home(|s|, s[at].hash), r)
    ensures r == hole || r == at
  {
    var n, a := |s|, Home(|s|, s[at].hash);
    if OnPath(n, a, at, r) && r != hole {
      NearlyAt(s, hole, at, end, at, r);
      assert false;
    } else if OnPath(n, a, r, at) {
      ProbePassed(s, s[at].key, a, r, at);
      assert false;
    } else if r != hole {
      DistInjective(n, a, r, at);
    }
  }

  lemma NearlyAt<V>(s: seq<Slot<V>>, hole: nat, at: nat, end: nat, j: nat, m: nat)
    requires hole < |s| && at < |s| && end < |s| && j < |s| && s[j].Full? && NearlyReached(s, hole, at, end, j)
    requires m < |s| && m != hole && OnPath(|s|, Home(|s|, s[j].hash), j, m)
    ensures FullAt(s, m)
  {
  }

  lemma RepairStay<V>(s: seq<Slot<V>>, h: int -> nat, hole: nat, at: nat, end: nat)
    requires Repairing(s, h, hole, at, end) && s[at].Full?
    requires ProbeEnds(s, s[at].key, Home(|s|, s[at].hash), at)
    ensures Repairing(s, h, hole, Next(|s|, at), end)
  {
    var n := |s|;
    forall j: nat | j < n && s[j].Full?
      ensures NearlyReached(s, hole, Next(n, at), end, j)
    {
      assert NearlyReached(s, hole, at, end, j);
      if j == at && OnPath(n, Home(n, s[at].hash), at, hole) {
        ProbePassed(s, s[at].key, Home(n, s[at].hash), at, hole);
        assert false;
      }
      if j != at && Dist(n, hole, j) == Dist(n, hole, at) {
        DistInjective(n, hole, j, at);
      }
    }
  }

  lemma RepairMove<V>(s: seq<Slot<V>>, h: int -> nat, hole: nat, at: nat, end: nat)
    requires Repairing(s, h, hole, at, end) && s[at].Full?
    requires ProbeEnds(s, s[at].key, Home(|s|, s[at].hash), hole)
    ensures Repairing(s[at := s[hole]][hole := s[at]], h, at, Next(|s|, at), end)
  {
    var n, s' := |s|, s[at := s[hole]][hole := s[at]];
    forall m: nat
      ensures FullAt(s', m) <==> (FullAt(s, m) || m == hole) && m != at
    {
    }
    forall j: nat | j < n && s'[j].Full?
      ensures NearlyReached(s', at, Next(n, at), end, j)
    {
      if j == hole {
        MovedReached(s, hole, at);
      } else {
        assert NearlyReached(s, hole, at, end, j);
        BeforeEnd(s, at, end, j);
      }
    }
  }

  /** The path to the hole does not lead over the slot the entry came from. */
  lemma MovedReached<V>(s: seq<Slot<V>>, hole: nat, at: nat)
    requires hole < |s| && at < |s| && s[at].Full?
    requires ProbeEnds(s, s[at].key, Home(|s|, s[at].hash), hole)
    ensures forall m: nat {:trigger FullAt(s, m)} :: m < |s| && OnPath(|s|, Home(|s|, s[at].hash), hole, m) ==>
      FullAt(s, m) && m != at
  {
    forall m: nat | m < |s| && OnPath(|s|, Home(|s|, s[at].hash), hole, m)
      ensures FullAt(s, m) && m != at
    {
      ProbePassed(s, s[at].key, Home(|s|, s[at].hash), hole, m);
    }
  }

  lemma RepairEnd<V>(s: seq<Slot<V>>, h: int -> nat, hole: nat, at: nat, end: nat)
    requires Repairing(s, h, hole, at, end) && s[at].Null?
    ensures at == end && Probed(s, h)
  {
    var n := |s|;
    assert !FullAt(s, at);
    DistInjective(n, hole, at, end);
    forall j: nat | j < n && s[j].Full?
      ensures Reached(s, j)
    {
      assert NearlyReached(s, hole, at, end, j);
    }
  }

  /* Counting */

  ghost function FullSlots<V>(s: seq<Slot<V>>): set<int> {
    set j | 0 <= j < |s| && s[j].Full?
  }

  ghost function Indices(n: nat): (r: set<int>)
    ensures |r| == n && forall j :: j in r <==> 0 <= j < n
  {
    if n == 0 then {} else Indices(n - 1) + {n - 1}
  }

  lemma AllFull<V>(s: seq<Slot<V>>)
    requires forall j :: 0 <= j < |s| ==> s[j].Full?
    ensures |FullSlots(s)| == |s|
  {
    assert FullSlots(s) == Indices(|s|);
  }

  /** With fewer entries than slots, some slot is null. */
  lemma SomeNull<V>(s: seq<Slot<V>>) returns (e: nat)
    requires |FullSlots(s)| < |s|
    ensures e < |s| && s[e].Null?
  {
    if forall j :: 0 <= j < |s| ==> s[j].Full? {
      AllFull(s);
      assert false;
    }
    e :| e < |s| && s[e].Null?;
  }

  lemma CountInsert<V>(s: seq<Slot<V>>, r: nat, x: Slot<V>)
    requires r < |s| && s[r].Null? && x.Full?
    ensures |FullSlots(s[r := x])| == |FullSlots(s)| + 1
  {
    assert FullSlots(s[r := x]) == FullSlots(s) + {r as int};
  }

  lemma CountDelete<V>(s: seq<Slot<V>>, r: nat)
    requires r < |s| && s[r].Full?
    ensures |FullSlots(s[r := Null])| == |FullSlots(s)| - 1
  {
    assert FullSlots(s) == FullSlots(s[r := Null]) + {r as int};
  }

  lemma CountMove<V>(s: seq<Slot<V>>, at: nat, hole: nat)
    requires at < |s| && hole < |s| && s[at].Full? && s[hole].Null?
    ensures |FullSlots(s[at := s[hole]][hole := s[at]])| == |FullSlots(s)|
  {
    CountDelete(s, at);
    CountInsert(s[at := Null], hole, s[at]);
  }

  /* The map that the table stands for */

  ghost predicate Has<V>(s: seq<Slot<V>>, x: Slot<V>) {
    exists j :: 0 <= j < |s| && s[j] == x
  }

  /** Both tables hold the same entries. */
  ghost predicate SameEntries<V(!new)>(s: seq<Slot<V>>, t: seq<Slot<V>>) {
    forall x: Slot<V> {:trigger Has(t, x)} :: x.Full? ==> (Has(s, x) <==> Has(t, x))
  }

  lemma MoveEntries<V(!new)>(s: seq<Slot<V>>, at: nat, hole: nat)
    requires at < |s| && hole < |s| && s[at].Full? && s[hole].Null?
    ensures SameEntries(s, s[at := s[hole]][hole := s[at]])
  {
    var t := s[at := s[hole]][hole := s[at]];
    forall x: Slot<V> | x.Full?
      ensures Has(s, x) <==> Has(t, x)
    {
      if Has(s, x) {
        var j :| 0 <= j < |s| && s[j] == x;
        assert t[if j == at then hole else j] == x;
      }
      if Has(t, x) {
        var j :| 0 <= j < |t| && t[j] == x;
        assert s[if j == hole then at else j] == x;
      }
    }
  }

  /** The entry of a key, if it has one. */
  ghost predicate Maps<V>(s: seq<Slot<V>>, key: int, value: V) {
    exists j :: 0 <= j < |s| && s[j].Full? && s[j].key == key && s[j].value == value
  }

  /* Small steps for the methods of the table */

  lemma FoundProbe<V>(s: seq<Slot<V>>, h: int -> nat, i: nat)
    requires Probed(s, h) && i < |s| && s[i].Full?
    ensures ProbeEnds(s, s[i].key, Home(|s|, h(s[i].key)), i)
  {
    var n, a, key := |s|, Home(|s|, h(s[i].key)), s[i].key;
    assert Reached(s, i);
    forall m: nat | m < n && OnPath(n, a, i, m)
      ensures FullAt(s, m) && s[m].key != key
    {
      ReachedAt(s, i, m);
      if m == i {
        assert false;
      }
    }
  }

  lemma HashesMatch<V>(s: seq<Slot<V>>, h: int -> nat, key: int)
    requires Probed(s, h)
    ensures forall j :: 0 <= j < |s| && s[j].Full? && s[j].key == key ==> s[j].hash == h(key)
  {
  }

  lemma EndsInside<V>(s: seq<Slot<V>>, key: int, a: nat, r: nat)
    requires a < |s| && ProbeEnds(s, key, a, r)
    ensures r < |s| && (s[r].Full? ==> s[r].key == key)
  {
  }

  lemma MapsAt<V>(s: seq<Slot<V>>, i: nat)
    requires i < |s| && s[i].Full?
    ensures Maps(s, s[i].key, s[i].value)
  {
  }

  lemma InsertMaps<V(!new)>(s: seq<Slot<V>>, t: seq<Slot<V>>, r: nat, x: Slot<V>)
    requires r < |s| && s[r].Null? && x.Full? && t == s[r := x]
    ensures forall k, v :: Maps(t, k, v) <==> Maps(s, k, v) || (k == x.key && v == x.value)
  {
    forall k, v
      ensures Maps(t, k, v) <==> Maps(s, k, v) || (k == x.key && v == x.value)
    {
      if Maps(s, k, v) {
        var j :| 0 <= j < |s| && s[j].Full? && s[j].key == k && s[j].value == v;
        assert t[j] == s[j];
      }
      assert t[r] == x;
    }
  }

  lemma DeleteMaps<V(!new)>(s: seq<Slot<V>>, h: int -> nat, r: nat)
    requires Probed(s, h) && r < |s| && s[r].Full?
    ensures forall k, v :: Maps(s[r := Null], k, v) <==> Maps(s, k, v) && k != s[r].key
  {
    var t := s[r := Null];
    forall k, v
      ensures Maps(t, k, v) <==> Maps(s, k, v) && k != s[r].key
    {
      if Maps(s, k, v) && k != s[r].key {
        var j :| 0 <= j < |s| && s[j].Full? && s[j].key == k && s[j].value == v;
        assert t[j] == s[j];
      }
    }
  }

  lemma SameSelf<V(!new)>(s: seq<Slot<V>>)
    ensures SameEntries(s, s)
  {
  }

  lemma SameTrans<V(!new)>(s: seq<Slot<V>>, t: seq<Slot<V>>, u: seq<Slot<V>>)
    requires SameEntries(s, t) && SameEntries(t, u)
    ensures SameEntries(s, u)
  {
    forall x: Slot<V> | x.Full?
      ensures Has(s, x) <==> Has(u, x)
    {
      assert Has(t, x) <==> Has(u, x);
    }
  }

  lemma SameMaps<V(!new)>(s: seq<Slot<V>>, t: seq<Slot<V>>)
    requires SameEntries(s, t)
    ensures forall k, v :: Maps(s, k, v) <==> Maps(t, k, v)
  {
    forall k, v
      ensures Maps(s, k, v) <==> Maps(t, k, v)
    {
      if Maps(s, k, v) {
        var j :| 0 <= j < |s| && s[j].Full? && s[j].key == k && s[j].value == v;
        assert Has(s, s[j]) && Has(t, s[j]);
      }
      if Maps(t, k, v) {
        var j :| 0 <= j < |t| && t[j].Full? && t[j].key == k && t[j].value == v;
        assert Has(t, t[j]) && Has(s, t[j]);
      }
    }
  }

  lemma RepairBounds<V>(s: seq<Slot<V>>, h: int -> nat, hole: nat, at: nat, end: nat)
    requires Repairing(s, h, hole, at, end)
    ensures hole < |s| && at < |s| && end < |s| && s[hole].Null? && s[end].Null?
  {
  }

  lemma RepairHashes<V>(s: seq<Slot<V>>, h: int -> nat, hole: nat, at: nat, end: nat)
    requires Repairing(s, h, hole, at, end) && s[at].Full?
    ensures forall j :: 0 <= j < |s| && s[j].Full? && s[j].key == s[at].key ==> s[j].hash == s[at].hash
  {
  }

  /** The first null slot behind a full one. */
  lemma NextNull<V>(s: seq<Slot<V>>, hole: nat, e: nat) returns (end: nat)
    requires hole < |s| && e < |s| && s[hole].Full? && s[e].Null?
    ensures end < |s| && s[end].Null?
    ensures forall m: nat {:trigger FullAt(s, m)} :: m < |s| && 1 <= Dist(|s|, hole, m) < Dist(|s|, hole, end) ==> FullAt(s, m)
  {
    end := e;
    while exists m: nat {:trigger FullAt(s, m)} :: m < |s| && 1 <= Dist(|s|, hole, m) < Dist(|s|, hole, end) && !FullAt(s, m)
      invariant end < |s| && s[end].Null?
      decreases Dist(|s|, hole, end)
    {
      var m: nat :| m < |s| && 1 <= Dist(|s|, hole, m) < Dist(|s|, hole, end) && !FullAt(s, m);
      end := m;
    }
  }

  lemma NotMapped<V(!new)>(s: seq<Slot<V>>, key: int)
    requires forall v :: !Maps(s, key, v)
    ensures forall k, v :: Maps(s, k, v) ==> k != key
  {
  }
}
