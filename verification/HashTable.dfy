/** The integer hash table of the nodes (src/int-hash.lisp): open addressing with
    linear probing, and repair in place after a deletion. */
module IntHashTable {
  import opened Cyclic
  import opened HashShape
  import opened PowersOfTwo

  datatype Lookup = At(index: nat) | NoMore

  class Table<V(0,!new)> {
    const h: int -> nat
    const size: nat
    const mask: nat
    const items: array<Slot<V>>
    var count: nat

    ghost predicate Valid()
      reads this, items
    {
      && size >= 1 && items.Length == 2 * size && Masked() && count <= size
      && Probed(items[..], h) && |FullSlots(items[..])| == count
    }

    /** The number of slots is a power of two, and the mask is one less. */
    ghost predicate Masked() {
      IsPowerOfTwo(items.Length) && mask == items.Length - 1
    }

    /** make-int-hash-table: twice as many slots as entries. */
    constructor (h: int -> nat, n: nat)
      requires n >= 1
      ensures Valid() && fresh(items) && size == NextPowerOfTwo(n) && count == 0
      ensures forall key, value :: !Maps(items[..], key, value)
    {
      this.h := h;
      size := NextPowerOfTwo(n);
      mask := 2 * NextPowerOfTwo(n) - 1;
      items := new Slot<V>[2 * NextPowerOfTwo(n)](_ => Null);
      count := 0;
      new;
      assert FullSlots(items[..]) == {};
    }

    /** %index-for: linear probing from the home of the hash. */
    method IndexFor(hash: nat, key: int, ghost e: nat) returns (index: nat)
      requires Masked() && e < items.Length && items[e].Null?
      requires forall j :: 0 <= j < items.Length && items[j].Full? && items[j].key == key ==> items[j].hash == hash
      ensures ProbeEnds(items[..], key, Home(items.Length, hash), index)
    {
      hide IsPowerOfTwo, And;
      ghost var n: nat, a: nat := items.Length, Home(items.Length, hash);
      index := And(hash, mask);
      while items[index].Full? && !(hash == items[index].hash && key == items[index].key)
        invariant index < n && Dist(n, a, index) + Dist(n, index, e) == Dist(n, a, e)
        invariant Passed(items[..], key, a, index)
        decreases Dist(n, index, e)
      {
        NextDist(n, a, index, e);
        PassNext(items[..], key, a, index);
        Masks(n, index, hash);
        index := And(index + 1, mask);
      }
    }

    /** %getihash: a full table is searched from front to back. */
    method GetIHash(key: int) returns (r: Lookup)
      requires Valid()
      ensures r.NoMore? ==> count == size && forall value :: !Maps(items[..], key, value)
      ensures r.At? ==> r.index < items.Length && (items[r.index].Full? ==> items[r.index].key == key)
      ensures r.At? && items[r.index].Null? ==> count < size && forall value :: !Maps(items[..], key, value)
      ensures r.At? ==> ProbeEnds(items[..], key, Home(items.Length, h(key)), r.index)
    {
      hide Probed, FullSlots, Home, ProbeEnds;
      if count == size {
        var i := 0;
        while i < items.Length && !(items[i].Full? && items[i].key == key)
          invariant i <= items.Length
          invariant forall j :: 0 <= j < i && items[j].Full? ==> items[j].key != key
        {
          i := i + 1;
        }
        if i == items.Length {
          r := NoMore;
        } else {
          r := At(i);
          FoundProbe(items[..], h, i);
        }
      } else {
        ghost var e: nat := SomeNull(items[..]);
        HashesMatch(items[..], h, key);
        var index: nat := IndexFor(h(key), key, e);
        r := At(index);
        EndsInside(items[..], key, Home(items.Length, h(key)), index);
        if items[index].Null? {
          ProbeMisses(items[..], h, key, index);
        }
      }
    }

    /** A new entry, at the place that %getihash found for its key. A full table
        takes none. */
    method Insert(key: int, value: V) returns (ok: bool)
      requires Valid()
      modifies this`count, items
      ensures Valid()
      ensures ok <==> old(count) < size && forall v :: !Maps(old(items[..]), key, v)
      ensures forall k, v :: Maps(items[..], k, v) <==> Maps(old(items[..]), k, v) || (ok && k == key && v == value)
      ensures count == old(count) + if ok then 1 else 0
    {
      hide Probed, FullSlots, Home, ProbeEnds, Maps;
      var r := GetIHash(key);
      ok := count < size && r.At? && items[r.index].Null?;
      if ok {
        ghost var s := items[..];
        var index: nat := r.index;
        var item := Full(key, h(key), value);
        InsertProbed(s, h, key, value, index);
        CountInsert(s, index, item);
        items[index] := item;
        count := count + 1;
        assert items[..] == s[index := item];
        InsertMaps(s, items[..], index, item);
      } else {
        if r.At? && items[r.index].Full? {
          MapsAt(items[..], r.index);
        }
        assert items[..] == old(items[..]);
      }
    }

    /** %fix-collisions-from: the entries behind the nulled slot are probed again,
        up to the next null slot. */
    method FixCollisionsFrom(key: nat, ghost end: nat)
      requires Masked() && key < items.Length && Repairing(items[..], h, key, Next(items.Length, key), end)
      modifies items
      ensures Probed(items[..], h) && |FullSlots(items[..])| == old(|FullSlots(items[..])|)
      ensures SameEntries(old(items[..]), items[..])
    {
      hide Repairing, Probed, FullSlots, SameEntries, ProbeEnds, Home, IsPowerOfTwo, And;
      RepairBounds(items[..], h, key, Next(items.Length, key), end);
      Masks(items.Length, key, 0);
      var oldKey: nat := And(key + 1, mask);
      ghost var hole: nat := key;
      SameSelf(items[..]);
      while items[oldKey].Full?
        invariant hole < items.Length && oldKey < items.Length && end < items.Length
        invariant Repairing(items[..], h, hole, oldKey, end)
        invariant |FullSlots(items[..])| == old(|FullSlots(items[..])|)
        invariant SameEntries(old(items[..]), items[..])
        decreases Dist(items.Length, oldKey, end)
      {
        ghost var s := items[..];
        var item := items[oldKey];
        RepairBounds(s, h, hole, oldKey, end);
        RepairHashes(s, h, hole, oldKey, end);
        var newKey: nat := IndexFor(item.hash, item.key, end);
        RepairFinds(s, h, hole, oldKey, end, newKey);
        if oldKey != newKey {
          RepairMove(s, h, hole, oldKey, end);
          CountMove(s, oldKey, hole);
          MoveEntries(s, oldKey, hole);
          SameTrans(old(items[..]), s, s[oldKey := s[hole]][hole := s[oldKey]]);
          items[oldKey] := items[newKey];
          items[newKey] := item;
          assert items[..] == s[oldKey := s[hole]][hole := s[oldKey]];
          hole := oldKey;
        } else {
          RepairStay(s, h, hole, oldKey, end);
        }
        NextDist(items.Length, oldKey, oldKey, end);
        Masks(items.Length, oldKey, 0);
        oldKey := And(oldKey + 1, mask);
      }
      RepairEnd(items[..], h, hole, oldKey, end);
    }

    /** Freeing an entry: its slot becomes null, and the entries behind it are
        repaired. The table stands for the old map minus the key, and every other
        key is found by probing. */
    method Remove(key: int) returns (found: bool)
      requires Valid()
      modifies this`count, items
      ensures Valid()
      ensures found <==> exists v :: Maps(old(items[..]), key, v)
      ensures forall k, v :: Maps(items[..], k, v) <==> Maps(old(items[..]), k, v) && k != key
      ensures count == old(count) - if found then 1 else 0
    {
      hide Probed, FullSlots, Home, ProbeEnds, Maps, Repairing, SameEntries;
      var r := GetIHash(key);
      found := r.At? && items[r.index].Full?;
      if found {
        ghost var s := items[..];
        MapsAt(s, r.index);
        var index: nat := r.index;
        ghost var e: nat := SomeNull(s);
        ghost var end: nat := NextNull(s, index, e);
        RepairStart(s, h, index, end);
        CountDelete(s, index);
        DeleteMaps(s, h, index);
        items[index] := Null;
        assert items[..] == s[index := Null];
        count := count - 1;
        FixCollisionsFrom(index, end);
        SameMaps(s[index := Null], items[..]);
      } else {
        NotMapped(items[..], key);
      }
    }
  }
}
