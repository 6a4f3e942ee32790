/** How the invariants of the allocator survive the single stores and layout
    changes its operations are made of, and the sum of the free blocks. */
module TlsfFrames {
  import opened Sets
  import opened TlsfMapping
  import opened TlsfLayout
  import opened TlsfLists

  /** What a free block takes out of the pool. */
  function FreeCost(b: Blk): int {
    if b.free then b.size + BHDR_OVERHEAD else 0
  }

  /** The bytes of all free blocks, headers included. */
  ghost function FreeSum(blk: Layout): int
    decreases |blk|
  {
    if blk.Keys == {} then 0 else
      var k := Pick(blk.Keys);
      FreeCost(blk[k]) + FreeSum(blk - {k})
  }

  lemma {:induction false} FreeSumAt(blk: Layout, k: int)
    requires k in blk
    ensures FreeSum(blk) == FreeCost(blk[k]) + FreeSum(blk - {k})
    decreases |blk|
  {
    var j := Pick(blk.Keys);
    if j != k {
      FreeSumAt(blk - {j}, k);
      FreeSumAt(blk - {k}, j);
      assert (blk - {j}) - {k} == (blk - {k}) - {j};
    }
  }

  lemma FreeSumUpdate(blk: Layout, k: int, b: Blk)
    ensures FreeSum(blk[k := b]) == FreeSum(blk) - (if k in blk then FreeCost(blk[k]) else 0) + FreeCost(b)
  {
    FreeSumAt(blk[k := b], k);
    if k in blk {
      FreeSumAt(blk, k);
      assert blk[k := b] - {k} == blk - {k};
    } else {
      assert blk[k := b] - {k} == blk;
    }
  }

  lemma FreeSumSplit(blk: Layout, b: int, r: int, free: bool, free2: bool)
    requires b in blk && b + BHDR_OVERHEAD + r !in blk && r != -BHDR_OVERHEAD
    ensures FreeSum(Split(blk, b, r, free, free2)) == FreeSum(blk) - FreeCost(blk[b])
              + FreeCost(Blk(r, free)) + FreeCost(Blk(blk[b].size - r - BHDR_OVERHEAD, free2))
  {
    FreeSumUpdate(blk, b, Blk(r, free));
    FreeSumUpdate(blk[b := Blk(r, free)], b + BHDR_OVERHEAD + r, Blk(blk[b].size - r - BHDR_OVERHEAD, free2));
  }

  lemma FreeSumMerge(blk: Layout, b: int, free: bool)
    requires b in blk && Next(blk, b) in blk && Next(blk, b) != b
    ensures FreeSum(Merge(blk, b, free)) == FreeSum(blk) - FreeCost(blk[b]) - FreeCost(blk[Next(blk, b)])
              + FreeCost(Blk(blk[b].size + BHDR_OVERHEAD + blk[Next(blk, b)].size, free))
  {
    var n := Next(blk, b);
    FreeSumAt(blk, n);
    FreeSumUpdate(blk - {n}, b, Blk(blk[b].size + BHDR_OVERHEAD + blk[n].size, free));
  }

  /* Free lists */

  /** The list index does not change when the listed blocks do not. */
  lemma IndexedChange(lists: Lists, blk: Layout, blk': Layout, out: set<int>, out': set<int>)
    requires Indexed(lists, blk, out)
    requires forall x :: x in blk && blk[x].free && x !in out ==> x in blk' && blk'[x] == blk[x] && x !in out'
    requires forall x :: x in blk' && blk'[x].free && x !in out' ==> x in blk && blk'[x] == blk[x] && x !in out
    ensures Indexed(lists, blk', out')
  {
  }

  /** The links of the listed blocks survive when their words do. */
  lemma LinkedFrame(mem: Mem, mem': Mem, matrix: map<Class, int>, lists: Lists, s: set<int>)
    requires Linked(mem, matrix, lists)
    requires forall c, x :: IsClass(c) && c in lists && x in lists[c] ==> x in s
    requires forall x :: x in s && x + 16 in mem && x + 24 in mem ==>
               x + 16 in mem' && x + 24 in mem' && mem'[x + 16] == mem[x + 16] && mem'[x + 24] == mem[x + 24]
    ensures Linked(mem', matrix, lists)
  {
    forall c | IsClass(c)
      ensures Chain(mem', lists[c])
    {
      forall k | 0 <= k < |lists[c]|
        ensures LinksAt(mem', lists[c], k)
      {
        assert LinksAt(mem, lists[c], k) && lists[c][k] in lists[c];
        assert lists[c][k] in s;
      }
    }
  }

  /* Headers */

  lemma TagsKept(mem: Mem, mem': Mem, blk: Layout, first: int, end: int, x: int)
    requires TaggedBut(mem, blk, first, end, x) && Closed(blk, end) && first in blk
    requires forall a :: a in blk ==> SameHeader(mem, mem', a)
    ensures TaggedBut(mem', blk, first, end, x)
  {
    forall a | a in blk && a != x
      ensures TagOf(mem', a, blk[a])
    {
      assert TagOf(mem, a, blk[a]);
      assert SameHeader(mem, mem', a);
    }
    forall a | a in blk && a != end && a != x
      ensures SeesPrev(mem', Next(blk, a), a, blk[a].free)
    {
      assert SeesPrev(mem, Next(blk, a), a, blk[a].free);
      assert SameHeader(mem, mem', Next(blk, a));
    }
    assert SameHeader(mem, mem', first);
  }

  /* User data */

  /** Headers of blocks lie outside the buffers of blocks. */
  lemma HeaderOutside(blk: Layout, first: int, end: int, h: int)
    requires Tiled(blk, first, end) && h in blk
    ensures forall a :: a in blk ==> !(a + 16 <= h < a + 16 + blk[a].size) && !(a + 16 <= h + 8 < a + 16 + blk[a].size)
  {
    forall a | a in blk
      ensures !(a + 16 <= h < a + 16 + blk[a].size) && !(a + 16 <= h + 8 < a + 16 + blk[a].size)
    {
      if a != h {
        Apart(blk, first, end, a, h);
      }
    }
  }

  lemma KeptSame(mem: Mem, blk: Layout)
    ensures forall x :: Kept(mem, mem, blk, x)
  {
  }

  lemma KeptAlso(mem: Mem, mem': Mem, blk: Layout, x: int)
    requires Kept(mem, mem', blk, 0) && 0 !in blk
    ensures Kept(mem, mem', blk, x)
  {
  }

  lemma KeptTransitive(m0: Mem, m1: Mem, m2: Mem, blk: Layout, x: int)
    requires Kept(m0, m1, blk, x) && Kept(m1, m2, blk, x)
    ensures Kept(m0, m2, blk, x)
  {
  }
}
