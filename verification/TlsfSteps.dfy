/** What one split, merge or release does to the boundary tags, the free lists
    and the user data: the value-level core of the allocator's operations. */
module TlsfSteps {
  import opened Numbers
  import opened TlsfMapping
  import opened TlsfLayout
  import opened TlsfLists
  import opened TlsfFrames

  /** Writing a header word leaves the free lists alone. */
  lemma HeaderStoreLinked(mem: Mem, matrix: map<Class, int>, lists: Lists, keys: set<int>, h: int, w: int, v: Word)
    requires Linked(mem, matrix, lists) && Spaced(keys) && h in keys && (w == h || w == h + 8)
    requires forall c, x :: IsClass(c) && c in lists && x in lists[c] ==> x in keys
    ensures Linked(mem[w := v], matrix, lists)
  {
    LinkedFrame(mem, mem[w := v], matrix, lists, keys);
  }

  /** Writing a header word leaves user data alone. */
  lemma HeaderStoreKept(mem: Mem, blk: Layout, first: int, end: int, h: int, w: int, v: Word)
    requires Tiled(blk, first, end) && h in blk && (w == h || w == h + 8)
    ensures Kept(mem, mem[w := v], blk, 0)
  {
    HeaderOutside(blk, first, end, h);
  }

  /** Data kept with respect to one layout is kept with respect to another one
      whose live blocks, x apart, are live in the first. */
  lemma KeptLift(mem: Mem, mem': Mem, blk: Layout, blk': Layout, end: int, x: int)
    requires Kept(mem, mem', blk', 0) && 0 !in blk && end in blk && blk[end].size == 0
    requires forall a :: a in Live(blk, end) && a != x ==> a in Live(blk', end) && Live(blk', end)[a] == blk[a].size
    ensures Kept(mem, mem', blk, x)
  {
    forall a, w | a in blk && !blk[a].free && a != x && a + 16 <= w < a + 16 + blk[a].size && w in mem
      ensures w in mem' && mem'[w] == mem[w]
    {
      assert a in Live(blk, end);
    }
  }

  /** A header of the layout lies in memory. */
  lemma HeaderInMemory(mem: Mem, blk: Layout, first: int, end: int, a: int)
    requires Tiled(blk, first, end) && Covered(mem, first, end) && a in blk
    ensures a in mem && a + 8 in mem
    ensures a != end ==> a + 16 in mem && a + 24 in mem
  {
    SizeBound(blk, first, end, a);
  }

  /* Splitting a block */

  /** The headers after the first r bytes of block b have become a used block
      and the rest a free one; n is the block after b. */
  ghost predicate SplitStored(mem: Mem, mem': Mem, blk: Layout, b: int, r: int, n: int) {
    var b2 := b + BHDR_OVERHEAD + r;
    && b in blk && b + 8 in mem && mem[b + 8].Tag? && n + 8 in mem && mem[n + 8].Tag?
    && (forall a :: a in blk && a != b && a != n ==> SameHeader(mem, mem', a))
    && b + 8 in mem' && mem'[b + 8] == Tag(r, false, mem[b + 8].prevFree)
    && (b in mem ==> b in mem' && mem'[b] == mem[b])
    && b2 + 8 in mem' && mem'[b2 + 8] == Tag(blk[b].size - r - BHDR_OVERHEAD, true, false)
    && n + 8 in mem' && mem'[n + 8] == mem[n + 8].(prevFree := true)
    && n in mem' && mem'[n] == Ptr(b2)
  }

  lemma SplitTags(mem: Mem, mem': Mem, blk: Layout, b: int, r: int, n: int)
    requires b in blk && n in blk && n != b && n != b + BHDR_OVERHEAD + r && r != -BHDR_OVERHEAD
    requires forall a :: a in blk && a != b ==> TagOf(mem, a, blk[a])
    requires SplitStored(mem, mem', blk, b, r, n)
    ensures forall a :: a in Split(blk, b, r, false, true) ==> TagOf(mem', a, Split(blk, b, r, false, true)[a])
  {
    var blk' := Split(blk, b, r, false, true);
    var b2 := b + BHDR_OVERHEAD + r;
    forall a | a in blk'
      ensures TagOf(mem', a, blk'[a])
    {
      if a != b2 && a != b {
        assert TagOf(mem, a, blk[a]);
        assert a != n ==> SameHeader(mem, mem', a);
      }
    }
  }

  /** Blocks other than b are still seen by their successors. */
  lemma SplitSeen(mem: Mem, mem': Mem, blk: Layout, first: int, end: int, b: int, r: int, n: int, a: int)
    requires Tiled(blk, first, end) && b in blk && b != end && n == Next(blk, b)
    requires a in blk && a != end && a != b && SeesPrev(mem, Next(blk, a), a, blk[a].free)
    requires SplitStored(mem, mem', blk, b, r, n)
    ensures SeesPrev(mem', Next(blk, a), a, blk[a].free)
  {
    Apart(blk, first, end, a, b);
    assert Next(blk, a) in blk && Next(blk, a) != n;
    assert Next(blk, a) != b ==> SameHeader(mem, mem', Next(blk, a));
  }

  /** Cutting a used block off a free one keeps the tags true. */
  lemma SplitTagged(mem: Mem, mem': Mem, blk: Layout, first: int, end: int, b: int, r: int)
    requires Tiled(blk, first, end) && b in blk && b != end
    requires MIN_BLOCK_SIZE <= r && r + BHDR_SIZE <= blk[b].size
    requires TaggedBut(mem, blk, first, end, b)
    requires SplitStored(mem, mem', blk, b, r, Next(blk, b))
    ensures Tagged(mem', Split(blk, b, r, false, true), first, end)
  {
    var n := Next(blk, b);
    assert first < n && n in blk;
    SplitTags(mem, mem', blk, b, r, n);
    SplitFirst(mem, mem', blk, first, b, r, n);
    forall a | a in blk && a != end && a != b
      ensures SeesPrev(mem', Next(blk, a), a, blk[a].free)
    {
      SplitSeen(mem, mem', blk, first, end, b, r, n, a);
    }
    SplitSees(mem, mem', blk, end, b, r, n);
    NotSentinel(mem', Split(blk, b, r, false, true), first, end);
  }

  lemma SplitSees(mem: Mem, mem': Mem, blk: Layout, end: int, b: int, r: int, n: int)
    requires b in blk && n == Next(blk, b) && r >= 0 && b + BHDR_OVERHEAD + r !in blk
    requires forall a {:trigger Next(blk, a)} :: a in blk && a != end && a != b ==> SeesPrev(mem', Next(blk, a), a, blk[a].free)
    requires SplitStored(mem, mem', blk, b, r, n)
    ensures var blk' := Split(blk, b, r, false, true);
            forall a {:trigger Next(blk', a)} :: a in blk' && a != end ==> SeesPrev(mem', Next(blk', a), a, blk'[a].free)
  {
    var blk' := Split(blk, b, r, false, true);
    assert Next(blk', b + BHDR_OVERHEAD + r) == n;
    assert forall a :: a in blk && a != b ==> Next(blk', a) == Next(blk, a);
  }

  /** With every successor informed, the tags are true. */
  lemma NotSentinel(mem: Mem, blk: Layout, first: int, end: int)
    requires forall a :: a in blk ==> TagOf(mem, a, blk[a])
    requires first + 8 in mem && mem[first + 8].Tag? && !mem[first + 8].prevFree
    requires forall a {:trigger Next(blk, a)} :: a in blk && a != end ==> SeesPrev(mem, Next(blk, a), a, blk[a].free)
    ensures Tagged(mem, blk, first, end)
  {
  }

  lemma SplitFirst(mem: Mem, mem': Mem, blk: Layout, first: int, b: int, r: int, n: int)
    requires SplitStored(mem, mem', blk, b, r, n) && first in blk && first != n
    requires first + 8 in mem && mem[first + 8].Tag? && !mem[first + 8].prevFree
    ensures first + 8 in mem' && mem'[first + 8].Tag? && !mem'[first + 8].prevFree
  {
    assert first != b ==> SameHeader(mem, mem', first);
  }

  lemma SplitCoalesced(blk: Layout, first: int, end: int, b: int, r: int)
    requires Tiled(blk, first, end) && b in blk && b != end
    requires MIN_BLOCK_SIZE <= r && r + BHDR_SIZE <= blk[b].size
    requires forall a {:trigger Next(blk, a)} :: a in blk && a != end && a != b && Next(blk, a) != b && Next(blk, a) in blk ==>
               !(blk[a].free && blk[Next(blk, a)].free)
    requires !blk[Next(blk, b)].free
    ensures Coalesced(Split(blk, b, r, false, true), end)
  {
    var blk' := Split(blk, b, r, false, true);
    var b2 := b + BHDR_OVERHEAD + r;
    SplitTiles(blk, first, end, b, r, false, true);
    forall a | a in blk' && a != end && Next(blk', a) in blk'
      ensures !(blk'[a].free && blk'[Next(blk', a)].free)
    {
      if a == b2 {
        assert Next(blk', a) == Next(blk, b) && Next(blk, b) != b2;
      } else if a != b {
        assert Next(blk', a) == Next(blk, a) && Next(blk, a) in blk;
        assert Next(blk, a) != b2;
      }
    }
  }

  lemma SplitIndexed(lists: Lists, blk: Layout, b: int, r: int, out: set<int>)
    requires Indexed(lists, blk, out + {b}) && b in blk
    requires b + BHDR_OVERHEAD + r !in blk && r >= 0
    ensures Indexed(lists, Split(blk, b, r, false, true), out + {b + BHDR_OVERHEAD + r})
  {
    IndexedChange(lists, blk, Split(blk, b, r, false, true), out + {b}, out + {b + BHDR_OVERHEAD + r});
  }

  /* Relabelling and merging */

  lemma RelabelIndexed(lists: Lists, blk: Layout, b: int, out: set<int>)
    requires Indexed(lists, blk, out + {b}) && b in blk && b !in out
    ensures Indexed(lists, blk[b := Blk(blk[b].size, false)], out)
  {
    IndexedChange(lists, blk, blk[b := Blk(blk[b].size, false)], out + {b}, out);
  }

  lemma ReleaseIndexed(lists: Lists, blk: Layout, b: int, out: set<int>)
    requires Indexed(lists, blk, out) && b in blk && !blk[b].free
    ensures Indexed(lists, blk[b := Blk(blk[b].size, true)], out + {b})
  {
    IndexedChange(lists, blk, blk[b := Blk(blk[b].size, true)], out, out + {b});
  }

  /** Two unlisted blocks joined into one. */
  lemma MergeIndexed(lists: Lists, blk: Layout, b: int, free: bool, out: set<int>)
    requires b in blk && Next(blk, b) in blk && Next(blk, b) != b
    requires Indexed(lists, blk, out)
    requires (blk[b].free ==> b in out) && (blk[Next(blk, b)].free ==> Next(blk, b) in out)
    ensures Indexed(lists, Merge(blk, b, free), out - {b, Next(blk, b)} + if free then {b} else {})
  {
    IndexedChange(lists, blk, Merge(blk, b, free), out,
                  out - {b, Next(blk, b)} + if free then {b} else {});
  }

  lemma RelabelTaggedBut(mem: Mem, blk: Layout, first: int, end: int, x: int, free: bool)
    requires TaggedBut(mem, blk, first, end, x) && x in blk
    ensures TaggedBut(mem, blk[x := Blk(blk[x].size, free)], first, end, x)
  {
    var blk' := blk[x := Blk(blk[x].size, free)];
    assert forall a :: a in blk ==> Next(blk', a) == Next(blk, a);
  }

  lemma TaggedWeaken(mem: Mem, blk: Layout, first: int, end: int, x: int)
    requires Tagged(mem, blk, first, end) && Tiled(blk, first, end)
    ensures TaggedBut(mem, blk, first, end, x)
  {
  }

  /** Joining block m with its successor, when the untold block is one of them. */
  lemma MergeTaggedBut(mem: Mem, blk: Layout, first: int, end: int, x: int, m: int, free: bool)
    requires TaggedBut(mem, blk, first, end, x)
    requires m in blk && Next(blk, m) in blk && Next(blk, m) != m && (x == m || x == Next(blk, m))
    ensures TaggedBut(mem, Merge(blk, m, free), first, end, m)
  {
    var blk' := Merge(blk, m, free);
    assert forall a :: a in blk' && a != m ==> a in blk && blk'[a] == blk[a] && Next(blk', a) == Next(blk, a);
  }

  /** The stores an operation makes around block x: the size and free bit of x,
      and what its successor n says about it. */
  ghost predicate Touched(mem: Mem, mem': Mem, blk: Layout, x: int, n: int) {
    && (forall a :: a in blk && a != x && a != n ==> SameHeader(mem, mem', a))
    && x + 8 in mem && mem[x + 8].Tag? && x + 8 in mem' && mem'[x + 8].Tag? && mem'[x + 8].prevFree == mem[x + 8].prevFree
    && (x in mem ==> x in mem' && mem'[x] == mem[x])
    && n + 8 in mem && mem[n + 8].Tag? && n + 8 in mem' && mem'[n + 8].Tag?
    && mem'[n + 8].size == mem[n + 8].size && mem'[n + 8].isFree == mem[n + 8].isFree
  }

  lemma TouchSeen(mem: Mem, mem': Mem, blk: Layout, first: int, end: int, x: int, n: int, a: int)
    requires Tiled(blk, first, end) && x in blk && x != end && n == Next(blk, x)
    requires a in blk && a != end && a != x && SeesPrev(mem, Next(blk, a), a, blk[a].free)
    requires Touched(mem, mem', blk, x, n)
    ensures SeesPrev(mem', Next(blk, a), a, blk[a].free)
  {
    Apart(blk, first, end, a, x);
    assert Next(blk, a) in blk && Next(blk, a) != n;
    assert Next(blk, a) != x ==> SameHeader(mem, mem', Next(blk, a));
  }

  lemma TouchTags(mem: Mem, mem': Mem, blk: Layout, first: int, x: int, n: int)
    requires forall a :: a in blk && a != x ==> TagOf(mem, a, blk[a])
    requires first + 8 in mem && mem[first + 8].Tag? && !mem[first + 8].prevFree
    requires Touched(mem, mem', blk, x, n) && first in blk && first != n
    ensures forall a :: a in blk && a != x ==> TagOf(mem', a, blk[a])
    ensures first + 8 in mem' && mem'[first + 8].Tag? && !mem'[first + 8].prevFree
  {
    forall a | a in blk && a != x
      ensures TagOf(mem', a, blk[a])
    {
      assert TagOf(mem, a, blk[a]);
      assert a != n ==> SameHeader(mem, mem', a);
    }
    assert first != x ==> SameHeader(mem, mem', first);
  }

  /** Once x has its tag and its successor has been told, all tags are true. */
  lemma TouchTagged(mem: Mem, mem': Mem, blk: Layout, first: int, end: int, x: int)
    requires Tiled(blk, first, end) && x in blk && x != end
    requires TaggedBut(mem, blk, first, end, x)
    requires Touched(mem, mem', blk, x, Next(blk, x))
    requires TagOf(mem', x, blk[x]) && SeesPrev(mem', Next(blk, x), x, blk[x].free)
    ensures Tagged(mem', blk, first, end)
  {
    var n := Next(blk, x);
    assert first < n;
    TouchTags(mem, mem', blk, first, x, n);
    forall a | a in blk && a != end && a != x
      ensures SeesPrev(mem', Next(blk, a), a, blk[a].free)
    {
      TouchSeen(mem, mem', blk, first, end, x, n, a);
    }
    NotSentinel(mem', blk, first, end);
  }

  /* The stores of one split */

  /** Memory once the rest of block b has its size word and its successor its
      prev_hdr. */
  function SplitMem(mem: Mem, b2: int, size2: int, n: int): Mem {
    mem[b2 + 8 := Tag(size2, true, false)][n := Ptr(b2)]
  }

  /** What holds before the rest of a split block is listed. */
  lemma BeforeListing(mem: Mem, matrix: map<Class, int>, lists: Lists, blk: Layout, first: int, end: int,
                      b: int, r: int)
    requires Tiled(blk, first, end) && Covered(mem, first, end) && b in blk && b != end
    requires MIN_BLOCK_SIZE <= r && r + BHDR_SIZE <= blk[b].size
    requires Linked(mem, matrix, lists) && Indexed(lists, blk, {b})
    ensures var blk' := Split(blk, b, r, false, true);
            var b2, n := b + BHDR_OVERHEAD + r, Next(blk, b);
            && Linked(SplitMem(mem, b2, blk'[b2].size, n), matrix, lists)
            && Indexed(lists, blk', {b2}) && Tiled(blk', first, end)
            && b2 + 8 in mem && b2 + 16 in mem && b2 + 24 in mem && n in mem && b + 8 in mem
            && IsClass(ClassOf(blk'[b2].size)) && ClassOf(blk'[b2].size) == MappingInsert(blk'[b2].size)
            && b in blk' && n in blk' && b2 in blk' && b != b2 && b != n && blk'[b2] == Blk(blk[b].size - r - BHDR_OVERHEAD, true)
  {
    hide Linked, Indexed, ClassOf, MappingInsert;
    var blk' := Split(blk, b, r, false, true);
    var b2, n := b + BHDR_OVERHEAD + r, Next(blk, b);
    SplitTiles(blk, first, end, b, r, false, true);
    TiledSpaced(blk', first, end);
    assert {} + {b} == {b} && {} + {b2} == {b2};
    SplitIndexed(lists, blk, b, r, {});
    ListedBlocks(lists, blk', {b2});
    HeaderStoreLinked(mem, matrix, lists, blk'.Keys, b2, b2 + 8, Tag(blk'[b2].size, true, false));
    HeaderStoreLinked(mem[b2 + 8 := Tag(blk'[b2].size, true, false)], matrix, lists, blk'.Keys, n, n, Ptr(b2));
    HeaderInMemory(mem, blk', first, end, b2);
    HeaderInMemory(mem, blk', first, end, n);
    HeaderInMemory(mem, blk', first, end, b);
    SizeBound(blk', first, end, b2);
    ClassOfSize(blk'[b2].size);
  }

  lemma ClassOfSize(s: int)
    requires 0 <= s < MAX_AREA
    ensures IsClass(ClassOf(s)) && ClassOf(s) == MappingInsert(s)
  {
    InsertClass(s);
  }

  /** What holds once the rest is listed and block b has its size word. */
  lemma AfterListing(mem: Mem, mem1: Mem, mem2: Mem, mem3: Mem, matrix: map<Class, int>, lists: Lists,
                     blk: Layout, blk': Layout, first: int, end: int, b: int, r: int)
    requires Tiled(blk, first, end) && Covered(mem, first, end) && b in blk && b != end
    requires MIN_BLOCK_SIZE <= r && r + BHDR_SIZE <= blk[b].size
    requires TaggedBut(mem, blk, first, end, b) && b + 8 in mem && mem[b + 8].Tag?
    requires var n := Next(blk, b);
             && n + 8 in mem && mem[n + 8].Tag? && mem[n + 8].prevFree
             && mem1 == SplitMem(mem, b + BHDR_OVERHEAD + r, blk[b].size - r - BHDR_OVERHEAD, n)
    requires blk' == Split(blk, b, r, false, true)
    requires Undisturbed(mem1, mem2, blk') && Linked(mem2, matrix, lists) && Indexed(lists, blk', {})
    requires mem3 == mem2[b + 8 := Tag(r, false, mem[b + 8].prevFree)]
    ensures Covered(mem3, first, end)
    ensures Linked(mem3, matrix, lists)
    ensures Tagged(mem3, blk', first, end)
    ensures Kept(mem, mem3, blk', 0)
  {
    hide Linked, Indexed, Kept, TaggedBut, Closed, Disjoint;
    var v := Tag(r, false, mem[b + 8].prevFree);
    SplitTiles(blk, first, end, b, r, false, true);
    TiledSpaced(blk', first, end);
    ListedBlocks(lists, blk', {});
    HeaderStoreLinked(mem2, matrix, lists, blk'.Keys, b, b + 8, v);
    SplitRetagged(mem, mem2, mem3, blk, first, end, b, r);
    SplitKept(mem, mem2, mem3, blk, first, end, b, r, v);
  }

  /** Listing the rest leaves the tag of block b alone. */
  lemma ListingKeepsTag(mem: Mem, mem1: Mem, mem2: Mem, blk: Layout, first: int, end: int,
                        b: int, b2: int, size2: int, n: int)
    requires Tiled(blk, first, end) && b in blk && b2 in blk && n in blk && b != b2 && b != n
    requires mem1 == SplitMem(mem, b2, size2, n) && Undisturbed(mem1, mem2, blk) && b + 8 in mem
    ensures b + 8 in mem2 && mem2[b + 8] == mem[b + 8]
  {
    Apart(blk, first, end, b, b2);
    Apart(blk, first, end, b, n);
    assert SameHeader(mem1, mem2, b);
  }

  lemma SplitRetagged(mem: Mem, mem2: Mem, mem3: Mem, blk: Layout, first: int, end: int, b: int, r: int)
    requires Tiled(blk, first, end) && b in blk && b != end
    requires MIN_BLOCK_SIZE <= r && r + BHDR_SIZE <= blk[b].size
    requires TaggedBut(mem, blk, first, end, b) && b + 8 in mem && mem[b + 8].Tag?
    requires var n := Next(blk, b); n + 8 in mem && mem[n + 8].Tag? && mem[n + 8].prevFree
    requires var blk' := Split(blk, b, r, false, true);
             var b2, n := b + BHDR_OVERHEAD + r, Next(blk, b);
             && Undisturbed(SplitMem(mem, b2, blk[b].size - r - BHDR_OVERHEAD, n), mem2, blk')
             && mem3 == mem2[b + 8 := Tag(r, false, mem[b + 8].prevFree)]
    ensures Tagged(mem3, Split(blk, b, r, false, true), first, end)
  {
    hide Kept, TaggedBut;
    var blk' := Split(blk, b, r, false, true);
    var b2, n := b + BHDR_OVERHEAD + r, Next(blk, b);
    SplitTiles(blk, first, end, b, r, false, true);
    TiledSpaced(blk', first, end);
    var mem1 := SplitMem(mem, b2, blk'[b2].size, n);
    SplitStores(mem, mem1, mem2, mem3, blk, b, r, n);
    SplitTagged(mem, mem3, blk, first, end, b, r);
  }

  lemma SplitStores(mem: Mem, mem1: Mem, mem2: Mem, mem3: Mem, blk: Layout, b: int, r: int, n: int)
    requires b in blk && n in blk && r >= 0
    requires var blk' := Split(blk, b, r, false, true);
             var b2 := b + BHDR_OVERHEAD + r;
             && Spaced(blk'.Keys) && n != b && n != b2 && b2 !in blk
             && mem1 == SplitMem(mem, b2, blk[b].size - r - BHDR_OVERHEAD, n)
             && (forall a :: a in blk' ==> SameHeader(mem1, mem2, a))
    requires b + 8 in mem && mem[b + 8].Tag? && n + 8 in mem && mem[n + 8].Tag? && mem[n + 8].prevFree
    requires mem3 == mem2[b + 8 := Tag(r, false, mem[b + 8].prevFree)]
    ensures SplitStored(mem, mem3, blk, b, r, n)
  {
    var blk' := Split(blk, b, r, false, true);
    var b2 := b + BHDR_OVERHEAD + r;
    forall a | a in blk && a != b && a != n
      ensures SameHeader(mem, mem3, a)
    {
      assert a in blk' && SameHeader(mem1, mem2, a);
      assert a in blk'.Keys && b in blk'.Keys && b2 in blk'.Keys && n in blk'.Keys;
    }
    assert SameHeader(mem1, mem2, b) && SameHeader(mem1, mem2, b2) && SameHeader(mem1, mem2, n);
    assert b in blk'.Keys && b2 in blk'.Keys && n in blk'.Keys;
  }

  /** The split leaves all user data outside block b alone. */
  lemma SplitKept(mem: Mem, mem2: Mem, mem3: Mem, blk: Layout, first: int, end: int, b: int, r: int, v: Word)
    requires Tiled(blk, first, end) && b in blk && b != end
    requires MIN_BLOCK_SIZE <= r && r + BHDR_SIZE <= blk[b].size
    requires var blk' := Split(blk, b, r, false, true);
             var b2, n := b + BHDR_OVERHEAD + r, Next(blk, b);
             && Kept(SplitMem(mem, b2, blk'[b2].size, n), mem2, blk', 0)
             && mem3 == mem2[b + 8 := v]
    ensures Kept(mem, mem3, Split(blk, b, r, false, true), 0)
  {
    var blk' := Split(blk, b, r, false, true);
    var b2, n := b + BHDR_OVERHEAD + r, Next(blk, b);
    SplitTiles(blk, first, end, b, r, false, true);
    assert b2 in blk' && n in blk' && b in blk';
    SplitMemKept(mem, blk', first, end, b2, blk'[b2].size, n);
    HeaderStoreKept(mem2, blk', first, end, b, b + 8, v);
    KeptTransitive(mem, SplitMem(mem, b2, blk'[b2].size, n), mem2, blk', 0);
    KeptTransitive(mem, mem2, mem3, blk', 0);
  }

  lemma SplitMemKept(mem: Mem, blk: Layout, first: int, end: int, b2: int, size2: int, n: int)
    requires Tiled(blk, first, end) && b2 in blk && n in blk
    ensures Kept(mem, SplitMem(mem, b2, size2, n), blk, 0)
  {
    HeaderStoreKept(mem, blk, first, end, b2, b2 + 8, Tag(size2, true, false));
    HeaderStoreKept(mem[b2 + 8 := Tag(size2, true, false)], blk, first, end, n, n, Ptr(b2));
    KeptTransitive(mem, mem[b2 + 8 := Tag(size2, true, false)], SplitMem(mem, b2, size2, n), blk, 0);
  }

  /* Releasing a block */

  /** No two adjacent free blocks, leaving aside the neighbours of block b. */
  ghost predicate CoalescedBut(blk: Layout, end: int, b: int) {
    forall a {:trigger Next(blk, a)} ::
      a in blk && a != end && a != b && Next(blk, a) != b && Next(blk, a) in blk ==>
        !(blk[a].free && blk[Next(blk, a)].free)
  }

  /** Block b is free but not yet listed, and its neighbours may be free too. */
  ghost predicate Loose(mem: Mem, blk: Layout, first: int, end: int, b: int) {
    && Tiled(blk, first, end) && Covered(mem, first, end) && b in blk && b != end && blk[b].free
    && TaggedBut(mem, blk, first, end, b) && TagOf(mem, b, blk[b]) && CoalescedBut(blk, end, b)
  }

  /** What a header says about the block after it. */
  lemma ReadNext(mem: Mem, blk: Layout, first: int, end: int, x: int, b: int)
    requires Tiled(blk, first, end) && TaggedBut(mem, blk, first, end, x)
    requires b in blk && b != end && (x == b || x != Next(blk, b))
    ensures var n := Next(blk, b);
            n in blk && n != b && n + 8 in mem && mem[n + 8].Tag? && mem[n + 8].isFree == blk[n].free
            && mem[n + 8].size == blk[n].size && (blk[n].free ==> n != end)
  {
    var n := Next(blk, b);
    assert n in blk && TagOf(mem, n, blk[n]);
  }

  /** What the header of b says about the block before it. */
  lemma ReadPrev(mem: Mem, blk: Layout, first: int, end: int, b: int)
    requires Tiled(blk, first, end) && TaggedBut(mem, blk, first, end, b) && b in blk && b != end
    ensures b + 8 in mem && mem[b + 8].Tag?
    ensures mem[b + 8].prevFree ==> b in mem && mem[b].Ptr?
    ensures mem[b + 8].prevFree ==> var p := mem[b].addr;
              p in blk && p != end && p < b && Next(blk, p) == b && blk[p].free && TagOf(mem, p, blk[p])
    ensures !mem[b + 8].prevFree ==> forall a :: a in blk && a != end && Next(blk, a) == b ==> !blk[a].free
  {
    if b != first {
      var p := Predecessor(blk, first, end, b);
      assert SeesPrev(mem, Next(blk, p), p, blk[p].free);
      assert TagOf(mem, p, blk[p]);
      forall a | a in blk && a != end && Next(blk, a) == b
        ensures a == p
      {
        if a != p {
          Apart(blk, first, end, a, p);
        }
      }
    } else {
      forall a | a in blk && a != end
        ensures Next(blk, a) != b
      {
        assert first <= a < Next(blk, a);
      }
    }
  }

  /** A free block that is listed is found in the class of its size. */
  lemma FindListed(lists: Lists, blk: Layout, first: int, end: int, out: set<int>, n: int)
    requires Tiled(blk, first, end) && Indexed(lists, blk, out) && n in blk && blk[n].free && n !in out
    ensures 0 <= blk[n].size < MAX_AREA
    ensures MappingInsert(blk[n].size) == ClassOf(blk[n].size)
    ensures IsClass(ClassOf(blk[n].size)) && ClassOf(blk[n].size) in lists && n in lists[ClassOf(blk[n].size)]
  {
    SizeBound(blk, first, end, n);
  }

  lemma MergeCoalesced(blk: Layout, first: int, end: int, b: int, m: int)
    requires Tiled(blk, first, end) && CoalescedBut(blk, end, b)
    requires m in blk && m != end && Next(blk, m) != end && (b == m || b == Next(blk, m))
    ensures CoalescedBut(Merge(blk, m, true), end, m)
  {
    var blk' := Merge(blk, m, true);
    var n := Next(blk, m);
    MergeTiles(blk, first, end, m, true);
    forall a | a in blk' && a != end && a != m && Next(blk', a) != m && Next(blk', a) in blk'
      ensures !(blk'[a].free && blk'[Next(blk', a)].free)
    {
      assert Next(blk', a) == Next(blk, a);
    }
  }

  /** The stores of one merge: block m takes over its successor n. */
  lemma MergeStored(mem: Mem, mem': Mem, blk: Layout, first: int, end: int, b: int, m: int)
    requires Tiled(blk, first, end) && TaggedBut(mem, blk, first, end, b)
    requires m in blk && m != end && Next(blk, m) != end && (b == m || b == Next(blk, m))
    requires m + 8 in mem && mem[m + 8].Tag?
    requires mem' == mem[m + 8 := mem[m + 8].(size := blk[m].size + blk[Next(blk, m)].size + BHDR_OVERHEAD, isFree := true)]
    ensures TaggedBut(mem', Merge(blk, m, true), first, end, m)
    ensures TagOf(mem', m, Merge(blk, m, true)[m])
  {
    var blk' := Merge(blk, m, true);
    MergeTaggedBut(mem, blk, first, end, b, m, true);
    MergeTiles(blk, first, end, m, true);
    OwnTagStore(mem, mem', blk', first, end, m, blk'[m].size, true);
  }

  /** Rewriting the tag of block x, its PREV_FREE bit apart. */
  lemma OwnTagStore(mem: Mem, mem': Mem, blk: Layout, first: int, end: int, x: int, s: int, f: bool)
    requires Tiled(blk, first, end) && TaggedBut(mem, blk, first, end, x) && x in blk && x != end
    requires x + 8 in mem && mem[x + 8].Tag?
    requires mem' == mem[x + 8 := Tag(s, f, mem[x + 8].prevFree)]
    ensures TaggedBut(mem', blk, first, end, x)
  {
    forall a | a in blk && a != x
      ensures SameHeader(mem, mem', a)
    {
      Apart(blk, first, end, a, x);
    }
    TouchTags(mem, mem', blk, first, x, end);
  }

  /** What survives when only list links have changed. */
  lemma UndisturbedTags(mem: Mem, mem': Mem, blk: Layout, first: int, end: int, x: int)
    requires Undisturbed(mem, mem', blk) && Tiled(blk, first, end)
    requires TaggedBut(mem, blk, first, end, x) && Covered(mem, first, end)
    ensures TaggedBut(mem', blk, first, end, x) && Covered(mem', first, end)
    ensures Kept(mem, mem', blk, 0)
    ensures forall a :: a in blk && TagOf(mem, a, blk[a]) ==> TagOf(mem', a, blk[a])
    ensures forall a :: a in blk && a + 8 in mem ==> a + 8 in mem' && mem'[a + 8] == mem[a + 8]
    ensures forall a :: a in blk && a in mem ==> a in mem' && mem'[a] == mem[a]
  {
    TagsKept(mem, mem', blk, first, end, x);
    forall a | a in blk
      ensures SameHeader(mem, mem', a)
    {
    }
  }

  /** The live allocations are the same when the used blocks are. */
  lemma LiveMerge(blk: Layout, end: int, m: int)
    requires m in blk && Next(blk, m) in blk && Next(blk, m) != m && blk[m].free && blk[Next(blk, m)].free
    ensures Live(Merge(blk, m, true), end) == Live(blk, end)
  {
  }

  /** Merging two free blocks: everything the release of a block relies on. */
  lemma Merged(mem: Mem, mem': Mem, matrix: map<Class, int>, lists: Lists, blk: Layout, first: int, end: int,
               b: int, m: int, out: set<int>)
    requires Tiled(blk, first, end) && TaggedBut(mem, blk, first, end, b) && Covered(mem, first, end)
    requires CoalescedBut(blk, end, b)
    requires m in blk && m != end && Next(blk, m) in blk && Next(blk, m) != end && (b == m || b == Next(blk, m))
    requires blk[m].free && blk[Next(blk, m)].free && out == {m, Next(blk, m)}
    requires Linked(mem, matrix, lists) && Indexed(lists, blk, out)
    requires m + 8 in mem && mem[m + 8].Tag?
    requires mem' == mem[m + 8 := mem[m + 8].(size := blk[m].size + blk[Next(blk, m)].size + BHDR_OVERHEAD, isFree := true)]
    ensures Loose(mem', Merge(blk, m, true), first, end, m)
    ensures Linked(mem', matrix, lists) && Indexed(lists, Merge(blk, m, true), {m})
    ensures Live(Merge(blk, m, true), end) == Live(blk, end)
    ensures FreeSum(Merge(blk, m, true)) == FreeSum(blk)
    ensures Kept(mem, mem', blk, 0)
  {
    hide Linked, Indexed, Kept, TaggedBut, CoalescedBut;
    var n := Next(blk, m);
    MergeTiles(blk, first, end, m, true);
    MergeStored(mem, mem', blk, first, end, b, m);
    MergeCoalesced(blk, first, end, b, m);
    MergeIndexed(lists, blk, m, true, out);
    assert out - {m, n} + {m} == {m};
    MergedMemory(mem, mem', matrix, lists, blk, first, end, m, out, mem'[m + 8]);
    LiveMerge(blk, end, m);
    FreeSumMerge(blk, m, true);
  }

  lemma MergedMemory(mem: Mem, mem': Mem, matrix: map<Class, int>, lists: Lists, blk: Layout, first: int, end: int,
                     m: int, out: set<int>, v: Word)
    requires Tiled(blk, first, end) && Covered(mem, first, end) && m in blk
    requires Linked(mem, matrix, lists) && Indexed(lists, blk, out)
    requires mem' == mem[m + 8 := v]
    ensures Linked(mem', matrix, lists) && Covered(mem', first, end) && Kept(mem, mem', blk, 0)
  {
    TiledSpaced(blk, first, end);
    ListedBlocks(lists, blk, out);
    HeaderStoreLinked(mem, matrix, lists, blk.Keys, m, m + 8, v);
    HeaderStoreKept(mem, blk, first, end, m, m + 8, v);
  }

  /** After taking over a free successor, the next block is used. */
  lemma NextIsUsed(blk: Layout, first: int, end: int, b: int)
    requires Tiled(blk, first, end) && CoalescedBut(blk, end, b)
    requires b in blk && b != end && Next(blk, b) != end && blk[Next(blk, b)].free
    ensures Next(Merge(blk, b, true), b) in Merge(blk, b, true)
    ensures !Merge(blk, b, true)[Next(Merge(blk, b, true), b)].free
  {
    var n := Next(blk, b);
    MergeTiles(blk, first, end, b, true);
    assert b < n < Next(blk, n);
  }

  /** Before a free predecessor takes block b over, its own predecessor is used. */
  lemma PrevIsUsed(blk: Layout, first: int, end: int, b: int, p: int)
    requires Tiled(blk, first, end) && CoalescedBut(blk, end, b)
    requires b in blk && b != end && p in blk && p != end && Next(blk, p) == b && blk[p].free
    requires !blk[Next(blk, b)].free
    ensures var blk' := Merge(blk, p, true);
            && Next(blk', p) == Next(blk, b) && Next(blk', p) in blk' && !blk'[Next(blk', p)].free
            && forall a :: a in blk' && a != end && Next(blk', a) == p ==> !blk'[a].free
  {
    var blk' := Merge(blk, p, true);
    MergeTiles(blk, first, end, p, true);
    forall a | a in blk' && a != end && Next(blk', a) == p
      ensures !blk'[a].free
    {
      assert a != p;
      assert Next(blk, a) == p;
    }
  }

  /** The last two stores of a release: the PREV_FREE bit and prev_hdr. */
  lemma SuccessorTold(mem: Mem, mem': Mem, matrix: map<Class, int>, lists: Lists, blk: Layout, first: int, end: int,
                      b: int, out: set<int>, v: Word)
    requires Tiled(blk, first, end) && Covered(mem, first, end) && b in blk && b != end && blk[b].free
    requires TaggedBut(mem, blk, first, end, b) && TagOf(mem, b, blk[b])
    requires Linked(mem, matrix, lists) && Indexed(lists, blk, out)
    requires var n := Next(blk, b);
             && n + 8 in mem && mem[n + 8].Tag? && v == mem[n + 8].(prevFree := true)
             && mem' == mem[n + 8 := v][n := Ptr(b)]
    ensures Tagged(mem', blk, first, end)
    ensures Linked(mem', matrix, lists) && Covered(mem', first, end) && Kept(mem, mem', blk, 0)
  {
    hide Linked, Indexed, Kept, TaggedBut;
    var n := Next(blk, b);
    var mem1 := mem[n + 8 := v];
    assert n in blk;
    MergedMemory(mem, mem1, matrix, lists, blk, first, end, n, out, v);
    PrevHdrStore(mem1, mem', matrix, lists, blk, first, end, n, out, Ptr(b));
    KeptTransitive(mem, mem1, mem', blk, 0);
    SuccessorTouched(mem, mem', blk, first, end, b, v);
    TouchTagged(mem, mem', blk, first, end, b);
  }

  lemma PrevHdrStore(mem: Mem, mem': Mem, matrix: map<Class, int>, lists: Lists, blk: Layout, first: int, end: int,
                     m: int, out: set<int>, v: Word)
    requires Tiled(blk, first, end) && Covered(mem, first, end) && m in blk
    requires Linked(mem, matrix, lists) && Indexed(lists, blk, out)
    requires mem' == mem[m := v]
    ensures Linked(mem', matrix, lists) && Covered(mem', first, end) && Kept(mem, mem', blk, 0)
  {
    TiledSpaced(blk, first, end);
    ListedBlocks(lists, blk, out);
    HeaderStoreLinked(mem, matrix, lists, blk.Keys, m, m, v);
    HeaderStoreKept(mem, blk, first, end, m, m, v);
  }

  lemma SuccessorTouched(mem: Mem, mem': Mem, blk: Layout, first: int, end: int, b: int, v: Word)
    requires Tiled(blk, first, end) && b in blk && b != end && TagOf(mem, b, blk[b])
    requires var n := Next(blk, b);
             && n + 8 in mem && mem[n + 8].Tag? && v == mem[n + 8].(prevFree := true)
             && mem' == mem[n + 8 := v][n := Ptr(b)]
    ensures Touched(mem, mem', blk, b, Next(blk, b))
    ensures TagOf(mem', b, blk[b]) && SeesPrev(mem', Next(blk, b), b, true)
  {
    var n := Next(blk, b);
    assert n in blk;
    Apart(blk, first, end, b, n);
    forall a | a in blk && a != b && a != n
      ensures SameHeader(mem, mem', a)
    {
      Apart(blk, first, end, a, n);
    }
  }

  lemma IsCoalesced(blk: Layout, end: int, b: int)
    requires CoalescedBut(blk, end, b) && b in blk
    requires Next(blk, b) in blk && !blk[Next(blk, b)].free
    requires forall a :: a in blk && a != end && Next(blk, a) == b ==> !blk[a].free
    ensures Coalesced(blk, end)
  {
  }

  /** Clearing the links of an unlisted block. */
  lemma OwnLinksStore(mem: Mem, mem': Mem, matrix: map<Class, int>, lists: Lists, blk: Layout, first: int, end: int,
                      out: set<int>, b: int)
    requires Tiled(blk, first, end) && Covered(mem, first, end) && b in blk && b != end
    requires Linked(mem, matrix, lists) && Indexed(lists, blk, out) && (blk[b].free ==> b in out)
    requires mem' == mem[b + 16 := Ptr(0)][b + 24 := Ptr(0)]
    ensures Linked(mem', matrix, lists) && Covered(mem', first, end) && Kept(mem, mem', blk, b)
    ensures forall a :: a in blk ==> SameHeader(mem, mem', a)
  {
    hide Kept, Linked, Indexed, Tiled, SameHeader;
    OwnLinksHeaders(mem, mem', blk, first, end, b);
    OthersSpaced(blk, first, end, b);
    OwnLinksLinked(mem, mem', matrix, lists, blk, out, b);
    OwnLinksKept(mem, mem', blk, b);
  }

  lemma OwnLinksLinked(mem: Mem, mem': Mem, matrix: map<Class, int>, lists: Lists, blk: Layout, out: set<int>, b: int)
    requires Linked(mem, matrix, lists) && Indexed(lists, blk, out) && b in blk && (blk[b].free ==> b in out)
    requires forall a :: a in blk && a != b ==> a + 32 <= b || b + 32 <= a
    requires mem' == mem[b + 16 := Ptr(0)][b + 24 := Ptr(0)]
    ensures Linked(mem', matrix, lists)
  {
    hide Linked;
    ListedBlocks(lists, blk, out);
    LinkedFrame(mem, mem', matrix, lists, blk.Keys - {b});
  }

  lemma OthersSpaced(blk: Layout, first: int, end: int, b: int)
    requires Tiled(blk, first, end) && b in blk
    ensures forall a :: a in blk && a != b ==> a + 32 <= b || b + 32 <= a
    ensures b != end ==> forall a :: a in blk && a != b ==> Next(blk, a) <= b || b + 32 <= a
  {
    TiledSpaced(blk, first, end);
    if b != end {
      forall a | a in blk && a != b
        ensures Next(blk, a) <= b || b + 32 <= a
      {
        Apart(blk, first, end, a, b);
      }
    }
  }

  lemma OwnLinksHeaders(mem: Mem, mem': Mem, blk: Layout, first: int, end: int, b: int)
    requires Tiled(blk, first, end) && b in blk && b != end
    requires mem' == mem[b + 16 := Ptr(0)][b + 24 := Ptr(0)]
    ensures forall a :: a in blk ==> SameHeader(mem, mem', a)
  {
    TiledSpaced(blk, first, end);
    hide Tiled;
    forall a | a in blk
      ensures SameHeader(mem, mem', a)
    {
      assert a in blk.Keys && b in blk.Keys;
    }
  }

  lemma OwnLinksKept(mem: Mem, mem': Mem, blk: Layout, b: int)
    requires b in blk && forall a :: a in blk && a != b ==> Next(blk, a) <= b || b + 32 <= a
    requires mem' == mem[b + 16 := Ptr(0)][b + 24 := Ptr(0)]
    ensures Kept(mem, mem', blk, b)
  {
    forall a, w | a in blk && !blk[a].free && a != b && a + 16 <= w < a + 16 + blk[a].size && w in mem
      ensures w in mem' && mem'[w] == mem[w]
    {
      assert Next(blk, a) <= b || b + 32 <= a;
    }
  }

  /** free_ex, first part: the block is marked free and its links are cleared. */
  lemma MarkedFree(mem: Mem, mem1: Mem, mem2: Mem, matrix: map<Class, int>, lists: Lists, blk: Layout,
                   first: int, end: int, b: int)
    requires Tiled(blk, first, end) && Covered(mem, first, end) && b in blk && b != end && !blk[b].free
    requires TaggedBut(mem, blk, first, end, b) && Coalesced(blk, end) && TagOf(mem, b, blk[b])
    requires Linked(mem, matrix, lists) && Indexed(lists, blk, {})
    requires mem1 == mem[b + 8 := mem[b + 8].(isFree := true)]
    requires mem2 == mem1[b + 16 := Ptr(0)][b + 24 := Ptr(0)]
    ensures Loose(mem2, blk[b := Blk(blk[b].size, true)], first, end, b)
    ensures Linked(mem2, matrix, lists) && Indexed(lists, blk[b := Blk(blk[b].size, true)], {b})
    ensures Kept(mem, mem2, blk, b)
  {
    hide Linked, Indexed, Kept, Covered;
    var blk' := blk[b := Blk(blk[b].size, true)];
    Relabelled(blk, first, end, b, true);
    ReleaseIndexed(lists, blk, b, {});
    assert {} + {b} == {b};
    MergedMemory(mem, mem1, matrix, lists, blk, first, end, b, {}, mem1[b + 8]);
    OwnLinksStore(mem1, mem2, matrix, lists, blk, first, end, {}, b);
    KeptBut(mem, mem1, mem2, blk, b);
    MarkedFreeTags(mem, mem1, mem2, blk, first, end, b);
    ReleaseCoalesced(blk, end, b);
  }

  lemma KeptBut(m0: Mem, m1: Mem, m2: Mem, blk: Layout, x: int)
    requires Kept(m0, m1, blk, 0) && Kept(m1, m2, blk, x) && 0 !in blk
    ensures Kept(m0, m2, blk, x)
  {
  }

  lemma ReleaseCoalesced(blk: Layout, end: int, b: int)
    requires Coalesced(blk, end) && b in blk
    ensures CoalescedBut(blk[b := Blk(blk[b].size, true)], end, b)
  {
    var blk' := blk[b := Blk(blk[b].size, true)];
    forall a | a in blk' && a != end && a != b && Next(blk', a) != b && Next(blk', a) in blk'
      ensures !(blk'[a].free && blk'[Next(blk', a)].free)
    {
      assert Next(blk', a) == Next(blk, a);
    }
  }

  lemma MarkedFreeTags(mem: Mem, mem1: Mem, mem2: Mem, blk: Layout, first: int, end: int, b: int)
    requires Tiled(blk, first, end) && b in blk && b != end
    requires TaggedBut(mem, blk, first, end, b) && TagOf(mem, b, blk[b])
    requires mem1 == mem[b + 8 := mem[b + 8].(isFree := true)]
    requires forall a :: a in blk ==> SameHeader(mem1, mem2, a)
    ensures var blk' := blk[b := Blk(blk[b].size, true)];
            TaggedBut(mem2, blk', first, end, b) && TagOf(mem2, b, blk'[b])
  {
    hide TaggedBut;
    OwnTagStore(mem, mem1, blk, first, end, b, blk[b].size, true);
    TagsKept(mem1, mem2, blk, first, end, b);
    RelabelTaggedBut(mem2, blk, first, end, b, true);
    assert SameHeader(mem1, mem2, b);
  }

  lemma LiveBlocks(blk: Layout, first: int, end: int, b: int)
    requires Tiled(blk, first, end)
    ensures b in Live(blk, end) <==> b in blk && !blk[b].free && b != end
    ensures b in Live(blk, end) ==> Live(blk, end)[b] == blk[b].size >= MIN_BLOCK_SIZE
  {
  }

  lemma TagsOf(mem: Mem, blk: Layout, first: int, end: int, b: int)
    requires Tagged(mem, blk, first, end) && Tiled(blk, first, end) && b in blk
    ensures TagOf(mem, b, blk[b])
  {
  }

  lemma NoBlockAt(blk: Layout, first: int, end: int)
    requires Tiled(blk, first, end)
    ensures 0 !in blk && -BHDR_OVERHEAD !in blk && Live(blk, end) == Live(blk, end) - {-BHDR_OVERHEAD}
  {
  }

  /** The data kept through the four stages of a release. */
  lemma FreeKept(m0: Mem, m2: Mem, m3: Mem, m4: Mem, m5: Mem, blk0: Layout, blk2: Layout, blk3: Layout,
                 blk5: Layout, first: int, end: int, b: int)
    requires Tiled(blk0, first, end)
    requires Live(blk2, end) == Live(blk0, end) - {b}
    requires Live(blk3, end) == Live(blk2, end) && Live(blk5, end) == Live(blk3, end)
    requires Kept(m0, m2, blk0, b) && Kept(m2, m3, blk2, 0) && Kept(m3, m4, blk3, 0) && Kept(m4, m5, blk5, 0)
    ensures Kept(m0, m5, blk0, b)
  {
    KeptLift(m2, m3, blk0, blk2, end, b);
    KeptLift(m3, m4, blk0, blk3, end, b);
    KeptLift(m4, m5, blk0, blk5, end, b);
    hide Live;
    KeptTransitive(m0, m2, m3, blk0, b);
    KeptTransitive(m0, m3, m4, blk0, b);
    KeptTransitive(m0, m4, m5, blk0, b);
  }

  /* Allocating */

  /** A block found at or above the class searched is large enough. */
  lemma SearchFound(lists: Lists, blk: Layout, first: int, end: int, size: int, b: int, d: Class)
    requires Tiled(blk, first, end) && Indexed(lists, blk, {})
    requires 0 <= size < MAX_AREA && size % 4 == 0 && SearchSize(size) < MAX_AREA
    requires IsClass(d) && AtLeast(d, MappingSearch(size).1) && d in lists && b in lists[d]
    ensures b in blk && b != end && blk[b].free && SearchSize(size) <= blk[b].size
  {
    assert b in blk && ClassOf(blk[b].size) == d;
    SearchFit(size);
    SizeBound(blk, first, end, b);
    ClassOrder(blk[b].size, MappingSearch(size).1);
  }

  /** When every list at or above the class searched is empty, no free block is
      large enough; a free block of that size makes one of them non-empty. */
  lemma SearchFailed(lists: Lists, blk: Layout, first: int, end: int, size: int)
    requires Tiled(blk, first, end) && Indexed(lists, blk, {})
    requires forall c :: IsClass(c) ==> c in lists
    requires 0 <= size < MAX_AREA && size % 4 == 0 && SearchSize(size) < MAX_AREA
    ensures IsClass(MappingSearch(size).1)
    ensures (forall e :: IsClass(e) && AtLeast(e, MappingSearch(size).1) ==> lists[e] == [])
              <==> NoneReaches(blk, SearchSize(size))
  {
    hide MappingSearch, MappingInsert, ClassOf, AtLeast, Closed, Disjoint;
    SearchFit(size);
    var c := MappingSearch(size).1;
    forall a | a in blk && blk[a].free
      ensures IsClass(ClassOf(blk[a].size)) && a in lists[ClassOf(blk[a].size)]
      ensures AtLeast(ClassOf(blk[a].size), c) <==> blk[a].size >= SearchSize(size)
    {
      SizeBound(blk, first, end, a);
      ClassReach(blk[a].size, c);
    }
    forall e | IsClass(e) && lists[e] != []
      ensures lists[e][0] in blk && blk[lists[e][0]].free && ClassOf(blk[lists[e][0]].size) == e
    {
      HeadListed(lists, blk, {}, e);
    }
    if forall e :: IsClass(e) && AtLeast(e, c) ==> lists[e] == [] {
      forall a | a in blk && blk[a].free
        ensures blk[a].size < SearchSize(size)
      {
        assert lists[ClassOf(blk[a].size)] != [];
      }
    } else {
      var e :| IsClass(e) && AtLeast(e, c) && lists[e] != [];
      var a := lists[e][0];
      assert a in blk && blk[a].free && blk[a].size >= SearchSize(size);
    }
  }

  /** Free block b reaches s, and no free block that reaches s is in an earlier class,
      or smaller by one part in 32 or more. */
  ghost predicate BestFit(blk: Layout, b: int, s: int) {
    && b in blk && blk[b].free && s <= blk[b].size
    && forall a :: a in blk && blk[a].free && s <= blk[a].size ==>
         && AtLeast(ClassOf(blk[a].size), ClassOf(blk[b].size))
         && 32 * (blk[b].size - blk[a].size) < blk[a].size
  }

  /** What a block of the given size keeps when need bytes are asked for: the rest is
      cut off if it could hold a header and the links of a free block. */
  function Portion(size: int, need: int): int {
    if size - need >= BHDR_SIZE then need else size
  }

  /** Block b was the best fit for s bytes and is now live, cut to s if possible. */
  ghost predicate Taken(blk: Layout, live: map<int, int>, b: int, s: int) {
    BestFit(blk, b, s) && b in live && live[b] == Portion(blk[b].size, s) < s + BHDR_SIZE
  }

  /** The bytes that block b can use where it is, with a free successor. */
  ghost function Room(blk: Layout, b: int): int
    requires b in blk
  {
    var n := Next(blk, b);
    blk[b].size + if n in blk && blk[n].free then BHDR_OVERHEAD + blk[n].size else 0
  }

  /** Block b is still live, cut from all its room to need bytes if possible. */
  ghost predicate Stayed(blk: Layout, live: map<int, int>, b: int, need: int) {
    b in blk && b in live && live[b] == Portion(Room(blk, b), need) < need + BHDR_SIZE
  }

  lemma AllReplaced(live: map<int, int>, live': map<int, int>, b: int, c: int, need: int)
    requires b !in live && c !in live && c in live' && need <= live'[c] && live' == live[c := live'[c]]
    ensures Replaced(live, live', b, c, need)
  {
    assert live - {b} == live;
  }

  /** The counters after the live block b has given way to c; if they are different, both
      were live for a moment. */
  ghost predicate Recounted(used: int, max: int, used': int, max': int, live: map<int, int>, live': map<int, int>, b: int, c: int) {
    && b in live && c in live' && used' == used + live'[c] - live[b]
    && max' == Max(max, used' + if b == c then 0 else BHDR_OVERHEAD + live[b])
  }

  /** The live buffers and the counters through a move. */
  lemma MovedLive(live: map<int, int>, live1: map<int, int>, b: int, c: int, need: int, used: int, max: int, used1: int)
    requires b in live && c !in live && c in live1 && b != c && live1 == live[c := live1[c]] && need <= live1[c]
    requires used1 == used + BHDR_OVERHEAD + live1[c]
    ensures Replaced(live, live1 - {b}, b, c, need)
    ensures Recounted(used, max, used1 - (BHDR_OVERHEAD + live1[b]), Max(max, used1), live, live1 - {b}, b, c)
  {
  }

  lemma TakenStays(blk: Layout, live: map<int, int>, b: int, c: int, s: int)
    requires Taken(blk, live, c, s) && b != c
    ensures Taken(blk, live - {b}, c, s)
  {
    hide BestFit;
  }

  /** A member of the first list that is not empty, from the class searched on. */
  lemma FoundFits(lists: Lists, blk: Layout, first: int, end: int, size: int, b: int, d: Class)
    requires Tiled(blk, first, end) && Aligned(blk) && Indexed(lists, blk, {})
    requires forall c :: IsClass(c) ==> c in lists
    requires 0 <= size < MAX_AREA && size % 4 == 0 && SearchSize(size) < MAX_AREA
    requires IsClass(d) && AtLeast(d, MappingSearch(size).1) && b in lists[d]
    requires forall e :: IsClass(e) && AtLeast(e, MappingSearch(size).1) && lists[e] != [] ==> AtLeast(e, d)
    ensures ClassOf(blk[b].size) == d && BestFit(blk, b, SearchSize(size))
  {
    SearchFound(lists, blk, first, end, size, b, d);
    SearchFit(size);
    hide MappingSearch, MappingInsert, ClassOf, AtLeast, Tiled, SearchSize;
    var c := MappingSearch(size).1;
    ListedClass(lists, blk, b, d);
    SizeBound(blk, first, end, b);
    forall a | a in blk && blk[a].free && SearchSize(size) <= blk[a].size
      ensures AtLeast(ClassOf(blk[a].size), d) && 32 * (blk[b].size - blk[a].size) < blk[a].size
    {
      SizeBound(blk, first, end, a);
      ClassReach(blk[a].size, c);
      FreeListed(lists, blk, a);
      FitWithin(blk, first, end, a, b);
    }
  }

  lemma ListedClass(lists: Lists, blk: Layout, b: int, d: Class)
    requires Indexed(lists, blk, {}) && IsClass(d) && d in lists && b in lists[d]
    ensures b in blk && ClassOf(blk[b].size) == d
  {
  }

  lemma FreeListed(lists: Lists, blk: Layout, a: int)
    requires Indexed(lists, blk, {}) && a in blk && blk[a].free
    ensures var e := ClassOf(blk[a].size); IsClass(e) && e in lists && lists[e] != []
  {
    hide ClassOf;
    var e := ClassOf(blk[a].size);
    assert a in lists[e];
  }

  lemma FitWithin(blk: Layout, first: int, end: int, a: int, b: int)
    requires Tiled(blk, first, end) && Aligned(blk) && a in blk && b in blk && blk[a].free && blk[b].free
    requires AtLeast(ClassOf(blk[a].size), ClassOf(blk[b].size))
    ensures 32 * (blk[b].size - blk[a].size) < blk[a].size
  {
    SizeBound(blk, first, end, a);
    SizeBound(blk, first, end, b);
    FreeSize(blk, first, end, a);
    ClassWidth(blk[b].size, blk[a].size);
  }

  lemma FreeSize(blk: Layout, first: int, end: int, a: int)
    requires Tiled(blk, first, end) && a in blk && blk[a].free
    ensures blk[a].size >= MIN_BLOCK_SIZE
  {
  }

  lemma HeadListed(lists: Lists, blk: Layout, out: set<int>, e: Class)
    requires Indexed(lists, blk, out) && IsClass(e) && e in lists && lists[e] != []
    ensures lists[e][0] in blk && blk[lists[e][0]].free && ClassOf(blk[lists[e][0]].size) == e
  {
    hide MappingInsert;
    var x := lists[e][0];
    assert IsClass(e) && e in lists && x in lists[e];
  }

  lemma ClassReach(s: int, c: Class)
    requires 0 <= s < MAX_AREA && IsClass(c)
    ensures AtLeast(ClassOf(s), c) <==> s >= ClassLow(c)
  {
    ClassOrder(s, c);
  }

  lemma AllClasses(mem: Mem, matrix: map<Class, int>, lists: Lists)
    requires Linked(mem, matrix, lists)
    ensures forall c :: IsClass(c) ==> c in lists && c in matrix
  {
  }

  lemma ListedNotNull(lists: Lists, blk: Layout, first: int, end: int, out: set<int>)
    requires Tiled(blk, first, end) && Indexed(lists, blk, out)
    ensures forall c, x :: IsClass(c) && c in lists && x in lists[c] ==> x != 0
  {
    forall c, x | IsClass(c) && c in lists && x in lists[c]
      ensures x != 0
    {
      assert x in blk;
    }
  }

  /** What the header of a free block and its successor say. */
  lemma ReadFree(mem: Mem, blk: Layout, first: int, end: int, b: int)
    requires Tiled(blk, first, end) && Tagged(mem, blk, first, end) && Coalesced(blk, end)
    requires b in blk && b != end && blk[b].free
    ensures var n := Next(blk, b);
            && n in blk && n != b && !blk[n].free && n + 8 in mem && mem[n + 8].Tag? && mem[n + 8].prevFree
            && mem[n + 8].size == blk[n].size && !mem[n + 8].isFree
            && TagOf(mem, b, blk[b])
  {
    var n := Next(blk, b);
    assert 0 < b < n;
    assert n in blk && SeesPrev(mem, n, b, blk[b].free);
    assert TagOf(mem, n, blk[n]);
  }

  /** Cutting an allocation off a free block. */
  lemma CutFree(blk: Layout, first: int, end: int, b: int, r: int)
    requires Tiled(blk, first, end) && Coalesced(blk, end) && b in blk && b != end && blk[b].free
    requires MIN_BLOCK_SIZE <= r && r + BHDR_SIZE <= blk[b].size
    ensures var blk' := Split(blk, b, r, false, true);
            && Tiled(blk', first, end) && Coalesced(blk', end)
            && Live(blk', end) == Live(blk, end)[b := r] && b !in Live(blk, end)
            && FreeSum(blk') == FreeSum(blk) - r - BHDR_OVERHEAD
  {
    SplitTiles(blk, first, end, b, r, false, true);
    assert !blk[Next(blk, b)].free;
    SplitCoalesced(blk, first, end, b, r);
    FreeSumSplit(blk, b, r, false, true);
    CutLive(blk, end, b, r);
  }

  lemma CutLive(blk: Layout, end: int, b: int, r: int)
    requires b in blk && b != end && r >= 0 && b + BHDR_OVERHEAD + r !in blk && (end in blk)
    ensures Live(Split(blk, b, r, false, true), end) == Live(blk, end)[b := r]
  {
  }

  /** Handing a free block out whole. */
  lemma TakeFree(blk: Layout, first: int, end: int, b: int)
    requires Tiled(blk, first, end) && Coalesced(blk, end) && b in blk && b != end && blk[b].free
    ensures var blk' := blk[b := Blk(blk[b].size, false)];
            && Tiled(blk', first, end) && Coalesced(blk', end)
            && Live(blk', end) == Live(blk, end)[b := blk[b].size] && b !in Live(blk, end)
            && FreeSum(blk') == FreeSum(blk) - blk[b].size - BHDR_OVERHEAD
  {
    var blk' := blk[b := Blk(blk[b].size, false)];
    Relabelled(blk, first, end, b, false);
    FreeSumUpdate(blk, b, Blk(blk[b].size, false));
    forall a | a in blk' && a != end && Next(blk', a) in blk'
      ensures !(blk'[a].free && blk'[Next(blk', a)].free)
    {
      assert Next(blk', a) == Next(blk, a);
    }
  }

  /** The two stores that hand a free block out whole. */
  lemma MarkedUsed(mem: Mem, mem1: Mem, mem2: Mem, matrix: map<Class, int>, lists: Lists, blk: Layout,
                   first: int, end: int, b: int)
    requires Tiled(blk, first, end) && Covered(mem, first, end) && b in blk && b != end && blk[b].free
    requires TaggedBut(mem, blk, first, end, b) && TagOf(mem, b, blk[b])
    requires Linked(mem, matrix, lists) && Indexed(lists, blk, {b})
    requires var n := Next(blk, b);
             && n + 8 in mem && mem[n + 8].Tag? && n != b
             && mem1 == mem[n + 8 := mem[n + 8].(prevFree := false)]
             && mem2 == mem1[b + 8 := mem[b + 8].(isFree := false)]
    ensures var blk' := blk[b := Blk(blk[b].size, false)];
            Tagged(mem2, blk', first, end) && Indexed(lists, blk', {})
    ensures Linked(mem2, matrix, lists) && Covered(mem2, first, end) && Kept(mem, mem2, blk, 0)
  {
    hide Linked, Indexed, Kept, TaggedBut, Covered;
    var blk' := blk[b := Blk(blk[b].size, false)];
    var n := Next(blk, b);
    assert n in blk;
    MergedMemory(mem, mem1, matrix, lists, blk, first, end, n, {b}, mem1[n + 8]);
    MergedMemory(mem1, mem2, matrix, lists, blk, first, end, b, {b}, mem2[b + 8]);
    KeptTransitive(mem, mem1, mem2, blk, 0);
    assert {} + {b} == {b};
    RelabelIndexed(lists, blk, b, {});
    RelabelTaggedBut(mem, blk, first, end, b, false);
    Relabelled(blk, first, end, b, false);
    assert Next(blk', b) == n;
    UsedTouched(mem, mem1, mem2, blk, blk', first, end, b, n);
    TouchTagged(mem, mem2, blk', first, end, b);
  }

  lemma UsedTouched(mem: Mem, mem1: Mem, mem2: Mem, blk: Layout, blk': Layout, first: int, end: int, b: int, n: int)
    requires Tiled(blk, first, end) && b in blk && n in blk && n != b && TagOf(mem, b, blk[b])
    requires blk' == blk[b := Blk(blk[b].size, false)]
    requires n + 8 in mem && mem[n + 8].Tag?
    requires mem1 == mem[n + 8 := mem[n + 8].(prevFree := false)] && mem2 == mem1[b + 8 := mem[b + 8].(isFree := false)]
    ensures Touched(mem, mem2, blk', b, n) && TagOf(mem2, b, blk'[b]) && SeesPrev(mem2, n, b, false)
  {
    Apart(blk, first, end, b, n);
    forall a | a in blk && a != b && a != n
      ensures SameHeader(mem, mem2, a)
    {
      Apart(blk, first, end, a, n);
      Apart(blk, first, end, a, b);
    }
  }

  lemma BlockInArea(blk: Layout, first: int, end: int, b: int)
    requires Tiled(blk, first, end) && b in blk
    ensures first <= b && b + BHDR_OVERHEAD + blk[b].size <= end + BHDR_OVERHEAD
  {
    assert Next(blk, b) <= end || b == end;
  }

  lemma SuccessorIn(blk: Layout, first: int, end: int, b: int)
    requires Tiled(blk, first, end) && b in blk && b != end
    ensures Next(blk, b) in blk
  {
  }

  lemma SuccessorSize(blk: Layout, first: int, end: int, b: int)
    requires Tiled(blk, first, end) && b in blk && b != end && blk[Next(blk, b)].free
    ensures blk[Next(blk, b)].size >= MIN_BLOCK_SIZE
  {
    assert Next(blk, b) in blk && Next(blk, b) != end;
  }

  lemma BlockPositive(blk: Layout, first: int, end: int, b: int)
    requires Tiled(blk, first, end) && b in blk
    ensures b > 0
  {
  }

  /** The data kept through an allocation: the extraction and the carving. */
  lemma AllocationKept(m0: Mem, m1: Mem, m2: Mem, blk: Layout, blk': Layout, first: int, end: int, b: int)
    requires Tiled(blk, first, end) && b !in Live(blk, end)
    requires Kept(m0, m1, blk, 0) && (Kept(m1, m2, blk', 0) || Kept(m1, m2, blk, 0))
    requires b in Live(blk', end) && Live(blk', end) == Live(blk, end)[b := Live(blk', end)[b]]
    ensures Kept(m0, m2, blk, 0)
  {
    if Kept(m1, m2, blk', 0) {
      forall a | a in Live(blk, end)
        ensures a in Live(blk', end) && Live(blk', end)[a] == blk[a].size
      {
        assert Live(blk', end)[a] == Live(blk, end)[a];
      }
      KeptLift(m1, m2, blk, blk', end, 0);
    }
    KeptTransitive(m0, m1, m2, blk, 0);
  }

  /* Reallocating */

  /** A used block may be named among the unlisted ones. */
  lemma UsedIsOut(lists: Lists, blk: Layout, b: int)
    requires Indexed(lists, blk, {}) && b in blk && !blk[b].free
    ensures Indexed(lists, blk, {b})
  {
    IndexedChange(lists, blk, blk, {}, {b});
  }

  /** Setting the PREV_FREE bit of the successor of block x. */
  lemma NextBitStored(mem: Mem, mem': Mem, matrix: map<Class, int>, lists: Lists, blk: Layout, first: int, end: int,
                      x: int, out: set<int>, free: bool)
    requires Tiled(blk, first, end) && Covered(mem, first, end) && x in blk && x != end
    requires TaggedBut(mem, blk, first, end, x) && Linked(mem, matrix, lists) && Indexed(lists, blk, out)
    requires x + 8 in mem && mem[x + 8].Tag?
    requires var n := Next(blk, x);
             && n + 8 in mem && mem[n + 8].Tag? && mem' == mem[n + 8 := mem[n + 8].(prevFree := free)]
    ensures TaggedBut(mem', blk, first, end, x) && Linked(mem', matrix, lists)
    ensures Covered(mem', first, end) && Kept(mem, mem', blk, 0)
    ensures x + 8 in mem' && mem'[x + 8] == mem[x + 8]
  {
    hide Linked, Indexed, Kept, Covered;
    var n := Next(blk, x);
    assert n in blk;
    MergedMemory(mem, mem', matrix, lists, blk, first, end, n, out, mem'[n + 8]);
    NextBitTouched(mem, mem', blk, first, end, x, n, free);
    assert first < n;
    TouchTags(mem, mem', blk, first, x, n);
    forall a | a in blk && a != end && a != x
      ensures SeesPrev(mem', Next(blk, a), a, blk[a].free)
    {
      assert SeesPrev(mem, Next(blk, a), a, blk[a].free);
      TouchSeen(mem, mem', blk, first, end, x, n, a);
    }
  }

  lemma NextBitTouched(mem: Mem, mem': Mem, blk: Layout, first: int, end: int, x: int, n: int, f: bool)
    requires Tiled(blk, first, end) && x in blk && n in blk && x != n
    requires x + 8 in mem && mem[x + 8].Tag? && n + 8 in mem && mem[n + 8].Tag?
    requires mem' == mem[n + 8 := Tag(mem[n + 8].size, mem[n + 8].isFree, f)]
    ensures Touched(mem, mem', blk, x, n) && mem'[x + 8] == mem[x + 8]
  {
    Apart(blk, first, end, x, n);
    forall a | a in blk && a != n
      ensures SameHeader(mem, mem', a)
    {
      Apart(blk, first, end, a, n);
    }
  }

  lemma WeakCoalesced(blk: Layout, end: int, b: int)
    requires Coalesced(blk, end)
    ensures CoalescedBut(blk, end, b)
  {
  }

  /** Trimming a used block whose successor is used. */
  lemma TrimUsed(blk: Layout, first: int, end: int, b: int, r: int)
    requires Tiled(blk, first, end) && CoalescedBut(blk, end, b) && b in blk && b != end && !blk[b].free
    requires MIN_BLOCK_SIZE <= r && r + BHDR_SIZE <= blk[b].size && !blk[Next(blk, b)].free
    ensures var blk' := Split(blk, b, r, false, true);
            && Tiled(blk', first, end) && Coalesced(blk', end)
            && Live(blk', end) == Live(blk, end)[b := r] && b in Live(blk, end)
            && FreeSum(blk') == FreeSum(blk) + blk[b].size - r
  {
    SplitTiles(blk, first, end, b, r, false, true);
    SplitCoalesced(blk, first, end, b, r);
    FreeSumSplit(blk, b, r, false, true);
    CutLive(blk, end, b, r);
  }

  /** A used block takes over its free successor. */
  lemma AbsorbLayout(blk: Layout, first: int, end: int, b: int)
    requires Tiled(blk, first, end) && Coalesced(blk, end) && b in blk && b != end && !blk[b].free
    requires blk[Next(blk, b)].free
    ensures var blk' := Merge(blk, b, false); var n := Next(blk, b);
            && n != end && n != b && Tiled(blk', first, end) && CoalescedBut(blk', end, b)
            && Next(blk', b) == Next(blk, n) && Next(blk', b) in blk' && !blk'[Next(blk', b)].free
            && Live(blk', end) == Live(blk, end)[b := blk[b].size + BHDR_OVERHEAD + blk[n].size] && b in Live(blk, end)
            && FreeSum(blk') == FreeSum(blk) - blk[n].size - BHDR_OVERHEAD
  {
    var blk' := Merge(blk, b, false);
    var n := Next(blk, b);
    assert n != end && b < n;
    MergeTiles(blk, first, end, b, false);
    FreeSumMerge(blk, b, false);
    assert !blk[Next(blk, n)].free;
    forall a | a in blk' && a != end && a != b && Next(blk', a) != b && Next(blk', a) in blk'
      ensures !(blk'[a].free && blk'[Next(blk', a)].free)
    {
      assert Next(blk', a) == Next(blk, a);
    }
    AbsorbLive(blk, end, b, n);
  }

  lemma AbsorbLive(blk: Layout, end: int, b: int, n: int)
    requires b in blk && n == Next(blk, b) && n in blk && n != b && b != end && !blk[b].free && blk[n].free
    ensures Live(Merge(blk, b, false), end) == Live(blk, end)[b := blk[b].size + BHDR_OVERHEAD + blk[n].size]
  {
  }

  lemma UsedCoalesced(blk: Layout, end: int, b: int)
    requires CoalescedBut(blk, end, b) && b in blk && !blk[b].free
    ensures Coalesced(blk, end)
  {
  }

  /** A block that has taken over its successor gets its tag, and the next block
      is told; x is that next block. */
  lemma AbsorbStored(mem: Mem, mem1: Mem, mem2: Mem, mem3: Mem, matrix: map<Class, int>, lists: Lists,
                     blk: Layout, first: int, end: int, b: int, x: int)
    requires Tiled(blk, first, end) && Covered(mem, first, end) && b in blk && b != end && !blk[b].free
    requires x == Next(blk, b) && TaggedBut(mem, blk, first, end, b)
    requires Linked(mem, matrix, lists) && Indexed(lists, blk, {})
    requires b + 8 in mem && mem[b + 8].Tag? && x + 8 in mem && mem[x + 8].Tag? && b != x
    requires mem1 == mem[b + 8 := Tag(blk[b].size, false, mem[b + 8].prevFree)]
    requires mem2 == mem1[x := Ptr(b)] && mem3 == mem2[x + 8 := mem[x + 8].(prevFree := false)]
    ensures Tagged(mem3, blk, first, end) && Linked(mem3, matrix, lists)
    ensures Covered(mem3, first, end) && Kept(mem, mem3, blk, 0)
  {
    hide Linked, Indexed, Kept, Covered, TaggedBut;
    MergedMemory(mem, mem1, matrix, lists, blk, first, end, b, {}, mem1[b + 8]);
    PrevHdrStore(mem1, mem2, matrix, lists, blk, first, end, x, {}, Ptr(b));
    MergedMemory(mem2, mem3, matrix, lists, blk, first, end, x, {}, mem3[x + 8]);
    KeptTransitive(mem, mem1, mem2, blk, 0);
    KeptTransitive(mem, mem2, mem3, blk, 0);
    AbsorbTouched(mem, mem3, blk, first, end, b, x);
    TouchTagged(mem, mem3, blk, first, end, b);
  }

  lemma AbsorbTouched(mem: Mem, mem3: Mem, blk: Layout, first: int, end: int, b: int, x: int)
    requires Tiled(blk, first, end) && b in blk && !blk[b].free && x in blk && b != x
    requires b + 8 in mem && mem[b + 8].Tag? && x + 8 in mem && mem[x + 8].Tag?
    requires mem3 == mem[b + 8 := Tag(blk[b].size, false, mem[b + 8].prevFree)]
                       [x := Ptr(b)][x + 8 := mem[x + 8].(prevFree := false)]
    ensures Touched(mem, mem3, blk, b, x) && TagOf(mem3, b, blk[b]) && SeesPrev(mem3, x, b, false)
  {
    Apart(blk, first, end, b, x);
    forall a | a in blk && a != b && a != x
      ensures SameHeader(mem, mem3, a)
    {
      Apart(blk, first, end, a, x);
      Apart(blk, first, end, a, b);
    }
  }

  /** A store into the buffer of a used block. */
  lemma UserStored(mem: Mem, mem': Mem, matrix: map<Class, int>, lists: Lists, blk: Layout, first: int, end: int,
                   b: int, w: int, v: Word)
    requires Tiled(blk, first, end) && Covered(mem, first, end) && Tagged(mem, blk, first, end)
    requires Linked(mem, matrix, lists) && Indexed(lists, blk, {})
    requires b in blk && !blk[b].free && b != end && b + 16 <= w < b + 16 + blk[b].size
    requires mem' == mem[w := v]
    ensures Tagged(mem', blk, first, end) && Linked(mem', matrix, lists) && Covered(mem', first, end)
    ensures Kept(mem, mem', blk, b)
  {
    hide Indexed, TaggedBut;
    UserStoreLinked(mem, mem', matrix, lists, blk, first, end, b, w, v);
    forall a | a in blk
      ensures SameHeader(mem, mem', a)
    {
      HeaderOutside(blk, first, end, a);
    }
    TagsKept(mem, mem', blk, first, end, 0);
    forall a | a in blk && a != b
      ensures !(a + 16 <= w < a + 16 + blk[a].size)
    {
      Apart(blk, first, end, a, b);
    }
  }

  lemma UserStoreLinked(mem: Mem, mem': Mem, matrix: map<Class, int>, lists: Lists, blk: Layout, first: int, end: int,
                        b: int, w: int, v: Word)
    requires Tiled(blk, first, end) && Linked(mem, matrix, lists) && Indexed(lists, blk, {})
    requires b in blk && !blk[b].free && b + 16 <= w < b + 16 + blk[b].size && mem' == mem[w := v]
    ensures Linked(mem', matrix, lists)
  {
    forall c, x | IsClass(c) && c in lists && x in lists[c]
      ensures x in FreeSet(blk)
    {
    }
    forall x | x in FreeSet(blk)
      ensures w != x + 16 && w != x + 24
    {
      Apart(blk, first, end, x, b);
    }
    LinkedFrame(mem, mem', matrix, lists, FreeSet(blk));
  }

  /** Kept data, one buffer at a time. */
  lemma KeptBuffer(mem: Mem, mem': Mem, blk: Layout, first: int, end: int, x: int, b: int, n: int)
    requires Tiled(blk, first, end) && Covered(mem, first, end) && Kept(mem, mem', blk, x)
    requires b in blk && !blk[b].free && b != x && b != end && n <= blk[b].size
    ensures Copied(mem, mem', b, b, n)
  {
    BlockInArea(blk, first, end, b);
    forall i | 0 <= i < n
      ensures At(b, i) in mem && At(b, i) in mem' && mem'[At(b, i)] == mem[At(b, i)]
    {
    }
  }

  lemma CopiedTransitive(m0: Mem, m1: Mem, m2: Mem, a: int, b: int, c: int, n: int)
    requires Copied(m0, m1, a, b, n) && Copied(m1, m2, b, c, n)
    ensures Copied(m0, m2, a, c, n)
  {
    forall i | 0 <= i < n
      ensures At(a, i) in m0 && At(c, i) in m2 && m2[At(c, i)] == m0[At(a, i)]
    {
      assert At(b, i) in m1;
    }
  }

  /** One more byte of a copy. */
  lemma CopyStep(m0: Mem, m1: Mem, m2: Mem, src: int, dst: int, k: int)
    requires Copied(m0, m1, src, dst, k) && k >= 0 && At(src, k) in m0
    requires m2 == m1[At(dst, k) := m0[At(src, k)]]
    ensures Copied(m0, m2, src, dst, k + 1)
  {
  }

  /** The user data through an in-place resize: first the extraction of the
      successor, then stores that keep the data of layout blk'. */
  lemma ResizeKept(m0: Mem, m1: Mem, m2: Mem, blk: Layout, blk': Layout, first: int, end: int, b: int, n: int)
    requires Tiled(blk, first, end) && Tiled(blk', first, end) && Covered(m0, first, end) && Covered(m1, first, end)
    requires b in Live(blk, end) && b in Live(blk', end)
    requires Live(blk', end) == Live(blk, end)[b := blk'[b].size]
    requires n <= blk[b].size && n <= blk'[b].size
    requires Kept(m0, m1, blk, 0) && Kept(m1, m2, blk', 0)
    ensures Kept(m0, m2, blk, b) && Copied(m0, m2, b, b, n)
  {
    assert b > 0;
    KeptBuffer(m0, m1, blk, first, end, 0, b, n);
    KeptBuffer(m1, m2, blk', first, end, 0, b, n);
    CopiedTransitive(m0, m1, m2, b, b, b, n);
    forall a | a in Live(blk, end) && a != b
      ensures a in Live(blk', end) && Live(blk', end)[a] == blk[a].size
    {
      assert Live(blk', end)[a] == Live(blk, end)[a];
    }
    KeptLift(m1, m2, blk, blk', end, b);
    hide Live;
    KeptFrom0(m0, m1, m2, blk, b);
  }

  lemma KeptFrom0(m0: Mem, m1: Mem, m2: Mem, blk: Layout, b: int)
    requires Kept(m0, m1, blk, 0) && Kept(m1, m2, blk, b) && 0 !in blk
    ensures Kept(m0, m2, blk, b)
  {
  }

  /** The data kept by a trim, with respect to the layout it ends in. */
  lemma TrimKept(m0: Mem, m1: Mem, m2: Mem, blk: Layout, first: int, end: int, b: int, r: int, n: int, v: Word)
    requires Tiled(blk, first, end) && b in blk && b != end && n == Next(blk, b)
    requires MIN_BLOCK_SIZE <= r && r + BHDR_SIZE <= blk[b].size
    requires m1 == m0[n + 8 := v] && Kept(m1, m2, Split(blk, b, r, false, true), 0)
    ensures Kept(m0, m2, Split(blk, b, r, false, true), 0)
  {
    var blk' := Split(blk, b, r, false, true);
    SplitTiles(blk, first, end, b, r, false, true);
    assert n in blk';
    HeaderStoreKept(m0, blk', first, end, n, n + 8, v);
    KeptTransitive(m0, m1, m2, blk', 0);
  }

  /** The data kept by growing and then trimming. */
  lemma GrowKept(m0: Mem, m1: Mem, m2: Mem, blk: Layout, blk1: Layout, blk2: Layout, first: int, end: int, b: int, n: int)
    requires Tiled(blk, first, end) && Tiled(blk1, first, end) && Tiled(blk2, first, end)
    requires Covered(m0, first, end) && Covered(m1, first, end)
    requires b in Live(blk, end) && b in Live(blk1, end) && b in Live(blk2, end)
    requires Live(blk1, end) == Live(blk, end)[b := blk1[b].size] && Live(blk2, end) == Live(blk1, end)[b := blk2[b].size]
    requires n <= blk[b].size && n <= blk1[b].size && n <= blk2[b].size
    requires Kept(m0, m1, blk, b) && Copied(m0, m1, b, b, n) && Kept(m1, m2, blk2, 0)
    ensures Kept(m0, m2, blk, b) && Copied(m0, m2, b, b, n)
  {
    assert b > 0;
    KeptBuffer(m1, m2, blk2, first, end, 0, b, n);
    CopiedTransitive(m0, m1, m2, b, b, b, n);
    forall a | a in Live(blk, end) && a != b
      ensures a in Live(blk2, end) && Live(blk2, end)[a] == blk[a].size
    {
      assert Live(blk1, end)[a] == Live(blk, end)[a];
      assert Live(blk2, end)[a] == Live(blk1, end)[a];
    }
    KeptLift(m1, m2, blk, blk2, end, b);
    hide Live;
    KeptTransitive(m0, m1, m2, blk, b);
  }

  /** After the new allocation of a move, the old block is still there, as it was. */
  lemma MovedBlock(m0: Mem, m1: Mem, blk0: Layout, blk1: Layout, first: int, end: int, b: int, c: int)
    requires Tiled(blk0, first, end) && Tiled(blk1, first, end) && Covered(m0, first, end)
    requires Tagged(m1, blk1, first, end)
    requires b in Live(blk0, end) && c in blk0 && blk0[c].free && c in Live(blk1, end)
    requires Live(blk1, end) == Live(blk0, end)[c := Live(blk1, end)[c]]
    ensures b != c && b in Live(blk1, end) && Live(blk1, end)[b] == blk0[b].size && c !in Live(blk0, end)
    ensures TagOf(m1, b, blk1[b]) && blk1[b].size == blk0[b].size
  {
    assert Live(blk1, end)[b] == Live(blk0, end)[b];
    TagsOf(m1, blk1, first, end, b);
  }

  /** The data kept through the three steps of a move. */
  lemma MoveKept(m0: Mem, m1: Mem, m2: Mem, m3: Mem, blk0: Layout, blk1: Layout, first: int, end: int,
                 b: int, c: int, n: int)
    requires Tiled(blk0, first, end) && Tiled(blk1, first, end) && Covered(m0, first, end) && Covered(m2, first, end)
    requires b in Live(blk0, end) && c in Live(blk1, end) && c !in Live(blk0, end) && b != c
    requires Live(blk1, end) == Live(blk0, end)[c := Live(blk1, end)[c]]
    requires n <= blk0[b].size && n <= Live(blk1, end)[c]
    requires Kept(m0, m1, blk0, 0) && Kept(m1, m2, blk1, c) && Copied(m1, m2, b, c, n) && Kept(m2, m3, blk1, b)
    ensures Kept(m0, m3, blk0, b) && Copied(m0, m3, b, c, n)
  {
    assert b > 0;
    KeptBuffer(m0, m1, blk0, first, end, 0, b, n);
    KeptBuffer(m2, m3, blk1, first, end, b, c, n);
    CopiedTransitive(m0, m1, m2, b, b, c, n);
    CopiedTransitive(m0, m2, m3, b, c, c, n);
    MoveKeptOthers(m0, m1, m2, m3, blk0, blk1, first, end, b, c);
  }

  lemma MoveKeptOthers(m0: Mem, m1: Mem, m2: Mem, m3: Mem, blk0: Layout, blk1: Layout, first: int, end: int,
                       b: int, c: int)
    requires Tiled(blk0, first, end) && Tiled(blk1, first, end)
    requires c in Live(blk1, end) && c !in Live(blk0, end)
    requires Live(blk1, end) == Live(blk0, end)[c := Live(blk1, end)[c]]
    requires Kept(m0, m1, blk0, 0) && Kept(m1, m2, blk1, c) && Kept(m2, m3, blk1, b)
    ensures Kept(m0, m3, blk0, b)
  {
    forall a, w | a in blk0 && !blk0[a].free && a != b && a + 16 <= w < a + 16 + blk0[a].size && w in m0
      ensures w in m3 && m3[w] == m0[w]
    {
      assert a > 0 && a != end;
      assert a in Live(blk0, end) && a != c;
      assert a in Live(blk1, end) && Live(blk1, end)[a] == Live(blk0, end)[a];
      assert w in m1 && m1[w] == m0[w];
      assert w in m2 && m2[w] == m1[w];
    }
  }

  /* The initial area */

  /** process_area: one used block, and a sentinel that already calls it free. */
  lemma InitialLayout(mem: Mem, first: int, end: int, size: int)
    requires 0 < first && first % 16 == 0 && MIN_BLOCK_SIZE <= size && size % 16 == 0
    requires end == first + BHDR_OVERHEAD + size && end < first + MAX_AREA && Covered(mem, first, end)
    ensures var blk := map[first := Blk(size, false), end := Blk(0, false)];
            var mem' := mem[first + 8 := Tag(size, false, false)][first + 16 := Ptr(0)][first + 24 := Ptr(0)]
                           [end := Ptr(first)][end + 8 := Tag(0, false, true)];
            && Tiled(blk, first, end) && Aligned(blk) && Coalesced(blk, end) && Covered(mem', first, end)
            && TaggedBut(mem', blk, first, end, first) && TagOf(mem', first, blk[first])
            && FreeSum(blk) == 0 && Live(blk, end) == map[first := size]
  {
    InitialBlocks(first, end, size);
    InitialSum(first, end, size);
    InitialTags(mem, first, end, size);
  }

  lemma InitialBlocks(first: int, end: int, size: int)
    requires 0 < first && first % 16 == 0 && MIN_BLOCK_SIZE <= size && size % 16 == 0
    requires end == first + BHDR_OVERHEAD + size && end < first + MAX_AREA
    ensures var blk := map[first := Blk(size, false), end := Blk(0, false)];
            && Tiled(blk, first, end) && Aligned(blk) && Coalesced(blk, end) && Live(blk, end) == map[first := size]
  {
    var blk := map[first := Blk(size, false), end := Blk(0, false)];
    assert Next(blk, first) == end && Next(blk, end) == end + BHDR_OVERHEAD;
    SumAligned(first, size);
  }

  lemma InitialSum(first: int, end: int, size: int)
    requires first != end
    ensures FreeSum(map[first := Blk(size, false), end := Blk(0, false)]) == 0
  {
    FreeSumUpdate(map[first := Blk(size, false)], end, Blk(0, false));
    FreeSumUpdate(map[], first, Blk(size, false));
    assert map[first := Blk(size, false)][end := Blk(0, false)] == map[first := Blk(size, false), end := Blk(0, false)];
  }

  lemma InitialTags(mem: Mem, first: int, end: int, size: int)
    requires 0 < first && MIN_BLOCK_SIZE <= size && end == first + BHDR_OVERHEAD + size && Covered(mem, first, end)
    ensures var blk := map[first := Blk(size, false), end := Blk(0, false)];
            var mem' := mem[first + 8 := Tag(size, false, false)][first + 16 := Ptr(0)][first + 24 := Ptr(0)]
                           [end := Ptr(first)][end + 8 := Tag(0, false, true)];
            && Covered(mem', first, end) && TaggedBut(mem', blk, first, end, first) && TagOf(mem', first, blk[first])
  {
    var blk := map[first := Blk(size, false), end := Blk(0, false)];
    assert Next(blk, first) == end && Next(blk, end) == end + BHDR_OVERHEAD;
  }

  /** With no allocation, coalescing leaves a single free block. */
  lemma SoleBlock(blk: Layout, first: int, end: int)
    requires Tiled(blk, first, end) && Coalesced(blk, end) && Live(blk, end) == map[]
    ensures first in blk && blk[first] == Blk(end - first - BHDR_OVERHEAD, true)
  {
    assert first !in Live(blk, end);
    var n := Next(blk, first);
    assert n in blk && n !in Live(blk, end);
    assert blk[n].free || n == end;
  }

  /** Live buffers lie inside the area and never share a byte. */
  lemma LiveDisjoint(blk: Layout, first: int, end: int, a: int, b: int)
    requires Tiled(blk, first, end) && a in Live(blk, end) && b in Live(blk, end) && a != b
    ensures first + BHDR_OVERHEAD <= At(a, 0) && At(a, Live(blk, end)[a]) <= end
    ensures At(a, Live(blk, end)[a]) <= b || At(b, Live(blk, end)[b]) <= a
  {
    Apart(blk, first, end, a, b);
    assert Next(blk, a) <= end;
  }
}
