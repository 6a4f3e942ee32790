/** The TLSF allocator on one area (contrib/tlsf/src/tlsf.c:344-402, 430-502,
    697-881). */
module TlsfAllocator {
  import opened Numbers
  import opened Sets
  import opened TlsfMapping
  import opened TlsfLayout
  import opened TlsfLists
  import opened TlsfFrames
  import opened TlsfSteps

  const NULL := 0

  /** ROUNDUP_SIZE for an alignment that is a power of two. */
  function RoundUp(r: int, align: int): int
    requires align >= 1
  {
    (r + align - 1) - (r + align - 1) % align
  }

  lemma RoundUpIs(r: int, align: int)
    requires (align == 16 || align == 32) && r >= 0
    ensures r <= RoundUp(r, align) < r + align && RoundUp(r, align) % align == 0 && RoundUp(r, align) % 16 == 0
  {
    if align == 16 {
      RoundUp16(r);
    } else {
      RoundUp32(r);
    }
  }

  lemma RoundUp16(r: int)
    requires r >= 0
    ensures r <= RoundUp(r, 16) < r + 16 && RoundUp(r, 16) % 16 == 0
  {
  }

  lemma RoundUp32(r: int)
    requires r >= 0
    ensures r <= RoundUp(r, 32) < r + 32 && RoundUp(r, 32) % 32 == 0 && RoundUp(r, 32) % 16 == 0
  {
    var q, m := (r + 31) / 32, (r + 31) % 32;
    assert RoundUp(r, 32) == r + 31 - m == 32 * q;
    hide RoundUp;
    Times32(q);
  }

  lemma Times32(q: int)
    ensures (32 * q) % 32 == 0 && (32 * q) % 16 == 0
  {
    assert 32 * q == 16 * (2 * q);
  }

  /** The size of the buffer a request asks for. */
  function BufferSize(request: int, align: int): (s: int)
    requires align == 16 || align == 32
    ensures s >= MIN_BLOCK_SIZE && s % 16 == 0 && request <= s
  {
    if request < MIN_BLOCK_SIZE then MIN_BLOCK_SIZE
    else
      hide RoundUp;
      RoundUpIs(request, align);
      RoundUp(request, align)
  }

  /** Requests whose rounded size still has a class. */
  predicate Admissible(request: int, align: int) {
    && (align == 16 || align == 32) && 0 <= request
    && BufferSize(request, align) < MAX_AREA
    && SearchSize(BufferSize(request, align)) < MAX_AREA
  }

  /** A request that is its own rounded size. */
  predicate Rounded(request: int, align: int) {
    Admissible(request, align) && BufferSize(request, align) == request
  }

  /** The size malloc_ex looks for. */
  function FitSize(request: int, align: int): int
    requires Admissible(request, align)
  {
    SearchSize(BufferSize(request, align))
  }

  /** The size searched for covers the request; beyond the smallest blocks it
      exceeds the rounded request by less than one part in 32. */
  lemma GoodFit(request: int, align: int)
    requires Admissible(request, align)
    ensures request <= BufferSize(request, align) <= FitSize(request, align)
    ensures 32 * (FitSize(request, align) - BufferSize(request, align)) < BufferSize(request, align)
    ensures FitSize(request, align) % 16 == 0
  {
    hide SearchSize, BufferSize;
    var s := BufferSize(request, align);
    assert s % 4 == 0;
    SearchFit(s);
    SearchAligned(s);
  }

  /** The rounded request is the least multiple of the alignment that covers it, but
      no less than the smallest block. */
  lemma RoundedUp(request: int, align: int)
    requires (align == 16 || align == 32) && request >= 0
    ensures request < MIN_BLOCK_SIZE ==> BufferSize(request, align) == MIN_BLOCK_SIZE
    ensures request >= MIN_BLOCK_SIZE ==> BufferSize(request, align) % align == 0 && BufferSize(request, align) < request + align
  {
    hide RoundUp;
    if request >= MIN_BLOCK_SIZE {
      RoundUpIs(request, align);
    }
  }

  lemma RoundTwice(r: int, align: int)
    requires (align == 16 || align == 32) && r >= MIN_BLOCK_SIZE
    ensures BufferSize(BufferSize(r, align), align) == BufferSize(r, align)
  {
  }

  /** Size of the block that holds the area record. */
  function RecordSize(align: int): int
    requires align >= 1
  {
    RoundUp(16, align)
  }

  /** Size of the block that takes the rest of an area, three headers apart. */
  function MainSize(areaSize: int, align: int): int
    requires align >= 1
  {
    var room := areaSize - 3 * BHDR_OVERHEAD - RecordSize(align);
    room - room % align
  }

  /** The record block and the main block fit the area, aligned. */
  lemma AreaSizes(area: int, areaSize: int, align: int)
    requires align == 16 || align == 32
    requires 0 < area && area % 16 == 0 && 8 * BHDR_OVERHEAD <= areaSize < MAX_AREA
    ensures var record, size := RecordSize(align), MainSize(areaSize, align);
            && 16 <= record <= 32 && (area + BHDR_OVERHEAD + record) % 16 == 0
            && MIN_BLOCK_SIZE <= size && size % 16 == 0
            && areaSize - 3 * BHDR_OVERHEAD - record - align < size <= areaSize - 3 * BHDR_OVERHEAD - record
  {
    var room := areaSize - 3 * BHDR_OVERHEAD - RecordSize(align);
    RoomSize(room, align);
    assert RecordSize(align) == if align == 16 then 16 else 32;
    hide RecordSize;
    RecordAligned(area, RecordSize(align));
  }

  lemma RoomSize(room: int, align: int)
    requires align == 16 || align == 32
    ensures (room - room % align) % 16 == 0 && room - align < room - room % align <= room
  {
    if align == 16 {
    } else {
      var q := room / 32;
      assert room - room % 32 == 16 * (2 * q);
    }
  }

  lemma RecordAligned(area: int, record: int)
    requires area % 16 == 0 && (record == 16 || record == 32)
    ensures (area + BHDR_OVERHEAD + record) % 16 == 0
  {
  }

  /** A request that exceeds a live block is rounded once and for all. */
  lemma LargeRequest(newSize: int, align: int, size: int)
    requires Admissible(newSize, align) && size >= MIN_BLOCK_SIZE && BufferSize(newSize, align) > size
    ensures Admissible(BufferSize(newSize, align), align)
    ensures BufferSize(BufferSize(newSize, align), align) == BufferSize(newSize, align)
    ensures FitSize(BufferSize(newSize, align), align) == FitSize(newSize, align)
  {
    RoundTwice(newSize, align);
  }

  /** Block b reaches need where it is, alone or with its free successor. */
  ghost predicate FitsInPlace(blk: Layout, end: int, b: int, need: int) {
    && b in Live(blk, end)
    && (need <= blk[b].size || (var n := Next(blk, b); n in blk && blk[n].free && need <= blk[b].size + blk[n].size))
  }

  /** What realloc_ex does for a positive size. The live allocations lose the old block
      and gain one that has room for the request and starts with the old contents, as
      far as they fit. The block stays where it is exactly if it is large enough, or is
      with a free successor; then it is cut to the request. Otherwise the new one is
      the best fit that malloc_ex takes. A failure changes nothing. */
  ghost predicate Reallocated(ptr: int, p: int, newSize: int, align: int, end: int, mem: Mem, mem': Mem, blk: Layout, blk': Layout)
    requires Admissible(newSize, align)
  {
    var need, fit := BufferSize(newSize, align), FitSize(newSize, align);
    var b, c := ptr - BHDR_OVERHEAD, p - BHDR_OVERHEAD;
    var live, live' := Live(blk, end), Live(blk', end);
    && (p == NULL <==> !FitsInPlace(blk, end, b, need) && NoneReaches(blk, fit))
    && (p == NULL ==> mem' == mem && blk' == blk)
    && (p != NULL ==> Replaced(live, live', b, c, need))
    && (p != NULL ==> if FitsInPlace(blk, end, b, need) then p == ptr && Stayed(blk, live', b, need)
                                                        else p != ptr && Taken(blk, live', c, fit))
    && (p != NULL && b in live ==> Copied(mem, mem', b, c, Min(live[b], need)))
  }

  /** The counters of realloc_ex: used_size follows the live buffers, and with the free
      blocks adds up to the same number; max_size is the highest used_size so far. In a
      move both buffers are live for a moment. */
  ghost predicate Counters(ptr: int, p: int, newSize: int, end: int, used: int, max: int, used': int, max': int, blk: Layout, blk': Layout)
  {
    var b, c := ptr - BHDR_OVERHEAD, p - BHDR_OVERHEAD;
    var live, live' := Live(blk, end), Live(blk', end);
    && used' + FreeSum(blk') == used + FreeSum(blk)
    && (p == NULL ==> max' == max && used' == used - if newSize == 0 && b in live then BHDR_OVERHEAD + live[b] else 0)
    && (p != NULL && b !in live ==> c in live' && used' == used + BHDR_OVERHEAD + live'[c] && max' == Max(max, used'))
    && (p != NULL && b in live ==> Recounted(used, max, used', max', live, live', b, c))
  }

  /** ls_bit of a bitmap given by its set bits. */
  function LsBit(s: set<int>): (n: int)
    ensures s == {} ==> n == -1
    ensures s != {} ==> n in s && forall k :: k in s ==> n <= k
  {
    if s == {} then -1 else Least(s)
  }

  class Tlsf {
    const align: int
    const first: int
    const end: int
    var mem: Mem
    var matrix: map<Class, int>
    var flBitmap: set<int>
    var slBitmap: map<int, set<int>>
    var usedSize: int
    var maxSize: int
    ghost var blk: Layout
    ghost var lists: Lists

    /** The tiling and the free lists, with the blocks of `out` taken off. */
    ghost predicate Shape(out: set<int>)
      reads this
    {
      && (align == 16 || align == 32)
      && Tiled(blk, first, end) && Covered(mem, first, end)
      && FreeLists(mem, matrix, flBitmap, slBitmap, lists, blk, out)
    }

    /** The whole structure: the blocks tile the area and are coalesced, the
        boundary tags are true, and the free lists and bitmaps index exactly the
        free blocks. */
    ghost predicate Wf()
      reads this
    {
      && Shape({}) && Aligned(blk)
      && Coalesced(blk, end) && Tagged(mem, blk, first, end)
    }

    ghost predicate Valid()
      reads this
    {
      Wf() && usedSize <= maxSize
    }

    /** process_area and init_memory_pool: after a small block for the area
        record, one block takes all the room up to the sentinel, and is freed. */
    constructor (area: int, areaSize: int, poolSize: int, align: int, content: Mem)
      requires align == 16 || align == 32
      requires 0 < area && area % 16 == 0 && 8 * BHDR_OVERHEAD <= areaSize < MAX_AREA
      requires Covered(content, area, area + areaSize - BHDR_OVERHEAD)
      ensures Wf() && this.align == align
      ensures area < first && end + BHDR_OVERHEAD <= area + areaSize && areaSize - (end - area) < 2 * align
      ensures Live(blk, end) == map[]
      ensures usedSize == maxSize && usedSize + FreeSum(blk) == poolSize + BHDR_OVERHEAD
    {
      var record := RecordSize(align);
      var size := MainSize(areaSize, align);
      var b := area + BHDR_OVERHEAD + record;
      var lb := b + BHDR_OVERHEAD + size;
      this.align := align;
      first := b;
      end := lb;
      mem := content[b + 8 := Tag(size, false, false)][b + 16 := Ptr(NULL)][b + 24 := Ptr(NULL)]
               [lb := Ptr(b)][lb + 8 := Tag(0, false, true)];
      matrix := EmptyMatrix();
      flBitmap := {};
      slBitmap := EmptyWords();
      usedSize := 0;
      maxSize := 0;
      blk := map[b := Blk(size, false), lb := Blk(0, false)];
      lists := EmptyLists();
      new;
      hide Linked, Indexed, Bitmapped, Kept, TaggedBut, Covered, Tiled, Aligned, Coalesced;
      hide EmptyMatrix, EmptyWords, EmptyLists, RecordSize, MainSize, Live, FreeSum;
      AreaSizes(area, areaSize, align);
      CoveredPart(content, area, area + areaSize, b, lb);
      InitialLayout(content, b, lb, size);
      EmptyTables(mem, blk);
      OpenPool(poolSize);
    }

    /** init_memory_pool, second part: free the main block and start the counters. */
    method OpenPool(poolSize: int)
      requires Shape({}) && Aligned(blk) && Coalesced(blk, end) && first in Live(blk, end)
      requires Live(blk, end) == map[first := blk[first].size] && FreeSum(blk) == 0
      requires TaggedBut(mem, blk, first, end, first) && TagOf(mem, first, blk[first])
      requires blk[first].size == end - first - BHDR_OVERHEAD && usedSize == 0
      modifies this
      ensures Wf() && Live(blk, end) == map[]
      ensures usedSize == maxSize && usedSize + FreeSum(blk) == poolSize + BHDR_OVERHEAD
    {
      hide Linked, Indexed, Bitmapped, Kept, TaggedBut, Covered, Tiled, Aligned, Coalesced, Live, FreeSum;
      FreeBlock(first);
      SoleBlock(blk, first, end);
      TagsOf(mem, blk, first, end, first);
      usedSize := poolSize - mem[first + 8].size;
      maxSize := usedSize;
    }

    /** Write one word of the area. */
    method Store(w: int, v: Word)
      requires w in mem
      modifies this`mem
      ensures mem == old(mem)[w := v]
    {
      mem := mem[w := v];
    }

    /** FIND_SUITABLE_BLOCK: the head of the first non-empty list at or above c,
        or NULL exactly when all of them are empty. */
    method FindSuitableBlock(c: Class) returns (b: int, d: Class)
      requires Linked(mem, matrix, lists) && Bitmapped(flBitmap, slBitmap, lists) && IsClass(c)
      requires forall e, x :: IsClass(e) && e in lists && x in lists[e] ==> x != NULL
      ensures b == NULL <==> forall e :: IsClass(e) && AtLeast(e, c) ==> lists[e] == []
      ensures b != NULL ==> IsClass(d) && AtLeast(d, c) && lists[d] != [] && b == lists[d][0]
      ensures b != NULL ==> forall e :: IsClass(e) && AtLeast(e, c) && lists[e] != [] ==> AtLeast(e, d)
    {
      d := c;
      b := NULL;
      var tmp := set s | s in slBitmap[c.fl] && c.sl <= s;
      var tmpFl := set f | f in flBitmap && c.fl + 1 <= f;
      if tmp != {} {
        d := Class(c.fl, LsBit(tmp));
        b := matrix[d];
        assert lists[d][0] in lists[d];
      } else {
        var fl := LsBit(tmpFl);
        if fl > 0 {
          assert fl in flBitmap;
          d := Class(fl, LsBit(slBitmap[fl]));
          b := matrix[d];
          assert lists[d][0] in lists[d];
        }
      }
      forall e | IsClass(e) && AtLeast(e, c) && lists[e] != []
        ensures b != NULL && AtLeast(e, d)
      {
        BitsOf(e);
        assert if e.fl == c.fl then e.sl in tmp else e.fl in tmpFl;
      }
    }

    lemma BitsOf(e: Class)
      requires Bitmapped(flBitmap, slBitmap, lists) && IsClass(e) && e in lists && lists[e] != []
      ensures e.fl in flBitmap && e.fl in slBitmap && e.sl in slBitmap[e.fl]
    {
    }

    /** EXTRACT_BLOCK_HDR: unlink the head of list c. */
    method ExtractBlockHdr(b: int, c: Class, ghost out: set<int>)
      requires FreeLists(mem, matrix, flBitmap, slBitmap, lists, blk, out)
      requires Tiled(blk, first, end)
      requires IsClass(c) && lists[c] != [] && b == lists[c][0]
      modifies this`mem, this`matrix, this`flBitmap, this`slBitmap, this`lists
      ensures FreeLists(mem, matrix, flBitmap, slBitmap, lists, blk, out + {b})
      ensures lists == old(lists)[c := old(lists)[c][1..]]
      ensures Undisturbed(old(mem), mem, blk)
    {
      hide Linked, Indexed, Bitmapped, Undisturbed, Tiled;
      AllClasses(mem, matrix, lists);
      NoNull(blk, first, end);
      Neighbours(mem, matrix, lists, blk, out, c, 0);
      assert Without(lists[c], 0) == lists[c][1..];
      Extracted(mem, matrix, lists, blk, out, c, 0, first, end);
      var next := mem[b + 24].addr;
      TakeHead(c, 0, next);
      if next != NULL {
        Store(next + 16, Ptr(NULL));
      }
      Store(b + 16, Ptr(NULL));
      Store(b + 24, Ptr(NULL));
    }

    /** EXTRACT_BLOCK: unlink a block from anywhere in list c. */
    method ExtractBlock(b: int, c: Class, ghost out: set<int>)
      requires FreeLists(mem, matrix, flBitmap, slBitmap, lists, blk, out)
      requires Tiled(blk, first, end)
      requires IsClass(c) && b in lists[c]
      modifies this`mem, this`matrix, this`flBitmap, this`slBitmap, this`lists
      ensures FreeLists(mem, matrix, flBitmap, slBitmap, lists, blk, out + {b})
      ensures exists k {:trigger old(lists)[c][k]} :: 0 <= k < |old(lists)[c]| && old(lists)[c][k] == b
                && lists == old(lists)[c := Without(old(lists)[c], k)]
      ensures Undisturbed(old(mem), mem, blk)
    {
      hide Linked, Indexed, Bitmapped, Undisturbed, Tiled;
      AllClasses(mem, matrix, lists);
      NoNull(blk, first, end);
      ghost var k :| 0 <= k < |lists[c]| && lists[c][k] == b;
      Neighbours(mem, matrix, lists, blk, out, c, k);
      Extracted(mem, matrix, lists, blk, out, c, k, first, end);
      var next, prev := mem[b + 24].addr, mem[b + 16].addr;
      if next != NULL {
        Store(next + 16, Ptr(prev));
      }
      if prev != NULL {
        Store(prev + 24, Ptr(next));
      }
      if matrix[c] == b {
        TakeHead(c, k, next);
      } else {
        KeepHead(flBitmap, slBitmap, lists, c, Without(lists[c], k));
        assert matrix[c := matrix[c]] == matrix;
        lists := lists[c := Without(lists[c], k)];
      }
      Store(b + 16, Ptr(NULL));
      Store(b + 24, Ptr(NULL));
    }

    /** The matrix and bitmap part of both extract macros. */
    method TakeHead(c: Class, ghost k: int, next: int)
      requires Bitmapped(flBitmap, slBitmap, lists) && IsClass(c) && c in lists
      requires 0 <= k < |lists[c]| && next == Head(Without(lists[c], k)) && (next == NULL <==> Without(lists[c], k) == [])
      modifies this`matrix, this`flBitmap, this`slBitmap, this`lists
      ensures matrix == old(matrix)[c := next]
      ensures lists == old(lists)[c := Without(old(lists)[c], k)]
      ensures Bitmapped(flBitmap, slBitmap, lists)
    {
      matrix := matrix[c := next];
      lists := lists[c := Without(lists[c], k)];
      if matrix[c] == NULL {
        slBitmap := slBitmap[c.fl := slBitmap[c.fl] - {c.sl}];
        if slBitmap[c.fl] == {} {
          flBitmap := flBitmap - {c.fl};
        }
      }
    }

    /** INSERT_BLOCK: push a free block on list c. */
    method InsertBlock(b: int, c: Class, ghost out: set<int>)
      requires FreeLists(mem, matrix, flBitmap, slBitmap, lists, blk, out)
      requires Tiled(blk, first, end)
      requires b in out && b in blk && blk[b].free && c == ClassOf(blk[b].size) && IsClass(c)
      requires b + 16 in mem && b + 24 in mem
      modifies this`mem, this`matrix, this`flBitmap, this`slBitmap, this`lists
      ensures FreeLists(mem, matrix, flBitmap, slBitmap, lists, blk, out - {b})
      ensures c in old(lists) && lists == old(lists)[c := [b] + old(lists)[c]]
      ensures Undisturbed(old(mem), mem, blk)
    {
      hide Linked, Indexed, Bitmapped, Undisturbed, Tiled;
      AllClasses(mem, matrix, lists);
      HeadLinks(mem, matrix, lists, c);
      Inserted(mem, matrix, lists, blk, out, b, first, end);
      Store(b + 16, Ptr(NULL));
      Store(b + 24, Ptr(matrix[c]));
      if matrix[c] != NULL {
        Store(matrix[c] + 16, Ptr(b));
      }
      matrix := matrix[c := b];
      AddHead(b, c);
    }

    /** The bitmap part of INSERT_BLOCK. */
    method AddHead(b: int, c: Class)
      requires Bitmapped(flBitmap, slBitmap, lists) && IsClass(c) && c in lists
      modifies this`flBitmap, this`slBitmap, this`lists
      ensures lists == old(lists)[c := [b] + old(lists)[c]]
      ensures Bitmapped(flBitmap, slBitmap, lists)
    {
      lists := lists[c := [b] + lists[c]];
      slBitmap := slBitmap[c.fl := slBitmap[c.fl] + {c.sl}];
      flBitmap := flBitmap + {c.fl};
    }

    /** Cut the unlisted block b after r bytes, list the rest, and mark the first
        part used: the code shared by the three places that split a block. The
        successor already has its PREV_FREE bit. */
    method SplitBlock(b: int, r: int, tmp: int, nextB: int)
      requires Tiled(blk, first, end) && Covered(mem, first, end)
      requires FreeLists(mem, matrix, flBitmap, slBitmap, lists, blk, {b})
      requires b in blk && b != end && MIN_BLOCK_SIZE <= r && r + BHDR_SIZE <= blk[b].size
      requires TaggedBut(mem, blk, first, end, b) && b + 8 in mem && mem[b + 8].Tag?
      requires tmp == blk[b].size - r - BHDR_OVERHEAD && nextB == Next(blk, b)
      requires nextB + 8 in mem && mem[nextB + 8].Tag? && mem[nextB + 8].prevFree
      modifies this`mem, this`matrix, this`flBitmap, this`slBitmap, this`lists, this`blk
      ensures Covered(mem, first, end)
      ensures blk == Split(old(blk), b, r, false, true)
      ensures FreeLists(mem, matrix, flBitmap, slBitmap, lists, blk, {})
      ensures Tagged(mem, blk, first, end)
      ensures Kept(old(mem), mem, blk, 0)
    {
      hide Tiled, Linked, Indexed, Bitmapped, Undisturbed, Kept, TaggedBut, Covered;
      ghost var blk0, mem0 := blk, mem;
      var b2 := b + BHDR_OVERHEAD + r;
      BeforeListing(mem, matrix, lists, blk, first, end, b, r);
      blk := Split(blk, b, r, false, true);
      Store(b2 + 8, Tag(tmp, true, false));
      Store(nextB, Ptr(b2));
      ghost var mem1 := mem;
      assert mem1 == SplitMem(mem0, b2, tmp, nextB);
      InsertBlock(b2, MappingInsert(tmp), {b2});
      ghost var mem2 := mem;
      assert {b2} - {b2} == {};
      ListingKeepsTag(mem0, mem1, mem2, blk, first, end, b, b2, tmp, nextB);
      Store(b + 8, Tag(r, false, mem[b + 8].prevFree));
      AfterListing(mem0, mem1, mem2, mem, matrix, lists, blk0, blk, first, end, b, r);
    }

    /** Block b is free, unlisted, and waits to be merged with its neighbours. */
    ghost predicate Releasing(b: int)
      reads this
    {
      && (align == 16 || align == 32) && Aligned(blk)
      && Loose(mem, blk, first, end, b)
      && FreeLists(mem, matrix, flBitmap, slBitmap, lists, blk, {b})
    }

    /** free_ex, second part: take over a free successor. */
    method MergeNext(b: int)
      requires Releasing(b)
      modifies this`mem, this`matrix, this`flBitmap, this`slBitmap, this`lists, this`blk
      ensures Releasing(b) && !blk[Next(blk, b)].free
      ensures Live(blk, end) == old(Live(blk, end)) && FreeSum(blk) == old(FreeSum(blk))
      ensures Kept(old(mem), mem, old(blk), 0)
    {
      hide Linked, Indexed, Bitmapped, Undisturbed, Kept, TaggedBut, Covered, Tiled, CoalescedBut, Aligned;
      ghost var blk0, mem0 := blk, mem;
      ReadNext(mem, blk, first, end, b, b);
      KeptSame(mem, blk);
      var tmp := b + BHDR_OVERHEAD + mem[b + 8].size;
      if mem[tmp + 8].isFree {
        FindListed(lists, blk, first, end, {b}, tmp);
        ExtractBlock(tmp, MappingInsert(mem[tmp + 8].size), {b});
        assert {b} + {tmp} == {b, tmp};
        ghost var mem1 := mem;
        NextIsUsed(blk, first, end, b);
        UndisturbedTags(mem0, mem1, blk, first, end, b);
        Store(b + 8, mem[b + 8].(size := mem[b + 8].size + mem[tmp + 8].size + BHDR_OVERHEAD));
        Merged(mem1, mem, matrix, lists, blk, first, end, b, b, {b, tmp});
        MergeAligned(blk, b, true);
        blk := Merge(blk, b, true);
        KeptTransitive(mem0, mem1, mem, blk0, 0);
      }
    }

    /** free_ex, third part: let a free predecessor take the block over. */
    method MergePrev(b: int) returns (b': int)
      requires Releasing(b) && !blk[Next(blk, b)].free
      modifies this`mem, this`matrix, this`flBitmap, this`slBitmap, this`lists, this`blk
      ensures Releasing(b') && !blk[Next(blk, b')].free
      ensures forall a :: a in blk && a != end && Next(blk, a) == b' ==> !blk[a].free
      ensures Live(blk, end) == old(Live(blk, end)) && FreeSum(blk) == old(FreeSum(blk))
      ensures Kept(old(mem), mem, old(blk), 0)
    {
      hide Linked, Indexed, Bitmapped, Undisturbed, Kept, TaggedBut, Covered, Tiled, CoalescedBut, Aligned;
      ghost var blk0, mem0 := blk, mem;
      b' := b;
      ReadPrev(mem, blk, first, end, b);
      KeptSame(mem, blk);
      if mem[b + 8].prevFree {
        var tmp := mem[b].addr;
        FindListed(lists, blk, first, end, {b}, tmp);
        ExtractBlock(tmp, MappingInsert(mem[tmp + 8].size), {b});
        assert {b} + {tmp} == {tmp, b};
        ghost var mem1 := mem;
        PrevIsUsed(blk, first, end, b, tmp);
        UndisturbedTags(mem0, mem1, blk, first, end, b);
        Store(tmp + 8, mem[tmp + 8].(size := mem[tmp + 8].size + mem[b + 8].size + BHDR_OVERHEAD));
        Merged(mem1, mem, matrix, lists, blk, first, end, b, tmp, {tmp, b});
        MergeAligned(blk, tmp, true);
        blk := Merge(blk, tmp, true);
        KeptTransitive(mem0, mem1, mem, blk0, 0);
        b' := tmp;
      }
    }

    /** free_ex, last part: list the merged block and tell its successor. */
    method ListReleased(b: int)
      requires Releasing(b) && !blk[Next(blk, b)].free
      requires forall a :: a in blk && a != end && Next(blk, a) == b ==> !blk[a].free
      modifies this`mem, this`matrix, this`flBitmap, this`slBitmap, this`lists
      ensures Wf()
      ensures Kept(old(mem), mem, blk, 0)
    {
      hide Linked, Indexed, Bitmapped, Undisturbed, Kept, TaggedBut, Covered, Tiled, CoalescedBut, Aligned, Coalesced;
      ghost var mem0 := mem;
      SizeBound(blk, first, end, b);
      InsertClass(blk[b].size);
      HeaderInMemory(mem, blk, first, end, b);
      InsertBlock(b, MappingInsert(mem[b + 8].size), {b});
      assert {b} - {b} == {};
      ghost var mem1 := mem;
      UndisturbedTags(mem0, mem1, blk, first, end, b);
      var tmp := b + BHDR_OVERHEAD + mem[b + 8].size;
      ReadNext(mem, blk, first, end, b, b);
      HeaderInMemory(mem, blk, first, end, tmp);
      Store(tmp + 8, mem[tmp + 8].(prevFree := true));
      Store(tmp, Ptr(b));
      SuccessorTold(mem1, mem, matrix, lists, blk, first, end, b, {}, mem[tmp + 8]);
      IsCoalesced(blk, end, b);
      KeptTransitive(mem0, mem1, mem, blk, 0);
    }

    /** TLSF_REMOVE_SIZE. */
    method RemoveSize(b: int)
      requires b + 8 in mem && mem[b + 8].Tag?
      modifies this`usedSize
      ensures usedSize == old(usedSize) - (mem[b + 8].size + BHDR_OVERHEAD)
    {
      usedSize := usedSize - (mem[b + 8].size + BHDR_OVERHEAD);
    }

    /** TLSF_ADD_SIZE. */
    method AddSize(b: int)
      requires b + 8 in mem && mem[b + 8].Tag?
      modifies this`usedSize, this`maxSize
      ensures usedSize == old(usedSize) + (mem[b + 8].size + BHDR_OVERHEAD)
      ensures maxSize == if usedSize > old(maxSize) then usedSize else old(maxSize)
    {
      usedSize := usedSize + (mem[b + 8].size + BHDR_OVERHEAD);
      if usedSize > maxSize {
        maxSize := usedSize;
      }
    }

    /** free_ex: the block leaves the live allocations and nothing else changes;
        the structure stays whole, so free neighbours have been merged. */
    method FreeEx(ptr: int)
      requires Wf() && (ptr == NULL || ptr - BHDR_OVERHEAD in Live(blk, end))
      modifies this`mem, this`matrix, this`flBitmap, this`slBitmap, this`lists, this`blk, this`usedSize
      ensures Wf()
      ensures Live(blk, end) == old(Live(blk, end)) - {ptr - BHDR_OVERHEAD}
      ensures usedSize == old(usedSize) - if ptr == NULL then 0 else BHDR_OVERHEAD + old(Live(blk, end))[ptr - BHDR_OVERHEAD]
      ensures usedSize + FreeSum(blk) == old(usedSize + FreeSum(blk)) && usedSize <= old(usedSize)
      ensures Kept(old(mem), mem, old(blk), ptr - BHDR_OVERHEAD)
    {
      hide Linked, Indexed, Bitmapped, Undisturbed, Kept, TaggedBut, Covered, Tiled, CoalescedBut, Aligned, Coalesced;
      if ptr == NULL {
        NoBlockAt(blk, first, end);
        KeptSame(mem, blk);
        return;
      }
      var b := ptr - BHDR_OVERHEAD;
      LiveBlocks(blk, first, end, b);
      TagsOf(mem, blk, first, end, b);
      TaggedWeaken(mem, blk, first, end, b);
      FreeBlock(b);
    }

    /** The body of free_ex, which does not rely on what the successor of the
        block has been told. */
    method FreeBlock(b: int)
      requires Shape({}) && Aligned(blk) && Coalesced(blk, end) && b in Live(blk, end)
      requires TaggedBut(mem, blk, first, end, b) && TagOf(mem, b, blk[b])
      modifies this`mem, this`matrix, this`flBitmap, this`slBitmap, this`lists, this`blk, this`usedSize
      ensures Wf()
      ensures Live(blk, end) == old(Live(blk, end)) - {b}
      ensures usedSize == old(usedSize) - (old(blk)[b].size + BHDR_OVERHEAD)
      ensures usedSize + FreeSum(blk) == old(usedSize + FreeSum(blk)) && usedSize <= old(usedSize)
      ensures Kept(old(mem), mem, old(blk), b)
    {
      hide Linked, Indexed, Bitmapped, Undisturbed, Kept, TaggedBut, Covered, Tiled, CoalescedBut, Aligned, Coalesced;
      ghost var mem0, blk0 := mem, blk;
      LiveBlocks(blk, first, end, b);
      HeaderInMemory(mem, blk, first, end, b);
      Store(b + 8, mem[b + 8].(isFree := true));
      ghost var mem1 := mem;
      RemoveSize(b);
      Store(b + 16, Ptr(NULL));
      Store(b + 24, Ptr(NULL));
      MarkedFree(mem0, mem1, mem, matrix, lists, blk, first, end, b);
      RelabelAligned(blk, b, true);
      FreeSumUpdate(blk, b, Blk(blk[b].size, true));
      blk := blk[b := Blk(blk[b].size, true)];
      assert Live(blk, end) == Live(blk0, end) - {b};
      ghost var mem2, blk2 := mem, blk;
      MergeNext(b);
      ghost var mem3, blk3 := mem, blk;
      var b' := MergePrev(b);
      ghost var mem4 := mem;
      ListReleased(b');
      FreeKept(mem0, mem2, mem3, mem4, mem, blk0, blk2, blk3, blk, first, end, b);
    }

    /** malloc_ex, when the block found is handed out whole. */
    method MarkUsed(b: int, nextB: int)
      requires Tiled(blk, first, end) && Covered(mem, first, end)
      requires FreeLists(mem, matrix, flBitmap, slBitmap, lists, blk, {b})
      requires b in blk && b != end && blk[b].free && nextB == Next(blk, b) && nextB != b
      requires TaggedBut(mem, blk, first, end, b) && TagOf(mem, b, blk[b])
      requires nextB + 8 in mem && mem[nextB + 8].Tag?
      modifies this`mem, this`blk
      ensures blk == old(blk)[b := Blk(old(blk)[b].size, false)]
      ensures Covered(mem, first, end) && Tagged(mem, blk, first, end)
      ensures FreeLists(mem, matrix, flBitmap, slBitmap, lists, blk, {})
      ensures Kept(old(mem), mem, old(blk), 0)
    {
      hide Linked, Indexed, Bitmapped, Kept, TaggedBut, Covered, Tiled;
      ghost var mem1 := mem;
      Store(nextB + 8, mem[nextB + 8].(prevFree := false));
      ghost var mem2 := mem;
      Store(b + 8, mem[b + 8].(isFree := false));
      MarkedUsed(mem1, mem2, mem, matrix, lists, blk, first, end, b);
      blk := blk[b := Blk(blk[b].size, false)];
    }

    /** malloc_ex once a block has been found: take r bytes of it, or all of it
        when the rest could not hold a block. */
    method Allocate(b: int, d: Class, r: int)
      requires Valid() && IsClass(d) && lists[d] != [] && b == lists[d][0]
      requires b in blk && b != end && blk[b].free && r % 16 == 0 && MIN_BLOCK_SIZE <= r <= blk[b].size
      modifies this`mem, this`matrix, this`flBitmap, this`slBitmap, this`lists, this`blk, this`usedSize, this`maxSize
      ensures Valid()
      ensures b !in old(Live(blk, end)) && b in Live(blk, end)
      ensures Live(blk, end) == old(Live(blk, end))[b := Live(blk, end)[b]]
      ensures Live(blk, end)[b] == Portion(old(blk)[b].size, r)
      ensures usedSize == old(usedSize) + BHDR_OVERHEAD + Live(blk, end)[b]
      ensures usedSize + FreeSum(blk) == old(usedSize + FreeSum(blk))
      ensures maxSize == if usedSize > old(maxSize) then usedSize else old(maxSize)
      ensures Kept(old(mem), mem, old(blk), 0)
    {
      hide Linked, Indexed, Bitmapped, Undisturbed, Kept, TaggedBut, Covered, Tiled, CoalescedBut, Aligned, Coalesced;
      hide Live, FreeSum, ClassOf;
      ghost var mem0, blk0 := mem, blk;
      ReadFree(mem, blk, first, end, b);
      ExtractBlockHdr(b, d, {});
      assert {} + {b} == {b};
      ghost var mem1 := mem;
      UndisturbedTags(mem0, mem1, blk, first, end, 0);
      TaggedWeaken(mem, blk, first, end, b);
      var nextB := b + BHDR_OVERHEAD + mem[b + 8].size;
      var tmp := mem[b + 8].size - r;
      if tmp >= BHDR_SIZE {
        tmp := tmp - BHDR_OVERHEAD;
        CutFree(blk, first, end, b, r);
        SplitAligned(blk, b, r, false, true);
        SplitBlock(b, r, tmp, nextB);
      } else {
        TakeFree(blk, first, end, b);
        RelabelAligned(blk, b, false);
        MarkUsed(b, nextB);
      }
      AllocationKept(mem0, mem1, mem, blk0, blk, first, end, b);
      TagsOf(mem, blk, first, end, b);
      AddSize(b);
    }

    /** malloc_ex: NULL exactly when no free block reaches the rounded size;
        otherwise the head of the first list from the class searched on gives way to
        an allocation at least as large as the request, at most 31 bytes above the
        rounded size, and its free rest. No free block that reaches the rounded size
        would have been a better fit by one part in 32. */
    method MallocEx(request: int) returns (p: int)
      requires Valid() && Admissible(request, align)
      modifies this`mem, this`matrix, this`flBitmap, this`slBitmap, this`lists, this`blk, this`usedSize, this`maxSize
      ensures Valid()
      ensures p == NULL <==> NoneReaches(old(blk), FitSize(request, align))
      ensures p == NULL ==> mem == old(mem) && blk == old(blk) && usedSize == old(usedSize) && maxSize == old(maxSize)
      ensures p != NULL ==> var b := p - BHDR_OVERHEAD;
                b in old(blk) && old(blk)[b].free && b !in old(Live(blk, end)) && b in Live(blk, end)
                && Live(blk, end) == old(Live(blk, end))[b := Live(blk, end)[b]]
                && FitSize(request, align) <= Live(blk, end)[b] < FitSize(request, align) + BHDR_SIZE
                && Taken(old(blk), Live(blk, end), b, FitSize(request, align))
      ensures p != NULL ==> var l := old(lists)[ClassOf(old(blk)[p - BHDR_OVERHEAD].size)]; l != [] && l[0] == p - BHDR_OVERHEAD
      ensures usedSize + FreeSum(blk) == old(usedSize + FreeSum(blk))
      ensures p != NULL ==> usedSize == old(usedSize) + BHDR_OVERHEAD + Live(blk, end)[p - BHDR_OVERHEAD]
      ensures p != NULL ==> maxSize == if usedSize > old(maxSize) then usedSize else old(maxSize)
      ensures Kept(old(mem), mem, old(blk), 0)
    {
      hide Linked, Indexed, Bitmapped, Undisturbed, Kept, TaggedBut, Covered, Tiled, CoalescedBut, Aligned, Coalesced;
      hide MappingSearch, MappingInsert, BufferSize, AtLeast;
      var size := BufferSize(request, align);
      var (r, c) := MappingSearch(size);
      ListedNotNull(lists, blk, first, end, {});
      AllClasses(mem, matrix, lists);
      SearchFailed(lists, blk, first, end, size);
      KeptSame(mem, blk);
      var b, d := FindSuitableBlock(c);
      if b == NULL {
        return NULL;
      }
      assert b in lists[d];
      FoundFits(lists, blk, first, end, size, b, d);
      SearchFound(lists, blk, first, end, size, b, d);
      GoodFit(request, align);
      BlockPositive(blk, first, end, b);
      Allocate(b, d, r);
      p := b + BHDR_OVERHEAD;
    }

    /** The user writes inside a live buffer: the structure stays whole and no
        other live buffer changes. */
    method WriteUser(b: int, w: int, v: Word)
      requires Wf() && b in Live(blk, end) && b + BHDR_OVERHEAD <= w < b + BHDR_OVERHEAD + Live(blk, end)[b]
      modifies this`mem
      ensures Wf() && mem == old(mem)[w := v] && Kept(old(mem), mem, blk, b)
    {
      hide Linked, Indexed, Bitmapped, Kept, TaggedBut, Tiled, Aligned, Coalesced;
      ghost var mem0 := mem;
      LiveBlocks(blk, first, end, b);
      SizeBound(blk, first, end, b);
      BlockInArea(blk, first, end, b);
      Store(w, v);
      UserStored(mem0, mem, matrix, lists, blk, first, end, b, w, v);
    }

    /** memcpy of n bytes between two live buffers. */
    method CopyUser(dst: int, src: int, n: int)
      requires Wf() && dst in Live(blk, end) && src in Live(blk, end) && dst != src
      requires 0 <= n <= Live(blk, end)[dst] && n <= Live(blk, end)[src]
      modifies this`mem
      ensures Wf() && Kept(old(mem), mem, blk, dst)
      ensures Copied(old(mem), mem, src, dst, n)
    {
      hide Kept, TaggedBut, Tiled, Covered, Linked, Indexed, Bitmapped, Aligned, Coalesced;
      ghost var mem0 := mem;
      KeptSame(mem, blk);
      LiveBlocks(blk, first, end, src);
      LiveBlocks(blk, first, end, dst);
      var k := 0;
      while k < n
        invariant 0 <= k <= n && Wf() && Kept(mem0, mem, blk, dst)
        invariant Copied(mem0, mem, src, dst, k)
      {
        ghost var mem1 := mem;
        KeptBuffer(mem0, mem, blk, first, end, dst, src, n);
        assert At(src, k) in mem0 && At(src, k) in mem;
        WriteUser(dst, At(dst, k), mem[At(src, k)]);
        CopyStep(mem0, mem1, mem, src, dst, k);
        KeptTransitive(mem0, mem1, mem, blk, dst);
        k := k + 1;
      }
    }

    /** realloc_ex, the split at the end of both in-place branches: block b keeps
        r bytes, the rest becomes a free block. */
    method TrimTo(b: int, r: int, tmp: int, nextB: int)
      requires (align == 16 || align == 32) && Aligned(blk) && r % 16 == 0
      requires Tiled(blk, first, end) && Covered(mem, first, end) && CoalescedBut(blk, end, b)
      requires FreeLists(mem, matrix, flBitmap, slBitmap, lists, blk, {})
      requires b in blk && b != end && !blk[b].free && MIN_BLOCK_SIZE <= r && r + BHDR_SIZE <= blk[b].size
      requires TaggedBut(mem, blk, first, end, b) && b + 8 in mem && mem[b + 8].Tag?
      requires tmp == blk[b].size - r - BHDR_OVERHEAD && nextB == Next(blk, b)
      requires nextB + 8 in mem && mem[nextB + 8].Tag? && nextB in blk && !blk[nextB].free
      modifies this`mem, this`matrix, this`flBitmap, this`slBitmap, this`lists, this`blk
      ensures Wf()
      ensures Live(blk, end) == old(Live(blk, end))[b := r] && b in Live(blk, end)
      ensures FreeSum(blk) == old(FreeSum(blk)) + old(blk)[b].size - r
      ensures Kept(old(mem), mem, blk, 0)
    {
      hide Linked, Indexed, Bitmapped, Kept, TaggedBut, Covered, Tiled, CoalescedBut, Aligned, Coalesced;
      ghost var mem0, blk0 := mem, blk;
      Store(nextB + 8, mem[nextB + 8].(prevFree := true));
      ghost var mem1 := mem;
      NextBitStored(mem0, mem1, matrix, lists, blk, first, end, b, {}, true);
      UsedIsOut(lists, blk, b);
      TrimUsed(blk, first, end, b, r);
      SplitAligned(blk, b, r, false, true);
      SplitBlock(b, r, tmp, nextB);
      TrimKept(mem0, mem1, mem, blk0, first, end, b, r, nextB, mem1[nextB + 8]);
    }

    /** realloc_ex into a free successor, without splitting: block b takes it over
        whole. */
    method AbsorbNext(b: int, nextB: int) returns (ghost mid: Mem)
      requires Wf() && b in Live(blk, end) && nextB == Next(blk, b) && blk[nextB].free
      modifies this`mem, this`matrix, this`flBitmap, this`slBitmap, this`lists, this`blk
      ensures Wf()
      ensures blk == Merge(old(blk), b, false) && b in Live(blk, end)
      ensures Live(blk, end) == old(Live(blk, end))[b := old(blk)[b].size + BHDR_OVERHEAD + old(blk)[nextB].size]
      ensures FreeSum(blk) == old(FreeSum(blk)) - old(blk)[nextB].size - BHDR_OVERHEAD
      ensures Next(blk, b) == nextB + BHDR_OVERHEAD + old(blk)[nextB].size && Next(blk, b) in blk && !blk[Next(blk, b)].free
      ensures Covered(mid, first, end) && Kept(old(mem), mid, old(blk), 0) && Kept(mid, mem, blk, 0)
    {
      hide Linked, Indexed, Bitmapped, Undisturbed, Kept, TaggedBut, Covered, Tiled, CoalescedBut, Aligned, Coalesced;
      ghost var mem0, blk0 := mem, blk;
      LiveBlocks(blk, first, end, b);
      ExtractNext(b, nextB);
      mid := mem;
      var x := nextB + BHDR_OVERHEAD + mem[nextB + 8].size;
      ReadNext(mem, blk, first, end, b, b);
      HeaderInMemory(mem, blk, first, end, x);
      Store(b + 8, mem[b + 8].(size := mem[b + 8].size + mem[nextB + 8].size + BHDR_OVERHEAD));
      ghost var mem2 := mem;
      Store(x, Ptr(b));
      ghost var mem3 := mem;
      Store(x + 8, mem[x + 8].(prevFree := false));
      AbsorbStored(mid, mem2, mem3, mem, matrix, lists, blk, first, end, b, x);
      UsedCoalesced(blk, end, b);
    }

    /** realloc_ex: take the free successor of a live block off its list and out
        of the layout. */
    method ExtractNext(b: int, nextB: int)
      requires Wf() && b in Live(blk, end) && nextB == Next(blk, b) && blk[nextB].free
      modifies this`mem, this`matrix, this`flBitmap, this`slBitmap, this`lists, this`blk
      ensures blk == Merge(old(blk), b, false) && Tiled(blk, first, end) && Covered(mem, first, end)
      ensures Aligned(blk) && CoalescedBut(blk, end, b) && TaggedBut(mem, blk, first, end, b)
      ensures FreeLists(mem, matrix, flBitmap, slBitmap, lists, blk, {})
      ensures b in blk && b != end && !blk[b].free && b in Live(blk, end)
      ensures Live(blk, end) == old(Live(blk, end))[b := old(blk)[b].size + BHDR_OVERHEAD + old(blk)[nextB].size]
      ensures FreeSum(blk) == old(FreeSum(blk)) - old(blk)[nextB].size - BHDR_OVERHEAD
      ensures Next(blk, b) == nextB + BHDR_OVERHEAD + old(blk)[nextB].size
      ensures Next(blk, b) in blk && !blk[Next(blk, b)].free
      ensures b + 8 in mem && mem[b + 8].Tag? && mem[b + 8].size == old(blk)[b].size && !mem[b + 8].isFree
      ensures nextB + 8 in mem && mem[nextB + 8].Tag? && mem[nextB + 8].size == old(blk)[nextB].size >= MIN_BLOCK_SIZE
      ensures Kept(old(mem), mem, old(blk), 0)
    {
      hide Linked, Indexed, Bitmapped, Undisturbed, Kept, TaggedBut, Covered, Tiled, CoalescedBut, Aligned, Coalesced;
      hide ClassOf, MappingInsert, Live, FreeSum;
      LiveBlocks(blk, first, end, b);
      SuccessorSize(blk, first, end, b);
      ghost var mem0, blk0 := mem, blk;
      LiveBlocks(blk, first, end, b);
      TagsOf(mem, blk, first, end, b);
      TaggedWeaken(mem, blk, first, end, b);
      ReadNext(mem, blk, first, end, b, b);
      AbsorbLayout(blk, first, end, b);
      FindListed(lists, blk, first, end, {}, nextB);
      ExtractBlock(nextB, MappingInsert(mem[nextB + 8].size), {});
      assert {} + {nextB} == {nextB} && {nextB} - {b, nextB} + {} == {};
      UndisturbedTags(mem0, mem, blk, first, end, 0);
      TaggedWeaken(mem, blk, first, end, b);
      MergeIndexed(lists, blk, b, false, {nextB});
      MergeTaggedBut(mem, blk, first, end, b, b, false);
      MergeAligned(blk, b, false);
      blk := Merge(blk, b, false);
    }

    /** realloc_ex, first branch: the block is large enough already. What is left
        over, together with a free successor, becomes a free block. */
    method Shrink(b: int, need: int)
      requires Valid() && b in Live(blk, end) && MIN_BLOCK_SIZE <= need <= Live(blk, end)[b] && need % 16 == 0
      modifies this`mem, this`matrix, this`flBitmap, this`slBitmap, this`lists, this`blk, this`usedSize, this`maxSize
      ensures Valid() && b in Live(blk, end)
      ensures Live(blk, end) == old(Live(blk, end))[b := Live(blk, end)[b]]
      ensures need <= Live(blk, end)[b] <= old(Live(blk, end))[b]
      ensures Stayed(old(blk), Live(blk, end), b, need)
      ensures Recounted(old(usedSize), old(maxSize), usedSize, maxSize, old(Live(blk, end)), Live(blk, end), b, b)
      ensures usedSize + FreeSum(blk) == old(usedSize + FreeSum(blk)) && maxSize == old(maxSize)
      ensures Kept(old(mem), mem, old(blk), b) && Copied(old(mem), mem, b, b, need)
    {
      hide Linked, Indexed, Bitmapped, Undisturbed, Kept, TaggedBut, Covered, Tiled, CoalescedBut, Aligned, Coalesced;
      hide Copied;
      ghost var mem0, blk0 := mem, blk;
      LiveBlocks(blk, first, end, b);
      TagsOf(mem, blk, first, end, b);
      TaggedWeaken(mem, blk, first, end, b);
      ReadNext(mem, blk, first, end, b, b);
      KeptSame(mem, blk);
      var nextB := b + BHDR_OVERHEAD + mem[b + 8].size;
      var tmp := mem[b + 8].size;
      RemoveSize(b);
      ghost var mem1 := mem;
      if mem[nextB + 8].isFree {
        ExtractNext(b, nextB);
        mem1 := mem;
        tmp := tmp + mem[nextB + 8].size + BHDR_OVERHEAD;
        nextB := nextB + BHDR_OVERHEAD + mem[nextB + 8].size;
        ReadNext(mem, blk, first, end, b, b);
      } else {
        WeakCoalesced(blk, end, b);
      }
      tmp := tmp - need;
      if tmp >= BHDR_SIZE {
        TrimTo(b, need, tmp - BHDR_OVERHEAD, nextB);
      }
      ResizeKept(mem0, mem1, mem, blk0, blk, first, end, b, need);
      TagsOf(mem, blk, first, end, b);
      AddSize(b);
    }

    /** realloc_ex, second branch: grow into a free successor and give back what
        is not needed. */
    method Grow(b: int, need: int, nextB: int)
      requires Valid() && b in Live(blk, end) && need % 16 == 0 && nextB == Next(blk, b)
      requires blk[nextB].free && blk[b].size < need <= blk[b].size + blk[nextB].size
      modifies this`mem, this`matrix, this`flBitmap, this`slBitmap, this`lists, this`blk, this`usedSize, this`maxSize
      ensures Valid() && b in Live(blk, end)
      ensures Live(blk, end) == old(Live(blk, end))[b := Live(blk, end)[b]]
      ensures need <= Live(blk, end)[b] < need + BHDR_SIZE
      ensures Stayed(old(blk), Live(blk, end), b, need)
      ensures Recounted(old(usedSize), old(maxSize), usedSize, maxSize, old(Live(blk, end)), Live(blk, end), b, b)
      ensures usedSize + FreeSum(blk) == old(usedSize + FreeSum(blk))
      ensures Kept(old(mem), mem, old(blk), b) && Copied(old(mem), mem, b, b, old(blk)[b].size)
    {
      hide Linked, Indexed, Bitmapped, Undisturbed, Kept, TaggedBut, Covered, Tiled, CoalescedBut, Aligned, Coalesced;
      hide Copied;
      ghost var mem0, blk0 := mem, blk;
      LiveBlocks(blk, first, end, b);
      TagsOf(mem, blk, first, end, b);
      RemoveSize(b);
      ghost var mid := AbsorbNext(b, nextB);
      ghost var mem1, blk1 := mem, blk;
      TagsOf(mem, blk, first, end, b);
      TaggedWeaken(mem, blk, first, end, b);
      WeakCoalesced(blk, end, b);
      ReadNext(mem, blk, first, end, b, b);
      LiveBlocks(blk, first, end, b);
      SuccessorIn(blk0, first, end, b);
      assert blk[b].size == Room(blk0, b);
      ResizeKept(mem0, mid, mem1, blk0, blk, first, end, b, blk0[b].size);
      KeptSame(mem, blk);
      var next2 := b + BHDR_OVERHEAD + mem[b + 8].size;
      var tmp := mem[b + 8].size - need;
      if tmp >= BHDR_SIZE {
        TrimTo(b, need, tmp - BHDR_OVERHEAD, next2);
      }
      GrowKept(mem0, mem1, mem, blk0, blk1, blk, first, end, b, blk0[b].size);
      TagsOf(mem, blk, first, end, b);
      AddSize(b);
    }

    /** realloc_ex, last branch: allocate elsewhere, copy, free. */
    method Move(ptr: int, need: int) returns (p: int)
      requires Rounded(need, align)
      requires Valid() && ptr - BHDR_OVERHEAD in Live(blk, end) && need > Live(blk, end)[ptr - BHDR_OVERHEAD]
      modifies this`mem, this`matrix, this`flBitmap, this`slBitmap, this`lists, this`blk, this`usedSize, this`maxSize
      ensures p == NULL <==> NoneReaches(old(blk), FitSize(need, align))
      ensures p == NULL ==> mem == old(mem) && blk == old(blk) && usedSize == old(usedSize) && maxSize == old(maxSize)
      ensures p != NULL ==> Taken(old(blk), Live(blk, end), p - BHDR_OVERHEAD, FitSize(need, align))
      ensures p != NULL ==> var b, c := ptr - BHDR_OVERHEAD, p - BHDR_OVERHEAD;
                && c != b && Replaced(old(Live(blk, end)), Live(blk, end), b, c, need)
                && Copied(old(mem), mem, b, c, old(Live(blk, end))[b])
      ensures p != NULL ==> Recounted(old(usedSize), old(maxSize), usedSize, maxSize, old(Live(blk, end)), Live(blk, end),
                                      ptr - BHDR_OVERHEAD, p - BHDR_OVERHEAD)
      ensures usedSize + FreeSum(blk) == old(usedSize + FreeSum(blk))
      ensures Kept(old(mem), mem, old(blk), ptr - BHDR_OVERHEAD)
      ensures Valid()
    {
      hide Linked, Indexed, Bitmapped, Undisturbed, Kept, TaggedBut, Covered, Tiled, CoalescedBut, Aligned, Coalesced;
      hide Live, FreeSum;
      hide Copied, BufferSize, FitSize, Admissible, Taken, Replaced, Recounted, NoneReaches;
      ghost var mem0, blk0, live0 := mem, blk, Live(blk, end);
      ghost var used0, max0 := usedSize, maxSize;
      var b := ptr - BHDR_OVERHEAD;
      LiveBlocks(blk, first, end, b);
      TagsOf(mem, blk, first, end, b);
      KeptSame(mem, blk);
      p := MallocEx(need);
      if p == NULL {
        return;
      }
      ghost var mem1, blk1 := mem, blk;
      var c := p - BHDR_OVERHEAD;
      GoodFit(need, align);
      MovedBlock(mem0, mem1, blk0, blk1, first, end, b, c);
      ghost var live1, used1 := Live(blk, end), usedSize;
      ghost var mem2 := CopyAndFree(ptr, c, need);
      MovedLive(live0, live1, b, c, need, used0, max0, used1);
      TakenStays(blk0, live1, b, c, FitSize(need, align));
      MoveKept(mem0, mem1, mem2, mem, blk0, blk1, first, end, b, c, blk0[b].size);
    }

    /** The copy of a move, and the release of the old block. */
    method CopyAndFree(ptr: int, c: int, need: int) returns (ghost mid: Mem)
      requires Valid() && ptr - BHDR_OVERHEAD in Live(blk, end) && c in Live(blk, end) && c != ptr - BHDR_OVERHEAD
      requires Live(blk, end)[ptr - BHDR_OVERHEAD] < need <= Live(blk, end)[c]
      modifies this`mem, this`matrix, this`flBitmap, this`slBitmap, this`lists, this`blk, this`usedSize
      ensures Valid()
      ensures usedSize == old(usedSize) - (BHDR_OVERHEAD + old(Live(blk, end))[ptr - BHDR_OVERHEAD])
      ensures Live(blk, end) == old(Live(blk, end)) - {ptr - BHDR_OVERHEAD}
      ensures usedSize + FreeSum(blk) == old(usedSize + FreeSum(blk))
      ensures Covered(mid, first, end) && Kept(old(mem), mid, old(blk), c) && Kept(mid, mem, old(blk), ptr - BHDR_OVERHEAD)
      ensures Copied(old(mem), mid, ptr - BHDR_OVERHEAD, c, old(Live(blk, end))[ptr - BHDR_OVERHEAD])
    {
      hide Linked, Indexed, Bitmapped, Kept, TaggedBut, Covered, Tiled, Aligned, Coalesced, Copied;
      var b := ptr - BHDR_OVERHEAD;
      LiveBlocks(blk, first, end, b);
      BlockPositive(blk, first, end, b);
      TagsOf(mem, blk, first, end, b);
      var cpsize := if mem[b + 8].size > need then need else mem[b + 8].size;
      CopyUser(c, b, cpsize);
      mid := mem;
      FreeEx(ptr);
    }

    /** realloc_ex: no size releases the buffer; otherwise see Reallocated. Every other
        live buffer is untouched, and the counters are exact. */
    method ReallocEx(ptr: int, newSize: int) returns (p: int)
      requires Valid() && (ptr == NULL || ptr - BHDR_OVERHEAD in Live(blk, end)) && Admissible(newSize, align)
      modifies this`mem, this`matrix, this`flBitmap, this`slBitmap, this`lists, this`blk, this`usedSize, this`maxSize
      ensures newSize == 0 ==> p == NULL && Live(blk, end) == old(Live(blk, end)) - {ptr - BHDR_OVERHEAD}
      ensures newSize > 0 ==> Reallocated(ptr, p, newSize, align, end, old(mem), mem, old(blk), blk)
      ensures Counters(ptr, p, newSize, end, old(usedSize), old(maxSize), usedSize, maxSize, old(blk), blk)
      ensures Kept(old(mem), mem, old(blk), ptr - BHDR_OVERHEAD)
      ensures Valid()
    {
      assert newSize >= 0;
      hide Wf, FreeSum, Live, Kept, Reallocated, Recounted, Admissible;
      if ptr == NULL {
        p := FromNull(ptr, newSize);
      } else {
        p := ReallocLive(ptr, newSize);
      }
    }

    /** realloc_ex of a live buffer. */
    method ReallocLive(ptr: int, newSize: int) returns (p: int)
      requires Valid() && ptr != NULL && ptr - BHDR_OVERHEAD in Live(blk, end) && Admissible(newSize, align) && newSize >= 0
      modifies this`mem, this`matrix, this`flBitmap, this`slBitmap, this`lists, this`blk, this`usedSize, this`maxSize
      ensures newSize == 0 ==> p == NULL && Live(blk, end) == old(Live(blk, end)) - {ptr - BHDR_OVERHEAD}
      ensures newSize > 0 ==> Reallocated(ptr, p, newSize, align, end, old(mem), mem, old(blk), blk)
      ensures Counters(ptr, p, newSize, end, old(usedSize), old(maxSize), usedSize, maxSize, old(blk), blk)
      ensures Kept(old(mem), mem, old(blk), ptr - BHDR_OVERHEAD)
      ensures Valid()
    {
      hide Wf, FreeSum, Live, Kept, Reallocated, Recounted, Admissible;
      if newSize == 0 {
        FreeEx(ptr);
        p := NULL;
      } else {
        p := Resize(ptr, newSize);
      }
    }

    /** realloc_ex without a buffer. */
    method FromNull(ptr: int, newSize: int) returns (p: int)
      requires Valid() && ptr == NULL && Admissible(newSize, align)
      modifies this`mem, this`matrix, this`flBitmap, this`slBitmap, this`lists, this`blk, this`usedSize, this`maxSize
      ensures newSize == 0 ==> p == NULL && Live(blk, end) == old(Live(blk, end)) - {ptr - BHDR_OVERHEAD}
      ensures newSize > 0 ==> Reallocated(ptr, p, newSize, align, end, old(mem), mem, old(blk), blk)
      ensures Counters(ptr, p, newSize, end, old(usedSize), old(maxSize), usedSize, maxSize, old(blk), blk)
      ensures Kept(old(mem), mem, old(blk), ptr - BHDR_OVERHEAD)
      ensures Valid()
    {
      hide Linked, Indexed, Bitmapped, Undisturbed, Kept, TaggedBut, Covered, Tiled, CoalescedBut, Aligned, Coalesced;
      hide BufferSize, FitSize, FreeSum, Live, Replaced, Taken, NoneReaches;
      KeptSame(mem, blk);
      NoBlockAt(blk, first, end);
      p := NULL;
      if newSize != 0 {
        GoodFit(newSize, align);
        p := MallocEx(newSize);
        if p != NULL {
          AllReplaced(old(Live(blk, end)), Live(blk, end), -BHDR_OVERHEAD, p - BHDR_OVERHEAD, BufferSize(newSize, align));
        }
        KeptAlso(old(mem), mem, old(blk), -BHDR_OVERHEAD);
      }
    }

    /** realloc_ex for a live buffer that is to get another size. */
    method Resize(ptr: int, newSize: int) returns (p: int)
      requires Valid() && ptr != NULL && ptr - BHDR_OVERHEAD in Live(blk, end) && Admissible(newSize, align) && newSize > 0
      modifies this`mem, this`matrix, this`flBitmap, this`slBitmap, this`lists, this`blk, this`usedSize, this`maxSize
      ensures Reallocated(ptr, p, newSize, align, end, old(mem), mem, old(blk), blk)
      ensures Counters(ptr, p, newSize, end, old(usedSize), old(maxSize), usedSize, maxSize, old(blk), blk)
      ensures Kept(old(mem), mem, old(blk), ptr - BHDR_OVERHEAD)
      ensures Valid()
    {
      hide Linked, Indexed, Bitmapped, Undisturbed, Kept, TaggedBut, Covered, Tiled, CoalescedBut, Aligned, Coalesced;
      hide Copied, BufferSize, FitSize, Admissible, FreeSum;
      NoBlockAt(blk, first, end);
      var b := ptr - BHDR_OVERHEAD;
      LiveBlocks(blk, first, end, b);
      TagsOf(mem, blk, first, end, b);
      TaggedWeaken(mem, blk, first, end, b);
      ReadNext(mem, blk, first, end, b, b);
      var nextB := b + BHDR_OVERHEAD + mem[b + 8].size;
      var need := BufferSize(newSize, align);
      if need <= mem[b + 8].size {
        Shrink(b, need);
        return ptr;
      }
      if mem[nextB + 8].isFree {
        if need <= mem[b + 8].size + mem[nextB + 8].size {
          Grow(b, need, nextB);
          return ptr;
        }
      }
      LargeRequest(newSize, align, blk[b].size);
      p := Move(ptr, need);
    }
  }
}
