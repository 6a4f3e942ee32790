/** The physical blocks of one TLSF area: how they tile it, how their boundary
    tags describe it, and what the splits and merges of the allocator do to it
    (contrib/tlsf/src/tlsf.c:119-131, 186-204, 430-449).

    Addresses and sizes are in bytes; memory maps an address to what is stored
    there, a header field being stored at the address of its first byte. A block
    at address a has its header words at a (prev_hdr) and a + 8 (size and state
    bits) and its buffer from a + 16; the first two words of the buffer of a free
    block are its list links. */
module TlsfLayout {
  import opened TlsfMapping

  const BHDR_OVERHEAD := 16
  const MIN_BLOCK_SIZE := 16
  const BHDR_SIZE := 32

  /** One word of memory: a pointer, the size word of a header with its two
      state bits, or anything else the user stores. */
  datatype Word = Ptr(addr: int) | Tag(size: int, isFree: bool, prevFree: bool) | Raw(value: int)

  type Mem = map<int, Word>

  datatype Blk = Blk(size: int, free: bool)

  /** The blocks of the area by address, the end sentinel included. */
  type Layout = map<int, Blk>

  function Next(blk: Layout, a: int): int
    requires a in blk
  {
    a + BHDR_OVERHEAD + blk[a].size
  }

  ghost predicate InArea(blk: Layout, first: int, end: int) {
    && 0 < first < end < first + MAX_AREA
    && first in blk && end in blk && blk[end] == Blk(0, false)
    && forall a :: a in blk ==> first <= a <= end
  }

  ghost predicate Closed(blk: Layout, end: int) {
    && (forall a :: a in blk && a != end ==> MIN_BLOCK_SIZE <= blk[a].size)
    && (forall a {:trigger Next(blk, a)} :: a in blk && a != end ==> Next(blk, a) in blk)
  }

  /** Every address and every size is a multiple of 16. */
  ghost predicate Aligned(blk: Layout) {
    forall a :: a in blk ==> a % 16 == 0 && blk[a].size % 16 == 0
  }

  ghost predicate Disjoint(blk: Layout) {
    forall a, b {:trigger Next(blk, a), b in blk} :: a in blk && b in blk && a < b ==> Next(blk, a) <= b
  }

  /** The blocks tile the area from the first block to the size-0 sentinel: each
      one ends where another begins, and no two overlap. */
  ghost predicate Tiled(blk: Layout, first: int, end: int) {
    InArea(blk, first, end) && Closed(blk, end) && Disjoint(blk)
  }

  /** No two physically adjacent blocks are both free. */
  ghost predicate Coalesced(blk: Layout, end: int) {
    forall a {:trigger Next(blk, a)} :: a in blk && a != end && Next(blk, a) in blk ==> !(blk[a].free && blk[Next(blk, a)].free)
  }

  /** Every word of the area exists. */
  ghost predicate Covered(mem: Mem, first: int, end: int) {
    forall w :: first <= w < end + BHDR_OVERHEAD ==> w in mem
  }

  ghost predicate TagOf(mem: Mem, a: int, b: Blk) {
    a + 8 in mem && mem[a + 8].Tag? && mem[a + 8].size == b.size && mem[a + 8].isFree == b.free
  }

  /** What the header at n says about its physical predecessor a: the PREV_FREE
      bit is its state, and prev_hdr its address when it is free. */
  ghost predicate SeesPrev(mem: Mem, n: int, a: int, free: bool) {
    && n + 8 in mem && mem[n + 8].Tag? && mem[n + 8].prevFree == free
    && (free ==> n in mem && mem[n] == Ptr(a))
  }

  /** The boundary tags tell the truth about the layout, except that block x may
      be missing its new size and state, and its successor may not have been told
      about them. */
  ghost predicate TaggedBut(mem: Mem, blk: Layout, first: int, end: int, x: int) {
    && (forall a :: a in blk && a != x ==> TagOf(mem, a, blk[a]))
    && first + 8 in mem && mem[first + 8].Tag? && !mem[first + 8].prevFree
    && (forall a {:trigger Next(blk, a)} :: a in blk && a != end && a != x ==> SeesPrev(mem, Next(blk, a), a, blk[a].free))
  }

  ghost predicate Tagged(mem: Mem, blk: Layout, first: int, end: int) {
    TaggedBut(mem, blk, first, end, 0)
  }

  /** The live allocations: buffer address and size. */
  ghost function Live(blk: Layout, end: int): map<int, int> {
    map a | a in blk && !blk[a].free && a != end :: blk[a].size
  }

  /** No free block has s bytes. */
  ghost predicate NoneReaches(blk: Layout, s: int) {
    forall a :: a in blk && blk[a].free ==> blk[a].size < s
  }

  /** Allocation b gives way to an allocation c of at least need bytes; all other
      live allocations stay. b may be c, or no allocation at all. */
  ghost predicate Replaced(live: map<int, int>, live': map<int, int>, b: int, c: int, need: int) {
    c in live' && live'[c] >= need && live' == (live - {b})[c := live'[c]] && (c == b || c !in live)
  }

  /** Every word of every used block other than x is the same in both memories. */
  ghost predicate Kept(mem: Mem, mem': Mem, blk: Layout, x: int) {
    forall a, w :: a in blk && !blk[a].free && a != x && a + 16 <= w < a + 16 + blk[a].size && w in mem ==>
      w in mem' && mem'[w] == mem[w]
  }

  lemma CoveredPart(mem: Mem, first: int, end: int, b: int, lb: int)
    requires Covered(mem, first, end - BHDR_OVERHEAD) && first <= b && lb + BHDR_OVERHEAD <= end
    ensures Covered(mem, b, lb)
  {
  }

  /** Address of byte i of the buffer of block b. */
  function At(b: int, i: int): int {
    b + BHDR_OVERHEAD + i
  }

  /** The first n bytes of buffer src in mem are the first n of dst in mem'. */
  ghost predicate Copied(mem: Mem, mem': Mem, src: int, dst: int, n: int) {
    forall i {:trigger At(src, i)} {:trigger At(dst, i)} :: 0 <= i < n ==>
      At(src, i) in mem && At(dst, i) in mem' && mem'[At(dst, i)] == mem[At(src, i)]
  }

  /* Tiling */

  lemma Apart(blk: Layout, first: int, end: int, a: int, b: int)
    requires Tiled(blk, first, end) && a in blk && b in blk && a != b
    ensures a + 32 <= b || b + 32 <= a
    ensures Next(blk, a) <= b || Next(blk, b) <= a
  {
    assert a < b ==> Next(blk, a) <= b;
    assert b < a ==> Next(blk, b) <= a;
  }

  lemma SizeBound(blk: Layout, first: int, end: int, a: int)
    requires Tiled(blk, first, end) && a in blk
    ensures 0 <= blk[a].size < MAX_AREA
    ensures Next(blk, a) <= end || a == end
  {
    assert Next(blk, a) <= end || a == end;
  }

  /** Every block but the first follows another one. */
  lemma Predecessor(blk: Layout, first: int, end: int, b: int) returns (p: int)
    requires Tiled(blk, first, end) && b in blk && b != first
    ensures p in blk && p != end && p < b && Next(blk, p) == b
  {
    p := first;
    while Next(blk, p) != b
      invariant p in blk && p < b
      decreases b - p
    {
      p := Next(blk, p);
    }
  }

  /** The same tiling with block b in another state. */
  lemma Relabelled(blk: Layout, first: int, end: int, b: int, free: bool)
    requires Tiled(blk, first, end) && b in blk && b != end
    ensures Tiled(blk[b := Blk(blk[b].size, free)], first, end)
  {
    RelabelledClosed(blk, end, b, free);
    RelabelledDisjoint(blk, b, free);
    hide Closed, Disjoint;
  }

  lemma RelabelledClosed(blk: Layout, end: int, b: int, free: bool)
    requires Closed(blk, end) && b in blk && b != end
    ensures Closed(blk[b := Blk(blk[b].size, free)], end)
  {
    var blk' := blk[b := Blk(blk[b].size, free)];
    assert forall a :: a in blk ==> Next(blk', a) == Next(blk, a);
  }

  lemma RelabelledDisjoint(blk: Layout, b: int, free: bool)
    requires Disjoint(blk) && b in blk
    ensures Disjoint(blk[b := Blk(blk[b].size, free)])
  {
    var blk' := blk[b := Blk(blk[b].size, free)];
    assert forall a :: a in blk ==> Next(blk', a) == Next(blk, a);
  }

  /** Block b cut in two, r bytes for the first part. */
  function Split(blk: Layout, b: int, r: int, free: bool, free2: bool): Layout
    requires b in blk
  {
    blk[b := Blk(r, free)][b + BHDR_OVERHEAD + r := Blk(blk[b].size - r - BHDR_OVERHEAD, free2)]
  }

  lemma SplitTiles(blk: Layout, first: int, end: int, b: int, r: int, free: bool, free2: bool)
    requires Tiled(blk, first, end) && b in blk && b != end
    requires MIN_BLOCK_SIZE <= r && r + BHDR_SIZE <= blk[b].size
    ensures b + BHDR_OVERHEAD + r !in blk
    ensures Tiled(Split(blk, b, r, free, free2), first, end)
  {
    var b2 := b + BHDR_OVERHEAD + r;
    assert b < b2 < Next(blk, b);
    assert b2 !in blk;
    SplitClosed(blk, first, end, b, r, free, free2);
    SplitDisjoint(blk, b, r, free, free2);
  }

  lemma SplitClosed(blk: Layout, first: int, end: int, b: int, r: int, free: bool, free2: bool)
    requires InArea(blk, first, end) && Closed(blk, end) && b in blk && b != end
    requires MIN_BLOCK_SIZE <= r && r + BHDR_SIZE <= blk[b].size
    requires b + BHDR_OVERHEAD + r !in blk
    ensures InArea(Split(blk, b, r, free, free2), first, end)
    ensures Closed(Split(blk, b, r, free, free2), end)
  {
    var b2 := b + BHDR_OVERHEAD + r;
    var blk' := Split(blk, b, r, free, free2);
    assert blk'[b] == Blk(r, free) && blk'[b2] == Blk(blk[b].size - r - BHDR_OVERHEAD, free2);
    assert Next(blk', b2) == Next(blk, b) <= end;
    forall a | a in blk' && a != end
      ensures Next(blk', a) in blk'
    {
      assert a != b && a != b2 ==> Next(blk', a) == Next(blk, a);
    }
  }

  lemma RelabelAligned(blk: Layout, b: int, free: bool)
    requires Aligned(blk) && b in blk
    ensures Aligned(blk[b := Blk(blk[b].size, free)])
  {
  }

  lemma SplitAligned(blk: Layout, b: int, r: int, free: bool, free2: bool)
    requires Aligned(blk) && b in blk && r % 16 == 0
    ensures Aligned(Split(blk, b, r, free, free2))
  {
    SumAligned(b, r);
    SumAligned(blk[b].size, -r);
  }

  lemma MergeAligned(blk: Layout, b: int, free: bool)
    requires Aligned(blk) && b in blk && Next(blk, b) in blk
    ensures Aligned(Merge(blk, b, free))
  {
    SumAligned(blk[b].size, blk[Next(blk, b)].size);
  }

  lemma SumAligned(a: int, b: int)
    requires a % 16 == 0 && b % 16 == 0
    ensures (a + b) % 16 == 0 && (a + b - 16) % 16 == 0 && (a + 16 + b) % 16 == 0
  {
  }

  lemma SplitDisjoint(blk: Layout, b: int, r: int, free: bool, free2: bool)
    requires Disjoint(blk) && b in blk
    requires 0 <= r && r + BHDR_SIZE <= blk[b].size
    requires forall a :: a in blk ==> blk[a].size >= 0
    ensures Disjoint(Split(blk, b, r, free, free2))
  {
    var b2 := b + BHDR_OVERHEAD + r;
    var blk' := Split(blk, b, r, free, free2);
    forall x, y | x in blk' && y in blk' && x < y
      ensures Next(blk', x) <= y
    {
      if x == b2 {
        assert b < y && y != b2;
        assert Next(blk, b) <= y;
      } else if x != b {
        assert Next(blk', x) == Next(blk, x);
        assert b < x ==> Next(blk, b) <= x;
      }
    }
  }

  /** Block b joined with its successor. */
  function Merge(blk: Layout, b: int, free: bool): Layout
    requires b in blk && Next(blk, b) in blk
  {
    var n := Next(blk, b);
    (blk - {n})[b := Blk(blk[b].size + BHDR_OVERHEAD + blk[n].size, free)]
  }

  lemma MergeTiles(blk: Layout, first: int, end: int, b: int, free: bool)
    requires Tiled(blk, first, end) && b in blk && b != end && Next(blk, b) != end
    ensures Tiled(Merge(blk, b, free), first, end)
    ensures Next(Merge(blk, b, free), b) == Next(blk, Next(blk, b))
  {
    MergeClosed(blk, first, end, b, free);
    MergeDisjoint(blk, b, free);
  }

  lemma MergeClosed(blk: Layout, first: int, end: int, b: int, free: bool)
    requires Tiled(blk, first, end) && b in blk && b != end && Next(blk, b) != end
    ensures InArea(Merge(blk, b, free), first, end)
    ensures Closed(Merge(blk, b, free), end)
  {
    var n := Next(blk, b);
    var blk' := Merge(blk, b, free);
    assert first <= b < n;
    forall a | a in blk' && a != end && a != b
      ensures Next(blk', a) in blk'
    {
      Apart(blk, first, end, a, b);
      assert Next(blk', a) == Next(blk, a) != n;
    }
    assert Next(blk', b) == Next(blk, n);
  }

  lemma MergeDisjoint(blk: Layout, b: int, free: bool)
    requires Disjoint(blk) && b in blk && Next(blk, b) in blk && blk[b].size >= 0
    ensures Disjoint(Merge(blk, b, free))
  {
    var n := Next(blk, b);
    var blk' := Merge(blk, b, free);
    forall x, y | x in blk' && y in blk' && x < y
      ensures Next(blk', x) <= y
    {
      if x == b {
        assert Next(blk, b) <= y && y != n;
        assert Next(blk, n) <= y;
      } else {
        assert Next(blk', x) == Next(blk, x);
      }
    }
  }
}
