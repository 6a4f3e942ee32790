/** The segregated free lists: doubly linked through the buffers of the free
    blocks, one list per size class, with a two-level bitmap on top
    (contrib/tlsf/src/tlsf.c:331-402). */
module TlsfLists {
  import opened TlsfMapping
  import opened TlsfLayout

  /** The addresses in each free list, head first. */
  type Lists = map<Class, seq<int>>

  function ClassOf(size: int): Class {
    if 0 <= size < MAX_AREA then MappingInsert(size) else Class(0, 0)
  }

  function Head(l: seq<int>): int {
    if l == [] then 0 else l[0]
  }

  function PrevIn(l: seq<int>, k: int): int
    requires 0 <= k < |l|
  {
    if k == 0 then 0 else l[k - 1]
  }

  function NextIn(l: seq<int>, k: int): int
    requires 0 <= k < |l|
  {
    if k + 1 < |l| then l[k + 1] else 0
  }

  /** The link words of the k-th block name its neighbours in the list. */
  ghost predicate LinksAt(mem: Mem, l: seq<int>, k: int)
    requires 0 <= k < |l|
  {
    && l[k] + 16 in mem && mem[l[k] + 16] == Ptr(PrevIn(l, k))
    && l[k] + 24 in mem && mem[l[k] + 24] == Ptr(NextIn(l, k))
  }

  ghost predicate Chain(mem: Mem, l: seq<int>) {
    forall k :: 0 <= k < |l| ==> LinksAt(mem, l, k)
  }

  /** Every class has a well-linked list that starts at its matrix entry. */
  ghost predicate Linked(mem: Mem, matrix: map<Class, int>, lists: Lists) {
    forall c :: IsClass(c) ==>
      c in lists && c in matrix && matrix[c] == Head(lists[c]) && Chain(mem, lists[c])
  }

  ghost predicate Distinct(l: seq<int>) {
    forall i, j :: 0 <= i < j < |l| ==> l[i] != l[j]
  }

  /** Exactly the free blocks outside `out` are listed, each once, in the class
      of its current size. */
  ghost predicate Indexed(lists: Lists, blk: Layout, out: set<int>) {
    && (forall c, x :: IsClass(c) && c in lists && x in lists[c] ==>
          x in blk && blk[x].free && x !in out && ClassOf(blk[x].size) == c)
    && (forall x :: x in blk && blk[x].free && x !in out ==>
          IsClass(ClassOf(blk[x].size)) && ClassOf(blk[x].size) in lists && x in lists[ClassOf(blk[x].size)])
    && (forall c :: IsClass(c) && c in lists ==> Distinct(lists[c]))
  }

  /** A second-level bit is set when its list is not empty, a first-level bit
      when its second-level word is not zero. */
  ghost predicate Bitmapped(fl: set<int>, sl: map<int, set<int>>, lists: Lists) {
    && (forall f :: 0 <= f < REAL_FLI ==> f in sl && (f in fl <==> sl[f] != {}))
    && (forall f :: f in fl ==> 0 <= f < REAL_FLI)
    && (forall f, s :: 0 <= f < REAL_FLI && f in sl && s in sl[f] ==> 0 <= s < MAX_SLI)
    && (forall c :: IsClass(c) && c in lists && c.fl in sl ==> (c.sl in sl[c.fl] <==> lists[c] != []))
  }

  ghost predicate FreeLists(mem: Mem, matrix: map<Class, int>, fl: set<int>, sl: map<int, set<int>>,
                            lists: Lists, blk: Layout, out: set<int>) {
    Linked(mem, matrix, lists) && Indexed(lists, blk, out) && Bitmapped(fl, sl, lists)
  }

  ghost function FreeSet(blk: Layout): set<int> {
    set a | a in blk && blk[a].free
  }

  /** The memories differ at most in the link words of the blocks in s. */
  ghost predicate OnlyLinks(mem: Mem, mem': Mem, s: set<int>) {
    && mem'.Keys == mem.Keys
    && (forall w {:trigger mem'[w]} :: w in mem && w - 16 !in s && w - 24 !in s ==> mem'[w] == mem[w])
  }

  /** Block headers and buffers never overlap: 32 bytes at least from one block
      address to the next. */
  ghost predicate Spaced(s: set<int>) {
    forall x, y :: x in s && y in s && x != y ==> x + 32 <= y || y + 32 <= x
  }

  lemma TiledSpaced(blk: Layout, first: int, end: int)
    requires Tiled(blk, first, end)
    ensures Spaced(blk.Keys)
  {
    forall x, y | x in blk.Keys && y in blk.Keys && x != y
      ensures x + 32 <= y || y + 32 <= x
    {
      Apart(blk, first, end, x, y);
    }
  }

  ghost predicate SameHeader(mem: Mem, mem': Mem, a: int) {
    && (a + 8 in mem ==> a + 8 in mem' && mem'[a + 8] == mem[a + 8])
    && (a in mem ==> a in mem' && mem'[a] == mem[a])
  }

  /** Changing link words leaves every header alone. */
  lemma LinksKeepHeaders(mem: Mem, mem': Mem, blk: Layout, s: set<int>)
    requires Spaced(blk.Keys) && s <= blk.Keys && OnlyLinks(mem, mem', s)
    ensures forall a :: a in blk ==> SameHeader(mem, mem', a)
  {
  }

  /** A word of a used block is no link word. */
  lemma DataIsNoLink(blk: Layout, first: int, end: int, a: int, w: int)
    requires Tiled(blk, first, end) && a in blk && !blk[a].free && a + 16 <= w < a + 16 + blk[a].size
    ensures w - 16 !in FreeSet(blk) && w - 24 !in FreeSet(blk)
  {
    if w - 16 in blk && w - 16 != a {
      Apart(blk, first, end, a, w - 16);
    }
    if w - 24 in blk && w - 24 != a {
      Apart(blk, first, end, a, w - 24);
    }
  }

  /** Changing the links of free blocks leaves user data alone. */
  lemma LinksKeepData(mem: Mem, mem': Mem, blk: Layout, first: int, end: int)
    requires Tiled(blk, first, end) && OnlyLinks(mem, mem', FreeSet(blk))
    ensures Kept(mem, mem', blk, 0)
  {
    forall a, w | a in blk && !blk[a].free && a != 0 && a + 16 <= w < a + 16 + blk[a].size && w in mem
      ensures w in mem' && mem'[w] == mem[w]
    {
      DataIsNoLink(blk, first, end, a, w);
    }
  }

  /** Neither a header nor user data changes, only the links of free blocks. */
  ghost predicate Undisturbed(mem: Mem, mem': Mem, blk: Layout) {
    && mem'.Keys == mem.Keys
    && (forall a :: a in blk ==> SameHeader(mem, mem', a))
    && Kept(mem, mem', blk, 0)
  }

  lemma LinksUndisturbed(mem: Mem, mem': Mem, blk: Layout, first: int, end: int)
    requires Tiled(blk, first, end) && OnlyLinks(mem, mem', FreeSet(blk))
    ensures Undisturbed(mem, mem', blk)
  {
    TiledSpaced(blk, first, end);
    LinksKeepHeaders(mem, mem', blk, FreeSet(blk));
    LinksKeepData(mem, mem', blk, first, end);
  }

  /* Unlinking */

  function Without(l: seq<int>, k: int): seq<int>
    requires 0 <= k < |l|
  {
    l[..k] + l[k + 1..]
  }

  /** Memory after block b between p and n has been unlinked. */
  function Unlink(mem: Mem, p: int, b: int, n: int): Mem {
    var m1 := if n != 0 then mem[n + 16 := Ptr(p)] else mem;
    var m2 := if p != 0 then m1[p + 24 := Ptr(n)] else m1;
    m2[b + 16 := Ptr(0)][b + 24 := Ptr(0)]
  }

  lemma UnlinkChain(mem: Mem, l: seq<int>, k: int, s: set<int>)
    requires Chain(mem, l) && Distinct(l) && 0 <= k < |l|
    requires Spaced(s) && forall x :: x in l ==> x in s && x != 0
    ensures Chain(Unlink(mem, PrevIn(l, k), l[k], NextIn(l, k)), Without(l, k))
  {
    var p, b, n := PrevIn(l, k), l[k], NextIn(l, k);
    var mem' := Unlink(mem, p, b, n);
    var l' := Without(l, k);
    forall j | 0 <= j < |l'|
      ensures LinksAt(mem', l', j)
    {
      var i := if j < k then j else j + 1;
      assert l'[j] == l[i] && LinksAt(mem, l, i);
      assert l[i] in l;
      UnlinkFrame(mem, p, b, n, l[i], s);
      assert i == k - 1 <==> p != 0 && l[i] == p;
      assert i == k + 1 <==> n != 0 && l[i] == n;
    }
  }

  /** What Unlink does to the link words of one block x other than b. */
  lemma UnlinkFrame(mem: Mem, p: int, b: int, n: int, x: int, s: set<int>)
    requires Spaced(s) && x in s && b in s && x != b && (p != 0 ==> p in s) && (n != 0 ==> n in s)
    requires x + 16 in mem && x + 24 in mem
    ensures var m := Unlink(mem, p, b, n);
            && x + 16 in m && m[x + 16] == (if n != 0 && x == n then Ptr(p) else mem[x + 16])
            && x + 24 in m && m[x + 24] == (if p != 0 && x == p then Ptr(n) else mem[x + 24])
  {
  }

  /** Lists that do not hold the three blocks stay well linked. */
  lemma UnlinkOther(mem: Mem, p: int, b: int, n: int, l: seq<int>, s: set<int>)
    requires Spaced(s) && b in s && (p != 0 ==> p in s) && (n != 0 ==> n in s)
    requires Chain(mem, l) && forall x :: x in l ==> x in s && x != b && x != p && x != n
    ensures Chain(Unlink(mem, p, b, n), l)
  {
    forall j | 0 <= j < |l|
      ensures LinksAt(Unlink(mem, p, b, n), l, j)
    {
      assert LinksAt(mem, l, j) && l[j] in l;
      UnlinkFrame(mem, p, b, n, l[j], s);
    }
  }

  lemma UnlinkOnly(mem: Mem, p: int, b: int, n: int, s: set<int>)
    requires b in s && (p != 0 ==> p in s) && (n != 0 ==> n in s)
    requires b + 16 in mem && b + 24 in mem && (n != 0 ==> n + 16 in mem) && (p != 0 ==> p + 24 in mem)
    ensures OnlyLinks(mem, Unlink(mem, p, b, n), s)
  {
  }

  lemma WithoutElements(l: seq<int>, k: int)
    requires Distinct(l) && 0 <= k < |l|
    ensures Distinct(Without(l, k))
    ensures forall x :: x in Without(l, k) <==> x in l && x != l[k]
  {
    var l' := Without(l, k);
    forall x | x in l && x != l[k]
      ensures x in l'
    {
      var i :| 0 <= i < |l| && l[i] == x;
      assert l'[if i < k then i else i - 1] == x;
    }
  }

  lemma ExtractedLinks(mem: Mem, matrix: map<Class, int>, lists: Lists, blk: Layout, out: set<int>,
                       c: Class, k: int)
    requires Linked(mem, matrix, lists) && Indexed(lists, blk, out) && IsClass(c)
    requires Spaced(blk.Keys) && 0 !in blk && c in lists && 0 <= k < |lists[c]|
    ensures var l := lists[c];
            Linked(Unlink(mem, PrevIn(l, k), l[k], NextIn(l, k)), matrix[c := Head(Without(l, k))],
                   lists[c := Without(l, k)])
  {
    hide ClassOf;
    var l := lists[c];
    var p, b, n := PrevIn(l, k), l[k], NextIn(l, k);
    assert b in l && (p != 0 ==> p in l) && (n != 0 ==> n in l);
    UnlinkChain(mem, l, k, blk.Keys);
    forall d | IsClass(d) && d != c
      ensures Chain(Unlink(mem, p, b, n), lists[d])
    {
      assert forall x :: x in lists[d] ==> x in blk && x !in l;
      UnlinkOther(mem, p, b, n, lists[d], blk.Keys);
    }
  }

  lemma ExtractedIndex(lists: Lists, blk: Layout, out: set<int>, c: Class, k: int)
    requires Indexed(lists, blk, out) && IsClass(c) && c in lists && 0 <= k < |lists[c]|
    ensures Indexed(lists[c := Without(lists[c], k)], blk, out + {lists[c][k]})
  {
    WithoutElements(lists[c], k);
    assert lists[c][k] in lists[c];
  }

  /** The invariant of the lists after one block has been unlinked from them. */
  lemma Extracted(mem: Mem, matrix: map<Class, int>, lists: Lists, blk: Layout, out: set<int>,
                  c: Class, k: int, first: int, end: int)
    requires Linked(mem, matrix, lists) && Indexed(lists, blk, out) && IsClass(c)
    requires Tiled(blk, first, end) && c in lists && 0 <= k < |lists[c]|
    ensures var l := lists[c];
            var mem' := Unlink(mem, PrevIn(l, k), l[k], NextIn(l, k));
            var lists' := lists[c := Without(l, k)];
            && Linked(mem', matrix[c := Head(Without(l, k))], lists')
            && Indexed(lists', blk, out + {l[k]})
            && Undisturbed(mem, mem', blk)
  {
    TiledSpaced(blk, first, end);
    ExtractedLinks(mem, matrix, lists, blk, out, c, k);
    ExtractedIndex(lists, blk, out, c, k);
    ExtractedFrame(mem, lists[c], k, FreeSet(blk));
    var l := lists[c];
    LinksUndisturbed(mem, Unlink(mem, PrevIn(l, k), l[k], NextIn(l, k)), blk, first, end);
  }

  lemma ExtractedFrame(mem: Mem, l: seq<int>, k: int, s: set<int>)
    requires Chain(mem, l) && 0 <= k < |l| && forall x :: x in l ==> x in s
    ensures OnlyLinks(mem, Unlink(mem, PrevIn(l, k), l[k], NextIn(l, k)), s)
  {
    var p, b, n := PrevIn(l, k), l[k], NextIn(l, k);
    assert LinksAt(mem, l, k);
    assert k > 0 ==> LinksAt(mem, l, k - 1);
    assert k + 1 < |l| ==> LinksAt(mem, l, k + 1);
    UnlinkOnly(mem, p, b, n, s);
  }

  predicate IsLevel(f: int) {
    0 <= f < REAL_FLI
  }

  /* The zeroed tables of a new pool */

  function EmptyMatrix(): map<Class, int> {
    map fl, sl | 0 <= fl < REAL_FLI && 0 <= sl < MAX_SLI :: Class(fl, sl) := 0
  }

  function EmptyWords(): map<int, set<int>> {
    map f | 0 <= f < REAL_FLI && IsLevel(f) :: {}
  }

  function EmptyLists(): Lists {
    map fl, sl | 0 <= fl < REAL_FLI && 0 <= sl < MAX_SLI :: Class(fl, sl) := []
  }

  lemma EmptyTables(mem: Mem, blk: Layout)
    requires forall a :: a in blk ==> !blk[a].free
    ensures FreeLists(mem, EmptyMatrix(), {}, EmptyWords(), EmptyLists(), blk, {})
  {
    forall c | IsClass(c)
      ensures c in EmptyMatrix() && c in EmptyLists() && EmptyMatrix()[c] == 0 && EmptyLists()[c] == []
    {
      assert c == Class(c.fl, c.sl);
    }
    forall f | 0 <= f < REAL_FLI
      ensures f in EmptyWords() && EmptyWords()[f] == {}
    {
      assert IsLevel(f);
    }
    forall c | c in EmptyLists()
      ensures EmptyLists()[c] == []
    {
    }
  }

  lemma NoNull(blk: Layout, first: int, end: int)
    requires Tiled(blk, first, end)
    ensures 0 !in blk
  {
  }

  lemma ListedBlocks(lists: Lists, blk: Layout, out: set<int>)
    requires Indexed(lists, blk, out)
    ensures forall c, x :: IsClass(c) && c in lists && x in lists[c] ==> x in blk.Keys
  {
  }

  lemma KeepHead(fl: set<int>, sl: map<int, set<int>>, lists: Lists, c: Class, l: seq<int>)
    requires Bitmapped(fl, sl, lists) && IsClass(c) && c in lists && lists[c] != [] && l != []
    ensures Bitmapped(fl, sl, lists[c := l])
  {
  }

  /** What the extract macros read from the links of the k-th block. */
  lemma Neighbours(mem: Mem, matrix: map<Class, int>, lists: Lists, blk: Layout, out: set<int>,
                   c: Class, k: int)
    requires Linked(mem, matrix, lists) && Indexed(lists, blk, out) && IsClass(c)
    requires 0 !in blk && c in lists && 0 <= k < |lists[c]|
    ensures var l := lists[c]; var b, p, n := l[k], PrevIn(l, k), NextIn(l, k);
            && b + 16 in mem && mem[b + 16] == Ptr(p) && b + 24 in mem && mem[b + 24] == Ptr(n)
            && (n != 0 ==> n + 16 in mem) && (p != 0 ==> p + 24 in mem)
            && (matrix[c] == b <==> k == 0)
            && (k == 0 ==> p == 0 && n == Head(Without(l, k)) && (n == 0 <==> Without(l, k) == []))
            && (k > 0 ==> Head(Without(l, k)) == matrix[c] && Without(l, k) != [])
  {
    var l := lists[c];
    assert LinksAt(mem, l, k) && Distinct(l);
    assert k > 0 ==> LinksAt(mem, l, k - 1) && l[0] != l[k];
    assert k + 1 < |l| ==> LinksAt(mem, l, k + 1) && l[k + 1] in l;
  }

  lemma HeadLinks(mem: Mem, matrix: map<Class, int>, lists: Lists, c: Class)
    requires Linked(mem, matrix, lists) && IsClass(c)
    ensures matrix[c] == Head(lists[c])
    ensures matrix[c] != 0 ==> matrix[c] + 16 in mem
  {
    if lists[c] != [] {
      assert LinksAt(mem, lists[c], 0);
    }
  }

  /* Linking */

  /** Memory after block b has been pushed before h. */
  function Link(mem: Mem, b: int, h: int): Mem {
    var m := mem[b + 16 := Ptr(0)][b + 24 := Ptr(h)];
    if h != 0 then m[h + 16 := Ptr(b)] else m
  }

  lemma LinkFrame(mem: Mem, b: int, h: int, x: int, s: set<int>)
    requires Spaced(s) && x in s && b in s && x != b && (h != 0 ==> h in s)
    requires x + 16 in mem && x + 24 in mem
    ensures var m := Link(mem, b, h);
            && x + 16 in m && m[x + 16] == (if h != 0 && x == h then Ptr(b) else mem[x + 16])
            && x + 24 in m && m[x + 24] == mem[x + 24]
  {
  }

  lemma LinkChain(mem: Mem, l: seq<int>, b: int, s: set<int>)
    requires Chain(mem, l) && Distinct(l) && b !in l
    requires Spaced(s) && b in s && forall x :: x in l ==> x in s && x != 0
    ensures Chain(Link(mem, b, Head(l)), [b] + l)
  {
    var mem' := Link(mem, b, Head(l));
    var l' := [b] + l;
    forall j | 0 <= j < |l'|
      ensures LinksAt(mem', l', j)
    {
      if j > 0 {
        assert l'[j] == l[j - 1] && LinksAt(mem, l, j - 1) && l[j - 1] in l;
        LinkFrame(mem, b, Head(l), l[j - 1], s);
      } else if l != [] {
        assert l[0] in l;
      }
    }
  }

  lemma LinkOther(mem: Mem, b: int, h: int, l: seq<int>, s: set<int>)
    requires Spaced(s) && b in s && (h != 0 ==> h in s)
    requires Chain(mem, l) && forall x :: x in l ==> x in s && x != b && x != h
    ensures Chain(Link(mem, b, h), l)
  {
    forall j | 0 <= j < |l|
      ensures LinksAt(Link(mem, b, h), l, j)
    {
      assert LinksAt(mem, l, j) && l[j] in l;
      LinkFrame(mem, b, h, l[j], s);
    }
  }

  lemma InsertedLinks(mem: Mem, matrix: map<Class, int>, lists: Lists, blk: Layout, out: set<int>,
                      c: Class, b: int)
    requires Linked(mem, matrix, lists) && Indexed(lists, blk, out) && IsClass(c)
    requires Spaced(blk.Keys) && 0 !in blk && b in blk && b in out
    ensures Linked(Link(mem, b, Head(lists[c])), matrix[c := b], lists[c := [b] + lists[c]])
  {
    var l := lists[c];
    var h := Head(l);
    assert h != 0 ==> h in l;
    LinkChain(mem, l, b, blk.Keys);
    forall d | IsClass(d) && d != c
      ensures Chain(Link(mem, b, h), lists[d])
    {
      assert forall x :: x in lists[d] ==> x in blk && x !in l;
      LinkOther(mem, b, h, lists[d], blk.Keys);
    }
  }

  lemma InsertedIndex(lists: Lists, blk: Layout, out: set<int>, b: int)
    requires Indexed(lists, blk, out) && b in blk && blk[b].free && b in out
    requires IsClass(ClassOf(blk[b].size)) && ClassOf(blk[b].size) in lists
    ensures var c := ClassOf(blk[b].size); Indexed(lists[c := [b] + lists[c]], blk, out - {b})
  {
    var c := ClassOf(blk[b].size);
    assert Distinct(lists[c]) && b !in lists[c];
    assert Distinct([b] + lists[c]);
  }

  lemma InsertedFrame(mem: Mem, l: seq<int>, b: int, s: set<int>)
    requires Chain(mem, l) && b in s && forall x :: x in l ==> x in s
    requires b + 16 in mem && b + 24 in mem
    ensures OnlyLinks(mem, Link(mem, b, Head(l)), s)
  {
    if l != [] {
      assert LinksAt(mem, l, 0) && l[0] in l;
    }
  }

  /** The invariant of the lists after a free block has been pushed. */
  lemma Inserted(mem: Mem, matrix: map<Class, int>, lists: Lists, blk: Layout, out: set<int>, b: int,
                 first: int, end: int)
    requires Linked(mem, matrix, lists) && Indexed(lists, blk, out)
    requires Tiled(blk, first, end) && b in blk && blk[b].free && b in out
    requires IsClass(ClassOf(blk[b].size))
    requires b + 16 in mem && b + 24 in mem
    ensures var c := ClassOf(blk[b].size);
            var mem' := Link(mem, b, Head(lists[c]));
            var lists' := lists[c := [b] + lists[c]];
            && Linked(mem', matrix[c := b], lists')
            && Indexed(lists', blk, out - {b})
            && Undisturbed(mem, mem', blk)
  {
    var c := ClassOf(blk[b].size);
    TiledSpaced(blk, first, end);
    InsertedLinks(mem, matrix, lists, blk, out, c, b);
    InsertedIndex(lists, blk, out, b);
    InsertedFrame(mem, lists[c], b, FreeSet(blk));
    LinksUndisturbed(mem, Link(mem, b, Head(lists[c])), blk, first, end);
  }
}
