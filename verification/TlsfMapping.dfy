/** Size classes of the TLSF allocator: the two-level mapping of block sizes
    (contrib/tlsf/src/tlsf.c:256-341).

    Sizes and indices are non-negative and below 2^30, so the C shifts are
    written as divisions and `x & ~t`, with t + 1 a power of two, as
    `x - x % (t + 1)`. */
module TlsfMapping {
  import opened PowersOfTwo

  const MAX_LOG2_SLI := 5
  const MAX_SLI := 32
  const FLI_OFFSET := 6
  const SMALL_BLOCK := 128
  const REAL_FLI := 24
  const MAX_AREA := 0x4000_0000

  /** First-level and second-level index of a free list. */
  datatype Class = Class(fl: int, sl: int)

  predicate IsClass(c: Class) {
    0 <= c.fl < REAL_FLI && 0 <= c.sl < MAX_SLI
  }

  /** The order in which FIND_SUITABLE_BLOCK visits the classes. */
  predicate AtLeast(c: Class, d: Class) {
    c.fl > d.fl || (c.fl == d.fl && c.sl >= d.sl)
  }

  /** The lookup table of floor(log2 n) for a byte. */
  function Table(n: int): int
    requires 0 <= n < 256
  {
    if n == 0 then -1
    else if n < 2 then 0
    else if n < 4 then 1
    else if n < 8 then 2
    else if n < 16 then 3
    else if n < 32 then 4
    else if n < 64 then 5
    else if n < 128 then 6
    else 7
  }

  /** Index of the most significant set bit, -1 for zero. */
  function MsBit(x: int): int
    requires 0 <= x < 0x1_0000_0000
  {
    if x <= 0xff then Table(x)
    else if x <= 0xffff then Table(x / 0x100) + 8
    else if x <= 0xffffff then Table(x / 0x1_0000) + 16
    else Table(x / 0x100_0000) + 24
  }

  /** MAPPING_INSERT: the class that holds free blocks of size r. */
  function MappingInsert(r: int): Class
    requires 0 <= r < 0x1_0000_0000
  {
    if r < SMALL_BLOCK then
      Class(0, r / (SMALL_BLOCK / MAX_SLI))
    else
      MsBitOf(r);
      var f := MsBit(r);
      Class(f - FLI_OFFSET, r / Pow2(f - MAX_LOG2_SLI) - MAX_SLI)
  }

  /** MAPPING_SEARCH: the size a request is rounded up to, and the first class
      whose blocks are all large enough. */
  function MappingSearch(r: int): (int, Class)
    requires 0 <= r < MAX_AREA
  {
    if r < SMALL_BLOCK then
      (r, Class(0, r / (SMALL_BLOCK / MAX_SLI)))
    else
      MsBitOf(r);
      Pow2Bounds(MsBit(r) - MAX_LOG2_SLI);
      var t := Pow2(MsBit(r) - MAX_LOG2_SLI) - 1;
      var r' := r + t;
      MsBitOf(r');
      var f := MsBit(r');
      (r' - r' % (t + 1),
       Class(f - FLI_OFFSET, r' / Pow2(f - MAX_LOG2_SLI) - MAX_SLI))
  }

  function SearchSize(r: int): int
    requires 0 <= r < MAX_AREA
  {
    MappingSearch(r).0
  }

  /** Least size that belongs to class c. */
  function ClassLow(c: Class): int
    requires IsClass(c)
  {
    if c.fl == 0 then 4 * c.sl else Pow2(c.fl + 1) * (MAX_SLI + c.sl)
  }

  /* Powers of two */

  lemma Pow2Values()
    ensures Pow2(0) == 1 && Pow2(1) == 2 && Pow2(2) == 4 && Pow2(3) == 8
    ensures Pow2(4) == 16 && Pow2(5) == 32 && Pow2(6) == 64 && Pow2(7) == 128
    ensures Pow2(8) == 0x100 && Pow2(16) == 0x1_0000 && Pow2(24) == 0x100_0000
  {
    assert Pow2(4) == 16;
    assert Pow2(8) == 0x100;
    assert Pow2(12) == 0x1000;
    assert Pow2(16) == 0x1_0000;
    assert Pow2(20) == 0x10_0000;
  }

  lemma Pow2Bounds(a: int)
    requires 0 <= a <= 26
    ensures 1 <= Pow2(a) <= 0x400_0000
  {
    Pow2Values();
    Pow2Monotone(a, 26);
    assert Pow2(26) == 4 * Pow2(24);
  }

  lemma TableOf(n: int)
    requires 1 <= n < 256
    ensures 0 <= Table(n) < 8
    ensures Pow2(Table(n)) <= n < 2 * Pow2(Table(n))
  {
    Pow2Values();
  }

  /** A table lookup on the top byte, shifted back by e bits. */
  lemma TopByte(x: int, e: nat, w: int)
    requires w == Pow2(e) && w <= x < 256 * w
    ensures 1 <= x / w < 256
    ensures var t := Table(x / w); 0 <= t < 8 && Pow2(t + e) <= x < 2 * Pow2(t + e)
  {
    hide Pow2, Table;
    DivBetween(x, w, 1);
    DivBetween(x, w, 256);
    TableOf(x / w);
    var p := Pow2(Table(x / w));
    Pow2Split(Table(x / w), e);
    ScaledBetween(x, w, p);
  }

  lemma ScaledBetween(x: int, w: int, p: int)
    requires x >= 0 && w >= 1 && p >= 1 && p <= x / w < 2 * p
    ensures p * w <= x < 2 * (p * w)
  {
    var q, r := x / w, x % w;
    assert x == w * q + r;
    MulMono(w, p, q);
    MulMono(w, q + 1, 2 * p);
    assert w * (q + 1) == w * q + w;
    assert w * (2 * p) == 2 * (p * w);
  }

  lemma MsBitOf(x: int)
    requires 1 <= x < 0x1_0000_0000
    ensures 0 <= MsBit(x) < 32
    ensures Pow2(MsBit(x)) <= x < 2 * Pow2(MsBit(x))
    ensures x >= SMALL_BLOCK ==> MsBit(x) >= 7
    ensures x < MAX_AREA ==> MsBit(x) <= 29
  {
    hide Pow2, Table;
    Pow2Values();
    if x <= 0xff {
      TableOf(x);
    } else if x <= 0xffff {
      TopByte(x, 8, 0x100);
    } else if x <= 0xffffff {
      TopByte(x, 16, 0x1_0000);
    } else {
      TopByte(x, 24, 0x100_0000);
      Pow2Split(6, 24);
      if x < MAX_AREA && MsBit(x) >= 30 {
        Pow2Monotone(30, MsBit(x));
      }
    }
  }

  /** The most significant bit is the only exponent that brackets x. */
  lemma MsBitUnique(x: int, f: nat)
    requires 1 <= x < 0x1_0000_0000
    requires Pow2(f) <= x < 2 * Pow2(f)
    ensures MsBit(x) == f
  {
    MsBitOf(x);
    if f < MsBit(x) {
      Pow2Monotone(f + 1, MsBit(x));
    } else if MsBit(x) < f {
      Pow2Monotone(MsBit(x) + 1, f);
    }
  }

  /* Division by a class width */

  lemma DivBetween(x: int, w: int, k: int)
    requires w >= 1
    ensures x / w >= k <==> x >= w * k
  {
    var q, m := x / w, x % w;
    assert x == w * q + m && 0 <= m < w;
    if q >= k {
      MulMono(w, k, q);
    } else {
      MulMono(w, q + 1, k);
    }
  }

  lemma MulMono(w: int, a: int, b: int)
    requires w >= 0 && a <= b
    ensures w * a <= w * b
  {
  }

  /** Sizes of at least SMALL_BLOCK: class and class bounds in terms of the
      exponent f of the size. */
  lemma LargeClass(s: int)
    requires SMALL_BLOCK <= s < 0x1_0000_0000
    ensures var f := MsBit(s); var w := Pow2(f - MAX_LOG2_SLI); var c := MappingInsert(s);
            f >= 7 && c.fl == f - FLI_OFFSET >= 1 && 0 <= c.sl < MAX_SLI
            && Pow2(f) == 32 * w
            && w * (MAX_SLI + c.sl) <= s < w * (MAX_SLI + c.sl) + w
  {
    hide Pow2, MsBit;
    MsBitOf(s);
    var f := MsBit(s);
    var w := Pow2(f - MAX_LOG2_SLI);
    Pow2Split(f - MAX_LOG2_SLI, 5);
    Pow2Values();
    DivBetween(s, w, 32);
    DivBetween(s, w, 64);
    var q := s / w;
    assert s == w * q + s % w;
  }

  /** The class that comes next in the order of the search. */
  function Succ(c: Class): Class {
    if c.sl + 1 < MAX_SLI then Class(c.fl, c.sl + 1) else Class(c.fl + 1, 0)
  }

  /** A size lies between the lower bound of its class and that of the next one. */
  lemma InsertBetween(s: int)
    requires 0 <= s < MAX_AREA
    ensures var c := MappingInsert(s);
            IsClass(c) && ClassLow(c) <= s && (IsClass(Succ(c)) ==> s < ClassLow(Succ(c)))
  {
    hide MappingInsert, ClassLow;
    InsertClass(s);
    var c := MappingInsert(s);
    if IsClass(Succ(c)) {
      ClassOrder(s, Succ(c));
    }
  }

  /** MAPPING_INSERT lands in the table and the class holds the size. */
  lemma InsertClass(s: int)
    requires 0 <= s < MAX_AREA
    ensures IsClass(MappingInsert(s))
    ensures ClassLow(MappingInsert(s)) <= s
  {
    if s >= SMALL_BLOCK {
      LargeClass(s);
      MsBitOf(s);
    }
  }

  lemma ClassOrderLarge(s: int, c: Class)
    requires SMALL_BLOCK <= s < MAX_AREA && IsClass(c) && c.fl > 0
    ensures AtLeast(MappingInsert(s), c) <==> s >= ClassLow(c)
  {
    hide MappingInsert, MsBit, Pow2;
    LargeClass(s);
    var f := MsBit(s);
    var w := Pow2(c.fl + 1);
    Pow2Values();
    Pow2Split(c.fl + 1, 5);
    Pow2Split(c.fl + 1, 6);
    LevelBounds(w, c.sl);
    if f > c.fl + 6 {
      MsBitOf(s);
      Pow2Monotone(c.fl + 7, f);
    } else if f < c.fl + 6 {
      MsBitOf(s);
      Pow2Monotone(f + 1, c.fl + 6);
      Pow2Next(f);
    } else {
      SameLevel(w, s, 32 + MappingInsert(s).sl, 32 + c.sl);
    }
  }

  /** Sizes between consecutive multiples of the class width w. */
  lemma SameLevel(w: int, s: int, d: int, c: int)
    requires w >= 1 && w * d <= s < w * d + w
    ensures d >= c <==> s >= w * c
  {
    if d >= c {
      MulMono(w, c, d);
    } else {
      MulMono(w, d + 1, c);
      assert w * (d + 1) == w * d + w;
    }
  }

  lemma LevelBounds(w: int, k: int)
    requires w >= 0 && 0 <= k < 32
    ensures 32 * w <= w * (32 + k) <= 63 * w
  {
    MulMono(w, 32, 32 + k);
    MulMono(w, 32 + k, 63);
  }

  lemma Pow2Next(n: nat)
    ensures Pow2(n + 1) == 2 * Pow2(n)
  {
  }

  lemma ClassOrderSmall(s: int, c: Class)
    requires 0 <= s < SMALL_BLOCK && IsClass(c)
    ensures AtLeast(MappingInsert(s), c) <==> s >= ClassLow(c)
  {
    hide Pow2, MsBit;
    if c.fl > 0 {
      Pow2Values();
      Pow2Monotone(2, c.fl + 1);
      LevelBounds(Pow2(c.fl + 1), c.sl);
    }
  }

  /** The classes are ordered as the sizes they hold: a block is found in class c
      or in a later one exactly when its size reaches the least size of c. */
  lemma ClassOrder(s: int, c: Class)
    requires 0 <= s < MAX_AREA && IsClass(c)
    ensures AtLeast(MappingInsert(s), c) <==> s >= ClassLow(c)
  {
    hide MsBit, Pow2, MappingInsert;
    if s < SMALL_BLOCK {
      ClassOrderSmall(s, c);
    } else if c.fl > 0 {
      ClassOrderLarge(s, c);
    } else {
      LargeClass(s);
    }
  }

  lemma RoundUpTo(r: int, w: int) returns (q: int)
    requires w >= 1 && r >= 0
    ensures (r + w - 1) - (r + w - 1) % w == w * q
    ensures r <= w * q < r + w
  {
    q := (r + w - 1) / w;
    assert r + w - 1 == w * q + (r + w - 1) % w;
  }

  lemma ModOf(w: int, q: int, m: int)
    requires w >= 1 && 0 <= m < w
    ensures (w * q + m) / w == q
    ensures (w * q + m) % w == m
  {
    DivBetween(w * q + m, w, q);
    assert w * (q + 1) == w * q + w;
    DivBetween(w * q + m, w, q + 1);
  }

  /** The two ways a large request is rounded: inside its power of two, or up
      to the next one. w is the class width at r, m the bits masked off. */
  lemma SearchLarge(r: int)
    requires SMALL_BLOCK <= r < MAX_AREA
    requires SearchSize(r) < MAX_AREA
    ensures var s, c := SearchSize(r), MappingSearch(r).1;
            s >= SMALL_BLOCK && MappingInsert(s) == c && IsClass(c) && ClassLow(c) == s
            && r <= s && 32 * (s - r) < r
  {
    hide MappingInsert, MappingSearch, MsBit, Pow2;
    LargeClass(r);
    MsBitOf(r);
    var f := MsBit(r);
    var w := Pow2(f - 5);
    Pow2Bounds(f - 5);
    var x := r + w - 1;
    var q := RoundUpTo(r, w);
    SearchValue(r, f, w, x);
    var s := w * q;
    assert SearchSize(r) == s;
    var m := x - s;
    assert 0 <= m < w;
    RoundBounds(r, w, q);
    Pow2Split(f - 5, 5);
    Pow2Values();
    if q < 64 {
      LargeExact(s, m, f, w, q);
    } else {
      Pow2Next(f);
      Pow2Next(f - 5);
      LargeExact(s, m, f + 1, 2 * w, 32);
    }
  }

  /** The body of MAPPING_SEARCH on a large request. */
  lemma SearchValue(r: int, f: int, w: int, x: int)
    requires SMALL_BLOCK <= r < MAX_AREA && f == MsBit(r) && f >= 7 && w == Pow2(f - MAX_LOG2_SLI) && x == r + w - 1
    requires x < 0x1_0000_0000
    ensures MsBit(x) >= 7
    ensures SearchSize(r) == x - x % w
    ensures MappingSearch(r).1 == Class(MsBit(x) - FLI_OFFSET, x / Pow2(MsBit(x) - MAX_LOG2_SLI) - MAX_SLI)
  {
    hide MsBit, Pow2;
    MsBitOf(x);
  }

  lemma RoundBounds(r: int, w: int, q: int)
    requires w >= 1 && 32 * w <= r < 64 * w && r <= w * q < r + w
    ensures 32 <= q <= 64
  {
    if q < 32 {
      MulMono(w, q, 31);
    } else if q > 64 {
      MulMono(w, 65, q);
    }
  }

  /** A size that is the multiple q of the class width w, 32 <= q < 64, is the
      least size of its class, and adding m < w does not leave the class. */
  lemma LargeExact(s: int, m: int, f: int, w: int, q: int)
    requires 7 <= f && w == Pow2(f - 5) && Pow2(f) == 32 * w
    requires 32 <= q < 64 && s == w * q && 0 <= m < w && s < MAX_AREA && s + m < 0x1_0000_0000
    ensures SMALL_BLOCK <= s && f <= 29
    ensures MsBit(s + m) == f && (s + m) / w == q
    ensures MappingInsert(s) == Class(f - FLI_OFFSET, q - MAX_SLI)
    ensures ClassLow(MappingInsert(s)) == s
  {
    hide MsBit, Pow2;
    Pow2Values();
    Pow2Monotone(7, f);
    MulMono(w, 32, q);
    MulMono(w, q + 1, 64);
    MsBitUnique(s + m, f);
    MsBitUnique(s, f);
    ModOf(w, q, m);
    ModOf(w, q, 0);
    MsBitOf(s);
  }

  /** Good fit: the rounded size is the least size of the class searched, it
      covers the request, and it exceeds it by at most one part in 32. */
  lemma SearchFit(r: int)
    requires 0 <= r < MAX_AREA && r % 4 == 0
    requires SearchSize(r) < MAX_AREA
    ensures IsClass(MappingSearch(r).1)
    ensures ClassLow(MappingSearch(r).1) == SearchSize(r)
    ensures MappingInsert(SearchSize(r)) == MappingSearch(r).1
    ensures r <= SearchSize(r)
    ensures r < SMALL_BLOCK ==> SearchSize(r) == r
    ensures r >= SMALL_BLOCK ==> 32 * (SearchSize(r) - r) < r
  {
    if r >= SMALL_BLOCK {
      SearchLarge(r);
    }
  }

  /** The rounded size is the least one that reaches the request and is the least
      size of its own class. */
  lemma SearchLeast(r: int, x: int)
    requires 0 <= r <= x < MAX_AREA && r % 4 == 0 && SearchSize(r) < MAX_AREA
    requires IsClass(MappingInsert(x)) && ClassLow(MappingInsert(x)) == x
    ensures SearchSize(r) <= x
  {
    if r >= SMALL_BLOCK {
      hide MappingInsert, MappingSearch, MsBit, Pow2, SearchSize;
      LargeClass(r);
      var w := Pow2(MsBit(r) - MAX_LOG2_SLI);
      SearchMultiple(r);
      if x < SearchSize(r) {
        SameTop(r, x);
        LargeClass(x);
        MultipleBelow(w, MAX_SLI + MappingInsert(x).sl, SearchSize(r) / w, r);
      }
    }
  }

  /** A large request is rounded to the next multiple of its class width. */
  lemma SearchMultiple(r: int)
    requires SMALL_BLOCK <= r < MAX_AREA
    ensures var w := Pow2(MsBit(r) - MAX_LOG2_SLI);
            SearchSize(r) == w * (SearchSize(r) / w) && r <= SearchSize(r) < r + w
            && SearchSize(r) <= 2 * Pow2(MsBit(r))
  {
    hide MappingInsert, MsBit, Pow2;
    LargeClass(r);
    MsBitOf(r);
    var w := Pow2(MsBit(r) - MAX_LOG2_SLI);
    Pow2Bounds(MsBit(r) - MAX_LOG2_SLI);
    var q := RoundUpTo(r, w);
    SearchValue(r, MsBit(r), w, r + w - 1);
    ModOf(w, q, 0);
    RoundBounds(r, w, q);
    MulMono(w, q, 64);
  }

  lemma SameTop(r: int, x: int)
    requires SMALL_BLOCK <= r <= x < MAX_AREA && 0 <= MsBit(r) && x < 2 * Pow2(MsBit(r))
    ensures MsBit(x) == MsBit(r)
  {
    hide MsBit, Pow2;
    MsBitOf(r);
    MsBitUnique(x, MsBit(r));
  }

  lemma MultipleBelow(w: int, k: int, q: int, r: int)
    requires w >= 1 && w * k < w * q < r + w
    ensures w * k < r
  {
    if k + 1 <= q {
      MulMono(w, k + 1, q);
      assert w * (k + 1) == w * k + w;
    } else {
      MulMono(w, q, k);
    }
  }

  lemma LargeWidth(s: int)
    requires SMALL_BLOCK <= s < MAX_AREA
    ensures IsClass(MappingInsert(s)) && 32 * (s - ClassLow(MappingInsert(s))) < ClassLow(MappingInsert(s))
  {
    InsertClass(s);
    hide MappingInsert, MsBit, Pow2;
    LargeClass(s);
    var c := MappingInsert(s);
    LevelBounds(Pow2(c.fl + 1), c.sl);
  }

  /** A block whose class is not above that of another one exceeds it by less than one
      part in 32. */
  lemma ClassWidth(s: int, t: int)
    requires 0 <= s < MAX_AREA && 0 < t < MAX_AREA && s % 16 == 0
    requires AtLeast(MappingInsert(t), MappingInsert(s))
    ensures 32 * (s - t) < t
  {
    hide MsBit, Pow2;
    var c := MappingInsert(s);
    InsertClass(s);
    ClassOrder(t, c);
    if s >= SMALL_BLOCK {
      LargeWidth(s);
    }
  }

  /** Requests that are multiples of 16 are rounded to multiples of 16. */
  lemma SearchAligned(r: int)
    requires 0 <= r < MAX_AREA && r % 16 == 0
    ensures SearchSize(r) % 16 == 0
  {
    hide Pow2, MsBit;
    if r >= SMALL_BLOCK {
      MsBitOf(r);
      var e := MsBit(r) - MAX_LOG2_SLI;
      Pow2Bounds(e);
      RoundAligned(r, e, Pow2(e));
    }
  }

  lemma RoundAligned(r: int, e: int, w: int)
    requires r >= 0 && r % 16 == 0 && e >= 2 && w == Pow2(e)
    ensures ((r + w - 1) - (r + w - 1) % w) % 16 == 0
  {
    if e >= 4 {
      var q := RoundUpTo(r, w);
      Pow2Split(4, e - 4);
      Pow2Values();
      Multiple16(w, q, Pow2(e - 4));
    } else {
      Pow2Values();
      var k := r / 16;
      if e == 3 {
        ModOf(8, 2 * k, 7);
      } else {
        ModOf(4, 4 * k, 3);
      }
    }
  }

  lemma Multiple16(w: int, q: int, v: int)
    requires w == 16 * v
    ensures (w * q) % 16 == 0
  {
    assert w * q == 16 * (v * q);
  }
}
