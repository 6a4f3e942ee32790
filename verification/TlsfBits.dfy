/** The 32-bit bitmap words of the TLSF allocator (contrib/tlsf/src/tlsf.c:283-309
    and 344-360), as bit-vectors.

    The allocator model keeps each bitmap as the set of its set bits. `Bits` is that
    set; set_bit, clear_bit, the search mask, the zero test and ls_bit agree with the
    operations on it. */
module TlsfBits {
  import Sets

  predicate Test(w: bv32, i: bv32)
    requires i < 32
  {
    (w >> i) & 1 == 1
  }

  /** The word operation of set_bit. */
  function SetBit(w: bv32, i: bv32): bv32
    requires i < 32
  {
    w | (1 << i)
  }

  /** The word operation of clear_bit. */
  function ClearBit(w: bv32, i: bv32): bv32
    requires i < 32
  {
    w & !(1 << i)
  }

  /** The bits of w from index i up, as FIND_SUITABLE_BLOCK masks them. */
  function FromBit(w: bv32, i: bv32): bv32
    requires i < 32
  {
    w & (0xFFFF_FFFF << i)
  }

  /** The lookup table of floor(log2 x) for a byte. */
  function ByteLog(x: bv32): bv32 {
    if x == 0 then 0xFFFF_FFFF
    else if x < 2 then 0
    else if x < 4 then 1
    else if x < 8 then 2
    else if x < 16 then 3
    else if x < 32 then 4
    else if x < 64 then 5
    else if x < 128 then 6
    else 7
  }

  /** floor(log2 x), by the byte of the most significant bit. */
  function Lookup(x: bv32): bv32 {
    var a: bv32 := if x <= 0xffff then (if x <= 0xff then 0 else 8) else if x <= 0xffffff then 16 else 24;
    ByteLog(x >> a) + a
  }

  /** ls_bit: isolate the lowest set bit, then look it up. */
  function LsBit(i: bv32): bv32 {
    Lookup(i & (0 - i))
  }

  lemma SetBitTest(w: bv32, i: bv32, j: bv32)
    requires i < 32 && j < 32
    ensures Test(SetBit(w, i), j) <==> i == j || Test(w, j)
  {
  }

  lemma ClearBitTest(w: bv32, i: bv32, j: bv32)
    requires i < 32 && j < 32
    ensures Test(ClearBit(w, i), j) <==> i != j && Test(w, j)
  {
  }

  lemma AndTest(w: bv32, m: bv32, j: bv32)
    requires j < 32
    ensures Test(w & m, j) <==> Test(w, j) && Test(m, j)
  {
  }

  lemma OnesTest(i: bv32, j: bv32)
    requires i < 32 && j < 32
    ensures Test(0xFFFF_FFFF << i, j) <==> i <= j
  {
  }

  lemma FromBitTest(w: bv32, i: bv32, j: bv32)
    requires i < 32 && j < 32
    ensures Test(FromBit(w, i), j) <==> i <= j && Test(w, j)
  {
    if i <= j {
      AtOrAbove(w, 0xFFFF_FFFF << i, j, i);
    } else {
      Below(w, i, j);
    }
  }

  lemma AtOrAbove(w: bv32, m: bv32, j: bv32, i: bv32)
    requires i <= j < 32 && m == 0xFFFF_FFFF << i
    ensures Test(w & m, j) <==> Test(w, j)
  {
    OnesTest(i, j);
    AndTest(w, m, j);
  }

  lemma Below(w: bv32, i: bv32, j: bv32)
    requires j < i < 32
    ensures !Test(w & (0xFFFF_FFFF << i), j)
  {
  }

  lemma LsBitIsSet(w: bv32)
    requires w != 0
    ensures LsBit(w) < 32 && Test(w, LsBit(w))
  {
  }

  /** The isolated bit is not above any set bit. */
  lemma LowestBit(w: bv32, j: bv32)
    requires j < 32 && Test(w, j)
    ensures w & (0 - w) <= 1 << j
  {
  }

  lemma ByteLogBelow(x: bv32, j: bv32)
    requires 0 < x <= 0xff && j < 32 && x <= 1 << j
    ensures ByteLog(x) <= j
  {
    if j == 0 {
      assert x <= 1;
    } else if j == 1 {
      assert x <= 2;
    } else if j == 2 {
      assert x <= 4;
    } else if j == 3 {
      assert x <= 8;
    } else if j == 4 {
      assert x <= 16;
    } else if j == 5 {
      assert x <= 32;
    } else if j == 6 {
      assert x <= 64;
    }
  }

  lemma LookupByte0(x: bv32, j: bv32)
    requires 0 < x <= 0xff && j < 32 && x <= 1 << j
    ensures Lookup(x) <= j
  {
    assert x >> 0 == x;
    ByteLogBelow(x, j);
    hide ByteLog;
  }

  lemma LookupByte1(x: bv32, j: bv32)
    requires 0xff < x <= 0xffff && j < 32 && x <= 1 << j
    ensures Lookup(x) <= j
  {
  }

  lemma LookupByte2(x: bv32, j: bv32)
    requires 0xffff < x <= 0xff_ffff && j < 32 && x <= 1 << j
    ensures Lookup(x) <= j
  {
  }

  lemma LookupByte3(x: bv32, j: bv32)
    requires 0xff_ffff < x && j < 32 && x <= 1 << j
    ensures Lookup(x) <= j
  {
    if j == 24 {
      assert x <= 0x100_0000;
    } else if j == 25 {
      assert x <= 0x200_0000;
    } else if j == 26 {
      assert x <= 0x400_0000;
    } else if j == 27 {
      assert x <= 0x800_0000;
    } else if j == 28 {
      assert x <= 0x1000_0000;
    }
  }

  lemma NotZero(w: bv32)
    requires w != 0
    ensures w & (0 - w) != 0
  {
  }

  lemma LsBitIsLeast(w: bv32, j: bv32)
    requires w != 0 && j < 32 && Test(w, j)
    ensures LsBit(w) <= j
  {
    LowestBit(w, j);
    NotZero(w);
    hide Lookup, Test;
    LookupBelow(w & (0 - w), j);
  }

  lemma LookupBelow(x: bv32, j: bv32)
    requires x != 0 && j < 32 && x <= 1 << j
    ensures Lookup(x) <= j
  {
    hide Lookup;
    if x <= 0xff {
      LookupByte0(x, j);
    } else if x <= 0xffff {
      LookupByte1(x, j);
    } else if x <= 0xff_ffff {
      LookupByte2(x, j);
    } else {
      LookupByte3(x, j);
    }
  }

  /** What one step of the class search finds in a word: the least set bit at or
      above i when there is one, and otherwise a zero word, for which ls_bit is
      -1. */
  lemma SearchWord(w: bv32, i: bv32, j: bv32)
    requires i < 32 && j < 32
    ensures var m := FromBit(w, i);
            if m == 0 then LsBit(m) == 0xFFFF_FFFF && !(i <= j && Test(w, j))
            else var n := LsBit(m); n < 32 && i <= n && Test(w, n) && (i <= j && Test(w, j) ==> n <= j)
  {
    var m := FromBit(w, i);
    FromBitTest(w, i, j);
    if m != 0 {
      LsBitIsSet(m);
      FromBitTest(w, i, LsBit(m));
      if Test(m, j) {
        LsBitIsLeast(m, j);
      }
    } else {
      ZeroTest(j);
    }
  }

  lemma ZeroTest(j: bv32)
    requires j < 32
    ensures !Test(0, j)
  {
  }

  /* Words and sets */

  /** The set bits of a word, as the allocator model keeps a bitmap. */
  ghost function Bits(w: bv32): (s: set<int>)
    ensures forall i :: i in s <==> 0 <= i < 32 && Test(w, Index(i))
  {
    set i | 0 <= i < 32 && Test(w, Index(i))
  }

  /** A bit index as a word. */
  function Index(i: int): (b: bv32)
    requires 0 <= i < 32
    ensures b < 32
  {
    IndexBelow(i);
    i as bv32
  }

  lemma IndexBelow(i: int)
    requires 0 <= i < 32
    ensures i as bv32 < 32
  {
  }

  lemma IndexBack0(i: int)
    requires 0 <= i < 8
    ensures i as bv32 as int == i
  {
  }

  lemma IndexBack1(i: int)
    requires 8 <= i < 16
    ensures i as bv32 as int == i
  {
  }

  lemma IndexBack2(i: int)
    requires 16 <= i < 24
    ensures i as bv32 as int == i
  {
  }

  lemma IndexBack3(i: int)
    requires 24 <= i < 32
    ensures i as bv32 as int == i
  {
  }

  lemma IndexBack(i: int)
    requires 0 <= i < 32
    ensures i as bv32 as int == i
  {
    if i < 8 {
      IndexBack0(i);
    } else if i < 16 {
      IndexBack1(i);
    } else if i < 24 {
      IndexBack2(i);
    } else {
      IndexBack3(i);
    }
  }

  lemma IndexOrder(a: bv32, b: bv32)
    requires a < 32 && b < 32
    ensures a <= b <==> a as int <= b as int
  {
  }

  /** Indices are equal and ordered as words as they are as integers. */
  lemma IndexLaws(i: int, j: int)
    requires 0 <= i < 32 && 0 <= j < 32
    ensures Index(i) == Index(j) <==> i == j
    ensures Index(i) <= Index(j) <==> i <= j
  {
    IndexBack(i);
    IndexBack(j);
    IndexBelow(i);
    IndexBelow(j);
    IndexOrder(i as bv32, j as bv32);
  }

  lemma IndexOf(b: bv32)
    requires b < 32
    ensures 0 <= b as int < 32 && Index(b as int) == b
  {
  }

  /** set_bit adds an element. */
  lemma SetBitAdds(w: bv32, i: int)
    requires 0 <= i < 32
    ensures Bits(SetBit(w, Index(i))) == Bits(w) + {i}
  {
    hide Test, SetBit, Index;
    forall j | 0 <= j < 32
      ensures j in Bits(SetBit(w, Index(i))) <==> j == i || j in Bits(w)
    {
      SetBitTest(w, Index(i), Index(j));
      IndexLaws(i, j);
    }
  }

  /** clear_bit takes one away. */
  lemma ClearBitRemoves(w: bv32, i: int)
    requires 0 <= i < 32
    ensures Bits(ClearBit(w, Index(i))) == Bits(w) - {i}
  {
    hide Test, ClearBit, Index;
    forall j | 0 <= j < 32
      ensures j in Bits(ClearBit(w, Index(i))) <==> j != i && j in Bits(w)
    {
      ClearBitTest(w, Index(i), Index(j));
      IndexLaws(i, j);
    }
  }

  /** The mask of the search keeps the elements from an index on. */
  lemma FromBitKeeps(w: bv32, i: int)
    requires 0 <= i < 32
    ensures Bits(FromBit(w, Index(i))) == set j | j in Bits(w) && i <= j
  {
    hide Test, FromBit, Index;
    forall j | 0 <= j < 32
      ensures j in Bits(FromBit(w, Index(i))) <==> i <= j && j in Bits(w)
    {
      FromBitTest(w, Index(i), Index(j));
      IndexLaws(i, j);
    }
  }

  /** A word is zero exactly if it stands for the empty set. */
  lemma ZeroIsEmpty(w: bv32)
    ensures w == 0 <==> Bits(w) == {}
  {
    if w == 0 {
      forall i | 0 <= i < 32
        ensures i !in Bits(w)
      {
        ZeroTest(Index(i));
      }
    } else {
      LsBitIsSet(w);
      IndexOf(LsBit(w));
      assert LsBit(w) as int in Bits(w);
    }
  }

  /** ls_bit finds the least element. */
  lemma LsBitFinds(w: bv32)
    requires w != 0
    ensures Bits(w) != {} && LsBit(w) < 32 && LsBit(w) as int == Sets.Least(Bits(w))
  {
    hide LsBit, Test, Index;
    LsBitIsSet(w);
    var n := LsBit(w) as int;
    IndexOf(LsBit(w));
    assert n in Bits(w);
    var m := Sets.Least(Bits(w));
    LsBitIsLeast(w, Index(m));
    IndexLaws(n, m);
  }
}
