/** Variable-length quantities of MIDI files (src/midifile.lisp:115-117, 646-660,
    838-848): seven bits per byte, most significant first; all but the last byte
    have the top bit set. */
module MidiVlq {
  import opened Bytes
  import opened PowersOfTwo

  function Pow128(k: nat): (p: nat)
    ensures p >= 1
  {
    if k == 0 then 1 else 128 * Pow128(k - 1)
  }

  /** variable-length-quantity-bytes */
  function VlqBytes(n: nat): (k: nat)
    ensures k >= 1
  {
    var k := (IntegerLength(n) + 6) / 7;
    if k < 1 then 1 else k
  }

  /** The lowest k groups of seven bits. */
  function Digits(n: nat, k: nat): (s: seq<byte>)
    requires k >= 1
    ensures |s| == k
  {
    if k == 1 then [n % 128]
    else [128 + n / Pow128(k - 1) % 128] + Digits(n, k - 1)
  }

  function Vlq(n: nat): (s: seq<byte>)
    ensures |s| == VlqBytes(n)
  {
    Digits(n, VlqBytes(n))
  }

  datatype Quantity = Value(value: nat, bytes: nat) | TooLong(bytes: nat) | EndOfFile

  /** read-variable-length-quantity, when its next byte is number `bytes`. */
  function ReadVlq(s: seq<byte>, v: nat, bytes: nat): Quantity {
    if s == [] then EndOfFile
    else
      var v' := v * 128 + s[0] % 128;
      if s[0] < 128 then Value(v', bytes)
      else if bytes > 4 then TooLong(bytes)
      else ReadVlq(s[1..], v', bytes + 1)
  }

  lemma SplitRemainder(n: nat, p: nat)
    requires p >= 1
    ensures n % (128 * p) == n / p % 128 * p + n % p
  {
    var q, d, r := n / p / 128, n / p % 128, n % p;
    assert n / p == 128 * q + d && n == p * (n / p) + r;
    Distribute(p, 128 * q, d);
    Reorder(p, q);
    assert n == (128 * p) * q + (d * p + r);
    DigitBound(d, p, r);
    RemainderIs(n, 128 * p, q, d * p + r);
  }

  lemma Distribute(p: int, a: int, b: int)
    ensures p * (a + b) == p * a + b * p
  {
  }

  lemma Reorder(p: int, q: int)
    ensures p * (128 * q) == (128 * p) * q
  {
  }

  lemma DigitBound(d: nat, p: nat, r: nat)
    requires d < 128 && r < p
    ensures 0 <= d * p + r < 128 * p
  {
    MulLe(p, d, 127);
  }

  /** The number v with the lower groups, of which there are p values, taken from n. */
  function Extended(v: nat, n: nat, p: nat): nat
    requires p >= 1
  {
    v * p + n % p
  }

  lemma ExtendedStep(v: nat, n: nat, k: nat, d: nat)
    requires k > 1 && d == n / Pow128(k - 1) % 128
    ensures Extended(v * 128 + d, n, Pow128(k - 1)) == Extended(v, n, Pow128(k))
  {
    var p := Pow128(k - 1);
    assert Pow128(k) == 128 * p;
    hide Pow128;
    SplitRemainder(n, p);
    Gather(v, d, p);
  }

  /** Reading k groups gives back the number they hold. */
  lemma {:induction false} ReadDigits(n: nat, k: nat, v: nat, bytes: nat, rest: seq<byte>)
    requires 1 <= k && bytes + k <= 6
    ensures ReadVlq(Digits(n, k) + rest, v, bytes) == Value(Extended(v, n, Pow128(k)), bytes + k - 1)
    decreases k
  {
    hide Pow128, Digits, Extended, ReadVlq;
    if k == 1 {
      ReadLast(n, v, bytes, rest);
    } else {
      var s := Digits(n, k) + rest;
      DigitsHead(n, k);
      assert s[0] == Digits(n, k)[0] && s[1..] == Digits(n, k - 1) + rest;
      var d := s[0] - 128;
      ReadByte(s, d, v, bytes);
      ReadDigits(n, k - 1, v * 128 + d, bytes + 1, rest);
      ExtendedStep(v, n, k, d);
    }
  }

  lemma ReadLast(n: nat, v: nat, bytes: nat, rest: seq<byte>)
    ensures ReadVlq(Digits(n, 1) + rest, v, bytes) == Value(Extended(v, n, Pow128(1)), bytes)
  {
    assert (Digits(n, 1) + rest)[0] == n % 128;
    assert Pow128(1) == 128 * Pow128(0);
  }

  lemma ReadByte(s: seq<byte>, d: nat, v: nat, bytes: nat)
    requires d < 128 && bytes <= 4 && s != [] && s[0] == 128 + d
    ensures ReadVlq(s, v, bytes) == ReadVlq(s[1..], v * 128 + d, bytes + 1)
  {
  }

  lemma Gather(v: int, d: int, p: int)
    ensures (v * 128 + d) * p == v * (128 * p) + d * p
  {
  }

  /** With more than five bytes the reader gives up. */
  lemma {:induction false} ReadTooMany(n: nat, k: nat, v: nat, bytes: nat, rest: seq<byte>)
    requires 1 <= bytes <= 5 && bytes + k > 6
    ensures ReadVlq(Digits(n, k) + rest, v, bytes) == TooLong(5)
    decreases k
  {
    hide Digits;
    DigitsHead(n, k);
    var s := Digits(n, k) + rest;
    assert s[0] == Digits(n, k)[0] && s[1..] == Digits(n, k - 1) + rest;
    if bytes < 5 {
      ReadTooMany(n, k - 1, v * 128 + s[0] % 128, bytes + 1, rest);
    }
  }

  lemma DigitsHead(n: nat, k: nat)
    requires k > 1
    ensures Digits(n, k)[0] == 128 + n / Pow128(k - 1) % 128 && Digits(n, k)[1..] == Digits(n, k - 1)
  {
  }

  lemma {:induction false} Pow128Is(k: nat)
    ensures Pow128(k) == Pow2(7 * k)
  {
    if k > 0 {
      Pow128Is(k - 1);
      Pow2Split(7, 7 * (k - 1));
      assert Pow2(7) == 128 by {
        Pow2Split(3, 4);
      }
    }
  }

  lemma Fits(n: nat)
    ensures n < Pow128(VlqBytes(n))
  {
    Pow128Is(VlqBytes(n));
    Pow2Monotone(IntegerLength(n), 7 * VlqBytes(n));
  }

  lemma FiveBytes(n: nat)
    ensures VlqBytes(n) <= 5 <==> n < 0x8_0000_0000
  {
    Pow2At35();
    if VlqBytes(n) <= 5 {
      Pow2Monotone(IntegerLength(n), 35);
    } else {
      Pow2Monotone(35, IntegerLength(n) - 1);
    }
  }

  lemma Pow2At35()
    ensures Pow2(35) == 0x8_0000_0000
  {
    Pow2At32();
    Pow2Split(32, 3);
    assert Pow2(3) == 8;
  }

  /** The quantity that was written is read back exactly if it has at most 35 bits,
      although the message of the error speaks of four bytes. */
  lemma VlqRoundTrip(n: nat, rest: seq<byte>)
    ensures ReadVlq(Vlq(n) + rest, 0, 1) == (if n < 0x8_0000_0000 then Value(n, VlqBytes(n)) else TooLong(5))
  {
    hide ReadVlq, Digits, Pow128, VlqBytes;
    FiveBytes(n);
    var k := VlqBytes(n);
    if n < 0x8_0000_0000 {
      ReadDigits(n, k, 0, 1, rest);
      Fits(n);
      SmallRemainder(n, Pow128(k));
    } else {
      ReadTooMany(n, k, 0, 1, rest);
    }
  }

  lemma SmallRemainder(n: nat, p: nat)
    requires n < p
    ensures 0 * p + n % p == n
  {
  }

  /** No shorter quantity could hold the number. */
  lemma Shortest(n: nat, k: nat)
    ensures VlqBytes(n) <= k <==> k >= 1 && n < Pow2(7 * k)
  {
    if k < VlqBytes(n) {
      if k >= 1 {
        Pow2Monotone(7 * k, IntegerLength(n) - 1);
      }
    } else {
      Pow2Monotone(IntegerLength(n), 7 * k);
    }
  }

  /** The top bit says that more bytes follow; the others are a digit to base 128. */
  lemma {:induction false} TopBits(n: nat, k: nat, i: nat)
    requires i < k
    ensures Digits(n, k)[i] == (if i < k - 1 then 128 else 0) + n / Pow2(7 * (k - 1 - i)) % 128
    decreases k
  {
    if k > 1 {
      hide Digits, Pow2, Pow128;
      DigitsHead(n, k);
      if i > 0 {
        TopBits(n, k - 1, i - 1);
        assert Digits(n, k)[i] == Digits(n, k)[1..][i - 1];
      } else {
        Pow128Is(k - 1);
      }
    }
  }

  /** A written quantity: its length is the least that holds the number, the digits to
      base 128 come most significant first, and the top bit of a byte is set exactly if
      another one follows. */
  lemma VlqShape(n: nat, k: nat, i: nat)
    requires i < |Vlq(n)|
    ensures |Vlq(n)| <= k <==> k >= 1 && n < Pow2(7 * k)
    ensures Vlq(n)[i] == (if i < |Vlq(n)| - 1 then 128 else 0) + n / Pow2(7 * (|Vlq(n)| - 1 - i)) % 128
  {
    hide VlqBytes;
    Shortest(n, k);
    TopBits(n, VlqBytes(n), i);
  }

  /** Deltas below 2^28 take at most the four bytes of the standard. */
  lemma FourBytes(n: nat)
    requires n < 0x1000_0000
    ensures VlqBytes(n) <= 4
  {
    Pow2At28();
    if VlqBytes(n) > 4 {
      Pow2Monotone(28, IntegerLength(n) - 1);
      assert false;
    }
  }

  lemma Pow2At28()
    ensures Pow2(28) == 0x1000_0000
  {
    Pow2At32();
    Pow2Split(28, 4);
    assert Pow2(4) == 16;
  }
}
