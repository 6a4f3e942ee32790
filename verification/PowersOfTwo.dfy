/** Powers of two and integer lengths (src/config.lisp:235-245). */
module PowersOfTwo {

  function Pow2(n: nat): (p: nat)
    ensures 1 <= p && n < p
  {
    if n == 0 then 1 else 2 * Pow2(n - 1)
  }

  /** The number of bits of n without leading zeros. */
  function IntegerLength(n: nat): (k: nat)
    ensures n < Pow2(k)
    ensures n > 0 ==> k > 0 && Pow2(k - 1) <= n
  {
    if n == 0 then 0 else 1 + IntegerLength(n / 2)
  }

  predicate IsPowerOfTwo(n: nat) {
    n == 1 || (n > 1 && n % 2 == 0 && IsPowerOfTwo(n / 2))
  }

  function NextPowerOfTwo(n: nat): (p: nat)
    requires n >= 1
    ensures n <= p < 2 * n
    ensures IsPowerOfTwo(p)
  {
    Pow2IsPower(IntegerLength(n - 1));
    Pow2(IntegerLength(n - 1))
  }

  lemma {:induction false} Pow2IsPower(n: nat)
    ensures IsPowerOfTwo(Pow2(n))
  {
    if n > 0 {
      Pow2IsPower(n - 1);
    }
  }

  /** A power of two is its own next power: the result is the least one. */
  lemma NextPowerLeast(n: nat, p: nat)
    requires 1 <= n <= p && IsPowerOfTwo(p)
    ensures NextPowerOfTwo(n) <= p
  {
    PowerIsPow2(p);
    var k: nat :| p == Pow2(k);
    var j := IntegerLength(n - 1);
    if k < j {
      Pow2Monotone(k, j - 1);
    } else {
      Pow2Monotone(j, k);
    }
  }

  lemma {:induction false} PowerIsPow2(p: nat)
    requires IsPowerOfTwo(p)
    ensures exists k: nat :: p == Pow2(k)
  {
    if p == 1 {
      assert p == Pow2(0);
    } else {
      PowerIsPow2(p / 2);
      var k: nat :| p / 2 == Pow2(k);
      assert p == Pow2(k + 1);
    }
  }

  lemma {:induction false} Pow2Monotone(i: nat, j: nat)
    requires i <= j
    ensures Pow2(i) <= Pow2(j)
  {
    if i < j {
      Pow2Monotone(i, j - 1);
    }
  }

  /** Between a power of two and its double there is no other one. */
  lemma {:induction false} PowersApart(p: nat, q: nat)
    requires IsPowerOfTwo(p) && IsPowerOfTwo(q) && p <= q < 2 * p
    ensures p == q
  {
    if p > 1 {
      PowersApart(p / 2, q / 2);
    }
  }

  /** The next power of two is the only one from n up to its double. */
  lemma NextPowerIs(n: nat, p: nat)
    requires n >= 1 && IsPowerOfTwo(p) && n <= p < 2 * n
    ensures NextPowerOfTwo(n) == p
  {
    NextPowerLeast(n, p);
    PowersApart(NextPowerOfTwo(n), p);
  }

  /* Masking */

  /** Bitwise and. */
  function And(a: nat, b: nat): (r: nat)
    ensures r <= a && r <= b
  {
    if a == 0 || b == 0 then 0 else (if a % 2 == 1 && b % 2 == 1 then 1 else 0) + 2 * And(a / 2, b / 2)
  }

  /** Masking with a power of two minus one leaves the remainder. */
  lemma {:induction false} AndMask(x: nat, p: nat)
    requires IsPowerOfTwo(p)
    ensures And(x, p - 1) == x % p
  {
    if p > 1 {
      AndMask(x / 2, p / 2);
      AndMaskStep(x, p / 2);
    }
  }

  lemma AndMaskStep(x: nat, h: nat)
    requires h >= 1 && And(x / 2, h - 1) == x / 2 % h
    ensures And(x, 2 * h - 1) == x % (2 * h)
  {
    hide And;
    AndOdd(x, 2 * h - 1);
    HalfRemainder(x, h);
  }

  lemma AndOdd(x: nat, b: nat)
    requires b % 2 == 1
    ensures And(x, b) == x % 2 + 2 * And(x / 2, b / 2)
  {
  }

  lemma HalfRemainder(x: nat, h: nat)
    requires h >= 1
    ensures x % (2 * h) == x % 2 + 2 * (x / 2 % h)
  {
    var q := x / 2 / h;
    var r := x / 2 % h;
    assert x / 2 == q * h + r;
    assert x == (2 * h) * q + (2 * r + x % 2) by {
      assert 2 * (q * h) == (2 * h) * q;
    }
    RemainderIs(x, 2 * h, q, 2 * r + x % 2);
  }

  lemma RemainderIs(x: int, m: nat, q: int, r: nat)
    requires m >= 1 && r < m && x == m * q + r
    ensures x % m == r && x / m == q
  {
    var q', r' := x / m, x % m;
    assert x == m * q' + r';
    if q' > q {
      MulLe(m, q + 1, q');
      assert false;
    } else if q' < q {
      MulLe(m, q' + 1, q);
      assert false;
    }
  }

  lemma MulLe(m: nat, a: int, b: int)
    requires a <= b
    ensures m * a <= m * b
  {
  }

  /** power-of-two-p tests (logand n (1- n)). */
  lemma {:induction false} PowerTest(n: nat)
    requires n >= 1
    ensures IsPowerOfTwo(n) <==> And(n, n - 1) == 0
  {
    if n > 1 {
      if n % 2 == 0 {
        assert (n - 1) / 2 == n / 2 - 1;
        PowerTest(n / 2);
      } else {
        assert (n - 1) / 2 == n / 2;
        AndSelf(n / 2);
      }
    }
  }

  lemma {:induction false} AndSelf(n: nat)
    ensures And(n, n) == n
  {
    if n > 0 {
      AndSelf(n / 2);
    }
  }

  /** Unsigned arithmetic of 32 bits agrees with the integers after masking. */
  lemma WrapMask(x: int, p: nat)
    requires IsPowerOfTwo(p) && p <= 0x1_0000_0000
    ensures x % 0x1_0000_0000 % p == x % p
  {
    PowerDivides(p);
    var m, d := 0x1_0000_0000, 0x1_0000_0000 / p;
    var q, r := x / m, x % m;
    assert x == m * q + r && m == p * d;
    var q', r' := r / p, r % p;
    assert r == p * q' + r';
    assert x == p * (d * q + q') + r' by {
      assert m * q == p * (d * q);
      assert p * (d * q + q') == p * (d * q) + p * q';
    }
    RemainderIs(x, p, d * q + q', r');
  }

  lemma PowerDivides(p: nat)
    requires IsPowerOfTwo(p) && p <= 0x1_0000_0000
    ensures p * (0x1_0000_0000 / p) == 0x1_0000_0000
  {
    PowerIsPow2(p);
    var k: nat :| p == Pow2(k);
    PowerBound(k);
    Pow2Split(k, 32 - k);
    Pow2At32();
    RemainderIs(0x1_0000_0000, p, Pow2(32 - k), 0);
  }

  lemma PowerBound(k: nat)
    requires Pow2(k) <= 0x1_0000_0000
    ensures k <= 32
  {
    if k > 32 {
      Pow2Monotone(33, k);
      Pow2At32();
      assert false;
    }
  }

  lemma {:induction false} Pow2Split(i: nat, j: nat)
    ensures Pow2(i) * Pow2(j) == Pow2(i + j)
  {
    if i > 0 {
      Pow2Split(i - 1, j);
      Associate(2, Pow2(i - 1), Pow2(j));
    }
  }

  lemma Pow2At32()
    ensures Pow2(32) == 0x1_0000_0000
  {
    Pow2Split(8, 8);
    Pow2Split(16, 16);
    assert Pow2(8) == 256 by {
      Pow2Split(4, 4);
      assert Pow2(4) == 16;
    }
  }

  lemma Associate(a: int, b: int, c: int)
    ensures (a * b) * c == a * (b * c)
  {
  }
}
