/**
 Bitwise arithmetic on naturals, as the ring index mask, the alignment guard and
 the chaos bit flips use it.  `And` and `Xor` are the usual digit-by-digit
 definitions; the lemmas relate them to `%`, `/` and single bits.
 */
module Bits {

  const TWO_32: nat := 0x1_0000_0000
  const TWO_64: nat := 0x1_0000_0000_0000_0000

  function Pow2(k: nat): (r: nat)
    ensures r >= 1
  {
    if k == 0 then 1 else 2 * Pow2(k - 1)
  }

  function And(x: nat, y: nat): nat {
    if x == 0 || y == 0 then 0
    else (if x % 2 == 1 && y % 2 == 1 then 1 else 0) + 2 * And(x / 2, y / 2)
  }

  function Xor(x: nat, y: nat): nat
    decreases x + y
  {
    if x == 0 && y == 0 then 0
    else (if x % 2 != y % 2 then 1 else 0) + 2 * Xor(x / 2, y / 2)
  }

  predicate Bit(x: nat, i: nat)
    decreases i
  {
    if i == 0 then x % 2 == 1 else Bit(x / 2, i - 1)
  }

  /** `x >> k` */
  function Shr(x: nat, k: nat): nat
    decreases k
  {
    if k == 0 then x else Shr(x / 2, k - 1)
  }

  ghost predicate IsPow2(n: nat) {
    exists k: nat :: Pow2(k) == n
  }

  // ---------------------------------------------------------------- division

  lemma DivModUnique(x: int, m: int, q: int, r: int)
    requires 0 <= r < m && x == q * m + r
    ensures x / m == q && x % m == r
  {
    var q', r' := x / m, x % m;
    assert x == q' * m + r' && 0 <= r' < m;
    assert (q - q') * m == r' - r && (q' - q) * m == r - r';
    if q > q' {
      MulAtLeast(q - q', m);
    } else if q < q' {
      MulAtLeast(q' - q, m);
    }
  }

  lemma MulAtLeast(a: int, m: int)
    requires a >= 1 && m >= 1
    ensures a * m >= m
  {
    assert a * m == (a - 1) * m + m;
    assert (a - 1) * m >= 0;
  }

  lemma ModSmall(x: int, m: int)
    requires 0 <= x < m
    ensures x % m == x
  {
    DivModUnique(x, m, 0, x);
  }

  lemma ModStep(n: int, m: int)
    requires n >= 0 && m >= 1
    ensures (n + 1) % m == if n % m + 1 == m then 0 else n % m + 1
  {
    var q, r := n / m, n % m;
    assert n == q * m + r;
    if r + 1 == m {
      assert (q + 1) * m == q * m + m;
      DivModUnique(n + 1, m, q + 1, 0);
    } else {
      DivModUnique(n + 1, m, q, r + 1);
    }
  }

  lemma ModLap(a: int, m: int)
    requires a >= 0 && m >= 1
    ensures (a + m) % m == a % m
  {
    var q, r := a / m, a % m;
    assert a == q * m + r;
    assert (q + 1) * m == q * m + m;
    DivModUnique(a + m, m, q + 1, r);
  }

  lemma ModApart(a: int, b: int, m: int)
    requires 0 <= a < b < a + m
    ensures a % m != b % m
  {
    var q, r := a / m, a % m;
    assert a == q * m + r;
    var s := r + (b - a);
    if s < m {
      DivModUnique(b, m, q, s);
    } else {
      assert (q + 1) * m == q * m + m;
      DivModUnique(b, m, q + 1, s - m);
    }
  }

  lemma DoubleModulus(x: nat, p: nat)
    requires p >= 1
    ensures x % (2 * p) == x % 2 + 2 * ((x / 2) % p)
    ensures x / (2 * p) == x / 2 / p
  {
    var q, r := x / 2 / p, (x / 2) % p;
    assert x / 2 == q * p + r;
    assert x == q * (2 * p) + (2 * r + x % 2) by {
      assert x == 2 * (q * p + r) + x % 2;
      assert q * (2 * p) == 2 * (q * p);
    }
    DivModUnique(x, 2 * p, q, 2 * r + x % 2);
  }

  /** A 64-bit counter after one increment, and after n of them. */
  function Bump(counter: nat): nat { (counter + 1) % TWO_64 }

  function Raised(counter: nat, n: nat): nat { (counter + n) % TWO_64 }

  lemma RaisedStep(counter: nat, n: nat)
    ensures Raised(counter, n + 1) == Bump(Raised(counter, n))
    ensures counter < TWO_64 ==> Raised(counter, 0) == counter
  {
  }

  lemma RaisedRaised(counter: nat, n: nat, k: nat)
    ensures Raised(Raised(counter, n), k) == Raised(counter, n + k)
  {
  }

  /** How far a 64-bit counter has moved from an earlier value. */
  function Moved(now: nat, earlier: nat): nat { (now - earlier) % TWO_64 }

  lemma MovedRaised(counter: nat, n: nat)
    requires counter < TWO_64
    ensures Moved(Raised(counter, n), counter) == n % TWO_64
  {
  }

  lemma MovedDifference(n: nat, m: nat)
    ensures Moved(n % TWO_64, m % TWO_64) == (n - m) % TWO_64
  {
  }

  // ---------------------------------------------------------------- masking

  /** Masking with 2^k - 1 is reduction modulo 2^k. */
  lemma {:induction false} AndMaskIsMod(x: nat, k: nat)
    ensures And(x, Pow2(k) - 1) == x % Pow2(k)
    decreases k
  {
    if k == 0 {
    } else if x == 0 {
    } else {
      var p := Pow2(k - 1);
      AndMaskIsMod(x / 2, k - 1);
      DoubleModulus(x, p);
      assert (2 * p - 1) % 2 == 1 && (2 * p - 1) / 2 == p - 1;
    }
  }

  lemma {:induction false} AndSelf(x: nat)
    ensures And(x, x) == x
  {
    if x > 0 {
      AndSelf(x / 2);
    }
  }

  /** The compile-time guard `(n & (n - 1)) == 0` accepts exactly the powers of two (and 0). */
  lemma {:induction false} PowerOfTwoGuard(n: nat)
    requires n >= 1
    ensures And(n, n - 1) == 0 <==> IsPow2(n)
    decreases n
  {
    if n == 1 {
      assert Pow2(0) == 1;
    } else if n % 2 == 1 {
      AndSelf(n / 2);
      assert (n - 1) / 2 == n / 2;
      forall k: nat ensures Pow2(k) != n {
        if k > 0 { assert Pow2(k) == 2 * Pow2(k - 1); }
      }
    } else {
      var m := n / 2;
      assert (n - 1) / 2 == m - 1;
      PowerOfTwoGuard(m);
      if IsPow2(m) {
        var k: nat :| Pow2(k) == m;
        assert Pow2(k + 1) == n;
      }
      if IsPow2(n) {
        var k: nat :| Pow2(k) == n;
        assert k > 0 && Pow2(k - 1) == m;
      }
    }
  }

  lemma Pow2Values()
    ensures Pow2(6) == 64 && Pow2(32) == TWO_32
  {
    assert Pow2(4) == 16;
    assert Pow2(8) == 256;
    assert Pow2(12) == 0x1000;
    assert Pow2(16) == 0x10000;
    assert Pow2(20) == 0x10_0000;
    assert Pow2(24) == 0x100_0000;
    assert Pow2(28) == 0x1000_0000;
  }

  // ---------------------------------------------------------------- single bits

  lemma {:induction false} XorBit(x: nat, y: nat, i: nat)
    ensures Bit(Xor(x, y), i) <==> Bit(x, i) != Bit(y, i)
    decreases i
  {
    if x == 0 && y == 0 {
      ZeroBit(i);
    } else if i > 0 {
      XorBit(x / 2, y / 2, i - 1);
    }
  }

  lemma {:induction false} AndBit(x: nat, y: nat, i: nat)
    ensures Bit(And(x, y), i) <==> Bit(x, i) && Bit(y, i)
    decreases i
  {
    if x == 0 || y == 0 {
      ZeroBit(i);
    } else if i > 0 {
      AndBit(x / 2, y / 2, i - 1);
    }
  }

  lemma {:induction false} XorZero(x: nat)
    ensures Xor(x, 0) == x && Xor(0, x) == x
  {
    if x > 0 { XorZero(x / 2); }
  }

  lemma {:induction false} Pow2Bit(b: nat, i: nat)
    ensures Bit(Pow2(b), i) <==> b == i
    decreases b
  {
    if b == 0 {
      if i > 0 { ZeroBit(i - 1); }
    } else if i > 0 {
      Pow2Bit(b - 1, i - 1);
    }
  }

  lemma {:induction false} ZeroBit(i: nat)
    ensures !Bit(0, i)
    decreases i
  {
    if i > 0 { ZeroBit(i - 1); }
  }

  lemma XorHalf(x: nat, y: nat)
    ensures Xor(x, y) / 2 == Xor(x / 2, y / 2)
  {
  }

  /** Exclusive-or acts on the high part and on the low bits independently. */
  lemma {:induction false} XorShift(x: nat, y: nat, k: nat)
    ensures Shr(Xor(x, y), k) == Xor(Shr(x, k), Shr(y, k))
    decreases k
  {
    if k > 0 {
      XorHalf(x, y);
      XorShift(x / 2, y / 2, k - 1);
    }
  }

  lemma {:induction false} ShrIsDiv(x: nat, k: nat)
    ensures Shr(x, k) == x / Pow2(k)
    decreases k
  {
    if k > 0 {
      ShrIsDiv(x / 2, k - 1);
      DoubleModulus(x, Pow2(k - 1));
    }
  }

  /** A number is determined by its high part and its k low bits. */
  lemma {:induction false} LowBitsDetermine(x: nat, y: nat, k: nat)
    requires Shr(x, k) == Shr(y, k)
    requires forall i: nat :: i < k ==> Bit(x, i) == Bit(y, i)
    ensures x == y
    decreases k
  {
    if k > 0 {
      assert Bit(x, 0) == Bit(y, 0);
      forall i: nat | i < k - 1 ensures Bit(x / 2, i) == Bit(y / 2, i) {
        assert Bit(x, i + 1) == Bit(y, i + 1);
      }
      LowBitsDetermine(x / 2, y / 2, k - 1);
    }
  }
}
