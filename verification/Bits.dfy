/**
 Binary digits of natural numbers.

 Unsigned machine words are naturals below a power of two, and the bitwise operators are defined
 digit by digit; their arithmetic meaning is proved from there.
 */
module Bits {
  function Pow2(n: nat): (r: nat)
    ensures r > 0
  {
    if n == 0 then 1 else 2 * Pow2(n - 1)
  }

  lemma {:induction false} Pow2Add(m: nat, n: nat)
    ensures Pow2(m + n) == Pow2(m) * Pow2(n)
  {
    if m > 0 {
      Pow2Add(m - 1, n);
    }
  }

  lemma Pow2Of8()
    ensures Pow2(8) == 0x100
  {
  }

  lemma Pow2Of64()
    ensures Pow2(64) == 0x1_0000_0000_0000_0000
  {
    hide Pow2;
    Pow2Of8();
    assert Pow2(16) == 0x1_0000 by { Pow2Add(8, 8); }
    assert Pow2(32) == 0x1_0000_0000 by { Pow2Add(16, 16); }
    Pow2Add(32, 32);
  }

  lemma {:induction false} Pow2Monotone(m: nat, n: nat)
    requires m <= n
    ensures Pow2(m) <= Pow2(n)
  {
    if m < n {
      Pow2Monotone(m, n - 1);
    }
  }

  lemma Pow2Order(m: nat, n: nat)
    ensures Pow2(m) <= Pow2(n) <==> m <= n
  {
  }

  /** Binary digit `k` of `a`. */
  predicate TestBit(a: nat, k: nat) {
    if k == 0 then a % 2 == 1 else TestBit(a / 2, k - 1)
  }

  /** Bitwise inclusive or, digit by digit. */
  function BitOr(a: nat, b: nat): nat
    decreases a + b
  {
    if a == 0 then b
    else if b == 0 then a
    else (if a % 2 == 1 || b % 2 == 1 then 1 else 0) + 2 * BitOr(a / 2, b / 2)
  }

  lemma {:induction false} TestBitIsDivMod(a: nat, k: nat)
    ensures TestBit(a, k) <==> (a / Pow2(k)) % 2 == 1
  {
    if k > 0 {
      TestBitIsDivMod(a / 2, k - 1);
      DivDiv(a, 2, Pow2(k - 1));
    }
  }

  lemma MulAtLeast(x: int, d: int)
    requires x >= 1 && d >= 0
    ensures x * d >= d
  {
  }

  lemma QuotientUnique(d: nat, v: int, r: nat, v': int, r': nat)
    requires r < d && r' < d && v * d + r == v' * d + r'
    ensures v == v'
  {
    assert (v - v') * d == v * d - v' * d;
    assert (v' - v) * d == v' * d - v * d;
    if v > v' {
      MulAtLeast(v - v', d);
    } else if v < v' {
      MulAtLeast(v' - v, d);
    }
  }

  lemma DivDiv(a: nat, p: nat, q: nat)
    requires p > 0 && q > 0
    ensures p * q > 0 && a / (p * q) == a / p / q
  {
    MulAtLeast(p, q);
    var u := a / p;
    var v, w := u / q, u % q;
    var r := w * p + a % p;
    Regroup(a, p, q, u, v, w, a % p);
    var d := p * q;
    QuotientUnique(d, a / d, a % d, v, r);
  }

  lemma Regroup(a: nat, p: nat, q: nat, u: nat, v: nat, w: nat, t: nat)
    requires t < p && w < q && a == p * u + t && u == q * v + w
    ensures a == v * (p * q) + (w * p + t)
    ensures 0 <= w * p + t < p * q
  {
    assert p * (q * v + w) == v * (p * q) + w * p;
    assert (q - 1 - w) * p >= 0;
    assert w * p <= q * p - p;
  }

  lemma {:induction false} TestBitZero(k: nat)
    ensures !TestBit(0, k)
  {
    if k > 0 { TestBitZero(k - 1); }
  }

  lemma {:induction false} BitOrBits(a: nat, b: nat, k: nat)
    ensures TestBit(BitOr(a, b), k) <==> TestBit(a, k) || TestBit(b, k)
  {
    TestBitZero(k);
    if a != 0 && b != 0 && k > 0 {
      BitOrBits(a / 2, b / 2, k - 1);
    }
  }

  /** Or-ing in a single bit adds its weight, unless the bit is set already. */
  lemma {:induction false} BitOrPow2(a: nat, k: nat)
    ensures BitOr(a, Pow2(k)) == a + if TestBit(a, k) then 0 else Pow2(k)
  {
    TestBitZero(k);
    if a != 0 {
      if k == 0 {
        assert BitOr(a / 2, 0) == a / 2;
      } else {
        assert Pow2(k) / 2 == Pow2(k - 1);
        BitOrPow2(a / 2, k - 1);
      }
    }
  }

  lemma {:induction false} BitOrBound(a: nat, b: nat, n: nat)
    requires a < Pow2(n) && b < Pow2(n)
    ensures BitOr(a, b) < Pow2(n)
  {
    if a != 0 && b != 0 && n > 0 {
      BitOrBound(a / 2, b / 2, n - 1);
    }
  }

  /** Below the split, the digits of low + 2^m * high are those of the low part. */
  lemma {:induction false} LowBits(low: nat, high: nat, m: nat, k: nat)
    requires k < m
    ensures TestBit(low + Pow2(m) * high, k) == TestBit(low, k)
  {
    DoublePow(m, high);
    HalfOf(low, Pow2(m - 1) * high);
    if k > 0 {
      LowBits(low / 2, high, m - 1, k - 1);
    }
  }

  /** From the split on, they are those of the high part. */
  lemma {:induction false} HighBits(low: nat, high: nat, m: nat, k: nat)
    requires low < Pow2(m) && m <= k
    ensures TestBit(low + Pow2(m) * high, k) == TestBit(high, k - m)
  {
    if m > 0 {
      DoublePow(m, high);
      HalfOf(low, Pow2(m - 1) * high);
      HighBits(low / 2, high, m - 1, k - 1);
    }
  }

  // ---------- Exclusive or ----------

  /** Bitwise exclusive or, digit by digit. */
  function BitXor(a: nat, b: nat): nat
    decreases a + b
  {
    if a == 0 && b == 0 then 0 else (a % 2 + b % 2) % 2 + 2 * BitXor(a / 2, b / 2)
  }

  lemma HalfOf(x: nat, t: nat)
    ensures (x + 2 * t) / 2 == x / 2 + t
    ensures (x + 2 * t) % 2 == x % 2
  {
  }

  lemma DoublePow(m: nat, h: nat)
    requires m > 0
    ensures Pow2(m) * h == 2 * (Pow2(m - 1) * h)
  {
  }

  lemma BitXorUnfold(a: nat, b: nat)
    ensures BitXor(a, b) % 2 == (a % 2 + b % 2) % 2
    ensures BitXor(a, b) / 2 == BitXor(a / 2, b / 2)
  {
    HalfOf((a % 2 + b % 2) % 2, BitXor(a / 2, b / 2));
  }

  lemma BitXorIs(a: nat, b: nat, r: nat)
    requires r % 2 == (a % 2 + b % 2) % 2 && r / 2 == BitXor(a / 2, b / 2)
    ensures r == BitXor(a, b)
  {
  }

  lemma {:induction false} BitXorZero(a: nat)
    ensures BitXor(a, 0) == a && BitXor(0, a) == a
  {
    if a != 0 {
      BitXorZero(a / 2);
    }
  }

  lemma {:induction false} BitXorBits(a: nat, b: nat, k: nat)
    ensures TestBit(BitXor(a, b), k) <==> TestBit(a, k) != TestBit(b, k)
  {
    BitXorUnfold(a, b);
    if k > 0 {
      BitXorBits(a / 2, b / 2, k - 1);
    }
  }

  lemma {:induction false} BitXorComm(a: nat, b: nat)
    ensures BitXor(a, b) == BitXor(b, a)
    decreases a + b
  {
    if a != 0 || b != 0 {
      BitXorComm(a / 2, b / 2);
    }
  }

  lemma ParityAssoc(p: nat, q: nat, r: nat)
    ensures ((p % 2 + q % 2) % 2 + r % 2) % 2 == (p % 2 + (q % 2 + r % 2) % 2) % 2
  {
    if p % 2 == 0 {
    } else if q % 2 == 0 {
    }
  }

  lemma {:induction false} BitXorAssoc(a: nat, b: nat, c: nat)
    ensures BitXor(BitXor(a, b), c) == BitXor(a, BitXor(b, c))
    decreases a + b + c
  {
    hide BitXor;
    var ab, bc := BitXor(a, b), BitXor(b, c);
    var l := BitXor(ab, c);
    if a == 0 {
      BitXorZero(b);
      BitXorZero(bc);
    } else {
      BitXorAssoc(a / 2, b / 2, c / 2);
      BitXorUnfold(a, b);
      BitXorUnfold(b, c);
      BitXorUnfold(ab, c);
      ParityAssoc(a, b, c);
      BitXorIs(a, bc, l);
    }
  }

  lemma {:induction false} BitXorZeroIff(a: nat, b: nat)
    ensures BitXor(a, b) == 0 <==> a == b
    decreases a + b
  {
    BitXorUnfold(a, b);
    if a != 0 || b != 0 {
      BitXorZeroIff(a / 2, b / 2);
    }
  }

  lemma BitXorTwice(a: nat, b: nat)
    ensures BitXor(BitXor(a, b), b) == a
  {
    BitXorAssoc(a, b, b);
    BitXorZeroIff(b, b);
    BitXorZero(a);
  }

  lemma {:induction false} BitXorBound(a: nat, b: nat, n: nat)
    requires a < Pow2(n) && b < Pow2(n)
    ensures BitXor(a, b) < Pow2(n)
  {
    if n > 0 {
      BitXorBound(a / 2, b / 2, n - 1);
    }
  }

  /** `h` moved up by `m` binary places. */
  function Shifted(h: nat, m: nat): nat {
    if m == 0 then h else 2 * Shifted(h, m - 1)
  }

  lemma {:induction false} ShiftedIs(h: nat, m: nat)
    ensures Shifted(h, m) == Pow2(m) * h
  {
    if m > 0 {
      ShiftedIs(h, m - 1);
      DoublePow(m, h);
    }
  }

  lemma {:induction false} BitXorShifted(x: nat, h: nat, y: nat, k: nat, m: nat)
    requires x < Pow2(m) && y < Pow2(m)
    ensures BitXor(x + Shifted(h, m), y + Shifted(k, m)) == BitXor(x, y) + Shifted(BitXor(h, k), m)
  {
    if m == 0 {
    } else {
      hide BitXor;
      BitXorShifted(x / 2, h, y / 2, k, m - 1);
      BitXorDouble(x, Shifted(h, m - 1), y, Shifted(k, m - 1), Shifted(BitXor(h, k), m - 1));
    }
  }

  /** Exclusive or acts on the low and the high part of a number separately. */
  lemma BitXorSplit(x: nat, h: nat, y: nat, k: nat, m: nat)
    requires x < Pow2(m) && y < Pow2(m)
    ensures BitXor(x + Pow2(m) * h, y + Pow2(m) * k) == BitXor(x, y) + Pow2(m) * BitXor(h, k)
  {
    ShiftedIs(h, m);
    ShiftedIs(k, m);
    ShiftedIs(BitXor(h, k), m);
    BitXorShifted(x, h, y, k, m);
  }

  lemma BitXorDouble(x: nat, s: nat, y: nat, t: nat, u: nat)
    requires BitXor(x / 2 + s, y / 2 + t) == BitXor(x / 2, y / 2) + u
    ensures BitXor(x + 2 * s, y + 2 * t) == BitXor(x, y) + 2 * u
  {
    HalfOf(x, s);
    HalfOf(y, t);
    HalfOf(BitXor(x, y), u);
    BitXorUnfold(x, y);
    BitXorIs(x + 2 * s, y + 2 * t, BitXor(x, y) + 2 * u);
  }

  lemma {:induction false} BitOrZeroIff(a: nat, b: nat)
    ensures BitOr(a, b) == 0 <==> a == 0 && b == 0
  {
    if a != 0 && b != 0 && BitOr(a, b) == 0 {
      BitOrZeroIff(a / 2, b / 2);
    }
  }
}
