/** Unsigned machine integers as bounded naturals, with the bitwise
    operators the crate uses defined bit by bit, and the facts that turn
    them into arithmetic. */
module Bits {

  const U8_LIMIT: nat := 0x100
  const U32_LIMIT: nat := 0x1_0000_0000
  const U64_LIMIT: nat := 0x1_0000_0000_0000_0000

  type u8 = x: nat | x < U8_LIMIT
  type u32 = x: nat | x < U32_LIMIT
  type u64 = x: nat | x < U64_LIMIT

  /** `i64::MAX` and `i32::MAX`; the signed types run from `-(MAX + 1)`. */
  const I64_MAX: int := 0x7FFF_FFFF_FFFF_FFFF
  const I32_MAX: int := 0x7FFF_FFFF

  type i64 = x: int | -I64_MAX - 1 <= x <= I64_MAX
  type i32 = x: int | -I32_MAX - 1 <= x <= I32_MAX

  function Pow2(n: nat): (p: nat)
    ensures p >= 1
  {
    if n == 0 then 1 else 2 * Pow2(n - 1)
  }

  /** Bitwise `&`. */
  function And(x: nat, y: nat): nat
    decreases x
  {
    if x == 0 || y == 0 then 0
    else 2 * And(x / 2, y / 2) + (if x % 2 == 1 && y % 2 == 1 then 1 else 0)
  }

  /** Bitwise `|`. */
  function Or(x: nat, y: nat): nat
    decreases x + y
  {
    if x == 0 then y
    else if y == 0 then x
    else 2 * Or(x / 2, y / 2) + (if x % 2 == 1 || y % 2 == 1 then 1 else 0)
  }

  /** `x >> n` on an unsigned integer. */
  function Shr(x: nat, n: nat): nat {
    var p := Pow2(n);
    DivModBounds(x, p);
    x / p
  }

  /** `x << n` on a `u64`: bits shifted past bit 63 are lost. */
  function Shl64(x: nat, n: nat): u64 {
    (x * Pow2(n)) % U64_LIMIT
  }

  /** `x << n` on a `u32`. */
  function Shl32(x: nat, n: nat): u32 {
    (x * Pow2(n)) % U32_LIMIT
  }

  /** `x as u32`: the low 32 bits. */
  function AsU32(x: nat): u32 {
    x % U32_LIMIT
  }

  /** The mask of the low `n` bits, `(1 << n) - 1`. */
  function LowMask(n: nat): nat {
    Pow2(n) - 1
  }

  lemma ModDouble(x: nat, p: nat)
    requires p >= 1
    ensures x % (2 * p) == 2 * ((x / 2) % p) + x % 2
    ensures x / (2 * p) == (x / 2) / p
  {
    var q := x / 2;
    var r := x % 2;
    var s := q / p;
    var t := q % p;
    assert x == 2 * p * s + (2 * t + r);
    assert 0 <= 2 * t + r < 2 * p;
    DivModUnique(x, 2 * p, s, 2 * t + r);
  }

  lemma MulMonotone(m: nat, a: nat, b: nat)
    requires a <= b
    ensures m * a <= m * b
  {
  }

  /** Quotient and remainder never exceed the dividend. */
  lemma DivModBounds(x: nat, m: nat)
    requires m >= 1
    ensures 0 <= x / m <= x && x % m <= x && x % m < m
  {
    MulMonotone(x / m, 1, m);
  }

  /** Dividing a positive number by at least two makes it smaller. */
  lemma DivShrinks(x: nat, b: nat)
    requires x >= 1 && b >= 2
    ensures x / b < x
  {
    var q := x / b;
    assert b * q <= x;
    MulMonotone(q, 2, b);
  }

  /** `x % (a * b)` and `x / (a * b)` taken in two steps. */
  lemma ModMul(x: nat, a: nat, b: nat)
    requires a >= 1 && b >= 1
    ensures x % (a * b) == x % a + a * ((x / a) % b)
    ensures x / (a * b) == (x / a) / b
  {
    var m := a * b;
    assert m >= 1 by {
      MulMonotone(a, 1, b);
    }
    var y := x / a;
    var q := y / b;
    var t := y % b;
    DivModBounds(x, a);
    DivModBounds(y, b);
    assert x == a * y + x % a;
    assert y == b * q + t;
    assert a * y == m * q + a * t;
    assert x % a + a * t < m by {
      DigitBound(x % a, t, a, b);
    }
    DivModUnique(x, m, q, x % a + a * t);
  }

  /** Quotient and remainder are determined by `x == m * q + r, r < m`. */
  lemma DivModUnique(x: nat, m: nat, q: nat, r: nat)
    requires m >= 1 && r < m && x == m * q + r
    ensures x / m == q && x % m == r
  {
    var q1 := x / m;
    var r1 := x % m;
    if q1 < q {
      MulMonotone(m, q1 + 1, q);
      assert false;
    } else if q < q1 {
      MulMonotone(m, q + 1, q1);
      assert false;
    }
  }

  lemma {:induction false} Pow2Add(a: nat, b: nat)
    ensures Pow2(a + b) == Pow2(a) * Pow2(b)
  {
    if b > 0 {
      Pow2Add(a, b - 1);
    }
  }

  lemma {:induction false} Pow2Monotone(a: nat, b: nat)
    requires a <= b
    ensures Pow2(a) <= Pow2(b)
  {
    if a < b {
      Pow2Monotone(a, b - 1);
    }
  }

  /** `x >> n` is `(x >> 1) >> (n - 1)`. */
  lemma ShrHalf(x: nat, n: nat)
    requires n > 0
    ensures Shr(x, n) == Shr(x / 2, n - 1)
  {
    ModDouble(x, Pow2(n - 1));
  }

  /** `x >> a >> b == x >> (a + b)`. */
  lemma {:induction false} ShrShr(x: nat, a: nat, b: nat)
    ensures Shr(Shr(x, a), b) == Shr(x, a + b)
  {
    if a > 0 {
      ShrHalf(x, a);
      ShrHalf(x, a + b);
      ShrShr(x / 2, a - 1, b);
    }
  }

  lemma Pow2Small()
    ensures Pow2(1) == 2 && Pow2(4) == 16 && Pow2(5) == 32 && Pow2(6) == 64 && Pow2(8) == 256
  {
  }

  lemma Pow2Large()
    ensures Pow2(20) == 0x10_0000 && Pow2(28) == 0x1000_0000
    ensures Pow2(31) == 0x8000_0000 && Pow2(32) == U32_LIMIT
    ensures Pow2(64) == U64_LIMIT
  {
    assert Pow2(8) == 256;
    assert Pow2(16) == 0x1_0000;
    assert Pow2(12) == 0x1000;
    Pow2Add(16, 12);
    Pow2Add(16, 16);
    Pow2Add(32, 32);
  }

  /** `x & ((1 << n) - 1)` keeps the low `n` bits. */
  lemma {:induction false} AndLowMask(x: nat, n: nat)
    ensures And(x, LowMask(n)) == x % Pow2(n)
  {
    if n > 0 && x != 0 {
      AndLowMask(x / 2, n - 1);
      ModDouble(x, Pow2(n - 1));
      assert LowMask(n) / 2 == LowMask(n - 1) && LowMask(n) % 2 == 1;
    }
  }

  /** `|` of values whose set bits do not overlap is `+`. */
  lemma {:induction false} OrDisjoint(x: nat, y: nat, n: nat)
    requires x % Pow2(n) == 0 && y < Pow2(n)
    ensures Or(x, y) == x + y
  {
    if n > 0 && x != 0 && y != 0 {
      ModDouble(x, Pow2(n - 1));
      OrDisjoint(x / 2, y / 2, n - 1);
    }
  }

  /** On a `u64` that does not overflow, `(x << n) | y` with `y` below bit
      `n` is `x * 2^n + y`. */
  lemma Shl64Or(x: nat, y: nat, n: nat, p: nat)
    requires p == Pow2(n) && y < p && x * p < U64_LIMIT
    ensures Or(Shl64(x, n), y) == x * p + y
  {
    DivModUnique(x * p, U64_LIMIT, 0, x * p);
    ShiftOr(x, y, n);
  }

  /** `x << n` on a `u64` keeps the low `64 - n` bits of `x`. */
  lemma Shl64Mod(x: nat, n: nat)
    requires n <= 64
    ensures Shl64(x, n) == Pow2(n) * (x % Pow2(64 - n))
  {
    var p := Pow2(n);
    var q := Pow2(64 - n);
    Pow2Add(n, 64 - n);
    Pow2Large();
    MixedMod(0, x, p, q);
    assert x * p == p * x;
  }

  /** Or-ing `d << n` onto a value below bit `n` adds the two, with what
      passes bit 63 lost. */
  lemma OrShl64(a: nat, d: nat, n: nat)
    requires n <= 64 && a < Pow2(n)
    ensures a < U64_LIMIT
    ensures Or(a, Shl64(d, n)) == (a + Pow2(n) * d) % U64_LIMIT
  {
    var p := Pow2(n);
    var q := Pow2(64 - n);
    var e := d % q;
    Pow2Add(n, 64 - n);
    Pow2Large();
    Shl64Mod(d, n);
    OrComm(a, p * e);
    ShiftOr(e, a, n);
    Pow2Monotone(n, 64);
    assert e * p == p * e;
    MixedMod(a, d, p, q);
  }

  /** `(x << n) | y` with `y` below bit `n` is `x * 2^n + y`. */
  lemma ShiftOr(x: nat, y: nat, n: nat)
    requires y < Pow2(n)
    ensures Or(x * Pow2(n), y) == x * Pow2(n) + y
  {
    DivModUnique(x * Pow2(n), Pow2(n), x, 0);
    OrDisjoint(x * Pow2(n), y, n);
  }

  /** `|` of two `n`-bit values is an `n`-bit value. */
  lemma {:induction false} OrBound(x: nat, y: nat, n: nat)
    requires x < Pow2(n) && y < Pow2(n)
    ensures Or(x, y) < Pow2(n)
  {
    if n > 0 && x != 0 && y != 0 {
      OrBound(x / 2, y / 2, n - 1);
    }
  }

  /** `|` on two `u32`s. */
  function Or32(x: u32, y: u32): (r: u32)
    ensures r == Or(x, y)
  {
    Pow2Large();
    OrBound(x, y, 32);
    Or(x, y)
  }

  /** `|` on two `u64`s. */
  function Or64(x: u64, y: u64): (r: u64)
    ensures r == Or(x, y)
  {
    Pow2Large();
    OrBound(x, y, 64);
    Or(x, y)
  }

  /** `x & y` is no greater than `x`. */
  lemma {:induction false} AndAtMost(x: nat, y: nat)
    ensures And(x, y) <= x
  {
    if x != 0 && y != 0 {
      AndAtMost(x / 2, y / 2);
    }
  }

  /** A shift that loses nothing is a multiplication. */
  lemma Shl64Exact(x: nat, n: nat, p: nat)
    requires p == Pow2(n) && x * p < U64_LIMIT
    ensures Shl64(x, n) == x * p
  {
    DivModUnique(x * p, U64_LIMIT, 0, x * p);
  }

  lemma ModAddMultiple(y: nat, m: nat, c: nat)
    requires m >= 1
    ensures (m * c + y) % m == y % m
  {
    assert m * c + y == m * (c + y / m) + y % m;
    DivModUnique(m * c + y, m, c + y / m, y % m);
  }

  /** Reducing a factor modulo `m` first does not change the product
      modulo `m`. */
  lemma MulModLeft(x: nat, p: nat, m: nat, prod: nat)
    requires m >= 1 && prod == x * p
    ensures ((x % m) * p) % m == prod % m
  {
    var q := x / m;
    var low := x % m;
    assert x == m * q + low;
    assert prod == m * (q * p) + low * p by {
      assert x * p == (m * q) * p + low * p;
    }
    ModAddMultiple(low * p, m, q * p);
  }

  /** `(x as u32) << n` on a `u32` is `(x << n) as u32`. */
  lemma Shl32OfLow(x: nat, n: nat, p: nat, shifted: nat)
    requires p == Pow2(n) && shifted == x * p
    ensures Shl32(AsU32(x), n) == AsU32(shifted)
  {
    MulModLeft(x, p, U32_LIMIT, shifted);
  }

  /** A digit below `b` plus `b` times a value below `p` is below `b * p`. */
  lemma DigitBound(d: nat, f: nat, b: nat, p: nat)
    requires d < b && f < p
    ensures d + b * f < b * p
  {
    MulMonotone(b, f, p - 1);
  }

  lemma DivBelow(r: nat, q: nat, m: nat)
    requires q >= 1 && r < q * m
    ensures r / q < m
  {
    var d := r / q;
    assert q * d <= r;
    MulMonotone(q, m, if d >= m then d else m);
  }


  /** Shifting `r` up by `k` bits across a pair of 32-bit words: the low
      word `(r << k) as u32 | d` and the carried high word
      `(r >> (32 - k)) as u32` together hold `r * 2^k + d`. */
  lemma ShiftAcrossWords(r: nat, d: nat, k: nat, p: nat, q: nat, shifted: nat)
    requires q >= 1 && p == Pow2(k) && p * q == U32_LIMIT
    requires d < p && r < q * U32_LIMIT && shifted == r * p
    ensures AsU32(r / q) == r / q
    ensures AsU32(shifted) + d < U32_LIMIT
    ensures Or(AsU32(shifted), d) == AsU32(shifted) + d
    ensures U32_LIMIT * (r / q) + AsU32(shifted) + d == shifted + d
  {
    var m := U32_LIMIT;
    var low := r % q;
    assert r / q < m by {
      DivBelow(r, q, m);
    }
    assert AsU32(r / q) == r / q by {
      DivModUnique(r / q, m, 0, r / q);
    }
    assert AsU32(shifted) == p * low && shifted == m * (r / q) + p * low by {
      SplitProduct(r, p, q, m, shifted);
    }
    assert Or(p * low, d) == p * low + d by {
      ShiftOr(low, d, k);
      assert low * p == p * low;
    }
    assert p * low + d < m by {
      DigitBound(d, low, p, q);
    }
  }

  /** `r * p` split at `p * q`: the low part is `p * (r % q)`, the high
      part `r / q`. */
  lemma SplitProduct(r: nat, p: nat, q: nat, m: nat, shifted: nat)
    requires p >= 1 && q >= 1 && m == p * q && shifted == r * p
    ensures shifted % m == p * (r % q)
    ensures shifted == m * (r / q) + p * (r % q)
  {
    MixedMod(0, r, p, q);
    assert r == q * (r / q) + r % q;
  }

  /** `|` is commutative. */
  lemma {:induction false} OrComm(x: nat, y: nat)
    ensures Or(x, y) == Or(y, x)
    decreases x + y
  {
    if x != 0 && y != 0 {
      OrComm(x / 2, y / 2);
    }
  }

  /** A low part below `p` and a high part taken modulo `q` combine into
      the value modulo `p * q`; this is what truncation to a word does to a
      shifted value. */
  lemma MixedMod(a: nat, d: nat, p: nat, q: nat)
    requires a < p && q >= 1
    ensures (a + p * d) % (p * q) == a + p * (d % q)
    ensures (a + p * d) / (p * q) == d / q
  {
    assert d == q * (d / q) + d % q;
    assert a + p * d == (p * q) * (d / q) + (a + p * (d % q));
    MulMonotone(p, d % q, q - 1);
    DivModUnique(a + p * d, p * q, d / q, a + p * (d % q));
  }
}
