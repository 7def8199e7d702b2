/** Numbers as sequences of digits in a base: the least significant digit
    first (the order a chunk iterator yields them in), and the most
    significant first (the order a shift-and-or accumulator consumes them
    in). The chunk iterators, `swap_bytes` and the friend-code accumulators
    are all read through these definitions. */
module Positional {
  import opened Bits

  function Pow(b: nat, k: nat): (p: nat)
    ensures b >= 1 ==> p >= 1
  {
    if k == 0 then 1 else b * Pow(b, k - 1)
  }

  predicate AllBelow(ds: seq<nat>, b: nat) {
    forall i :: 0 <= i < |ds| ==> ds[i] < b
  }

  /** The value of a digit sequence, least significant digit first. */
  function FromDigits(b: nat, ds: seq<nat>): nat {
    if ds == [] then 0 else ds[0] + b * FromDigits(b, ds[1..])
  }

  /** The low `m` digits of `x`, least significant first, zero-padded. */
  function LowDigits(b: nat, x: nat, m: nat): (ds: seq<nat>)
    requires b >= 1
    ensures |ds| == m && AllBelow(ds, b)
  {
    if m == 0 then [] else [x % b] + LowDigits(b, x / b, m - 1)
  }

  /** A shift-and-or accumulator: starting from `acc`, each digit in turn
      is appended below the digits so far (`acc = acc * b + d`). */
  function Fold(b: nat, acc: nat, ds: seq<nat>): nat
    decreases |ds|
  {
    if ds == [] then acc else Fold(b, acc * b + ds[0], ds[1..])
  }

  lemma FoldCons(b: nat, acc: nat, d: nat, ds: seq<nat>)
    ensures Fold(b, acc, [d] + ds) == Fold(b, acc * b + d, ds)
  {
    assert ([d] + ds)[1..] == ds;
  }

  function Reverse<T>(s: seq<T>): (r: seq<T>)
    ensures |r| == |s|
    ensures forall i :: 0 <= i < |s| ==> r[i] == s[|s| - 1 - i]
  {
    if s == [] then [] else Reverse(s[1..]) + [s[0]]
  }

  /** A sequence is the reverse of another when it reads it backwards. */
  lemma ReverseOf<T>(a: seq<T>, b: seq<T>)
    requires |a| == |b| && forall i :: 0 <= i < |a| ==> b[i] == a[|a| - 1 - i]
    ensures Reverse(a) == b
  {
  }

  lemma ReverseReverse<T>(s: seq<T>)
    ensures Reverse(Reverse(s)) == s
  {
  }

  /** Reading the low `m` digits back gives `x` modulo `b^m`. */
  lemma {:induction false} FromLowDigits(b: nat, x: nat, m: nat)
    requires b >= 1
    ensures FromDigits(b, LowDigits(b, x, m)) == x % Pow(b, m)
  {
    if m > 0 {
      FromLowDigits(b, x / b, m - 1);
      assert LowDigits(b, x, m)[1..] == LowDigits(b, x / b, m - 1);
      ModMul(x, b, Pow(b, m - 1));
    }
  }

  /** Digits below the base make a number below `b^n`. */
  lemma {:induction false} FromDigitsBound(b: nat, ds: seq<nat>)
    requires b >= 1 && AllBelow(ds, b)
    ensures FromDigits(b, ds) < Pow(b, |ds|)
  {
    if ds != [] {
      FromDigitsBound(b, ds[1..]);
      DigitBound(ds[0], FromDigits(b, ds[1..]), b, Pow(b, |ds| - 1));
    }
  }

  /** Digits below the base are recovered from their value: the digit
      sequence and the number determine each other. */
  lemma {:induction false} LowDigitsOfFromDigits(b: nat, ds: seq<nat>)
    requires b >= 1 && AllBelow(ds, b)
    ensures LowDigits(b, FromDigits(b, ds), |ds|) == ds
  {
    if ds != [] {
      var x := FromDigits(b, ds);
      DivModUnique(x, b, FromDigits(b, ds[1..]), ds[0]);
      LowDigitsOfFromDigits(b, ds[1..]);
    }
  }

  /** Digit `k` is `(x / b^k) % b`. */
  lemma {:induction false} LowDigitsNth(b: nat, x: nat, m: nat, k: nat)
    requires b >= 1 && k < m
    ensures LowDigits(b, x, m)[k] == (x / Pow(b, k)) % b
    decreases k
  {
    if k > 0 {
      var y := x / b;
      var rest := LowDigits(b, y, m - 1);
      assert LowDigits(b, x, m) == [x % b] + rest;
      assert LowDigits(b, x, m)[k] == rest[k - 1];
      LowDigitsNth(b, y, m - 1, k - 1);
      var q := y / Pow(b, k - 1);
      assert rest[k - 1] == q % b;
      DivPow(x, b, k);
      assert q == x / Pow(b, k);
    } else {
      assert Pow(b, 0) == 1 && x / 1 == x;
    }
  }

  lemma {:induction false} FromDigitsSnoc(b: nat, ds: seq<nat>, d: nat)
    ensures FromDigits(b, ds + [d]) == FromDigits(b, ds) + d * Pow(b, |ds|)
  {
    if ds != [] {
      assert (ds + [d])[1..] == ds[1..] + [d];
      FromDigitsSnoc(b, ds[1..], d);
      Distribute(b, FromDigits(b, ds[1..]), d, Pow(b, |ds| - 1));
    }
  }

  /** The accumulator reads its digits most significant first: its value
      is the reversed sequence read least significant first, on top of
      what it started with. */
  lemma {:induction false} FoldIsReverse(b: nat, acc: nat, ds: seq<nat>)
    ensures Fold(b, acc, ds) == acc * Pow(b, |ds|) + FromDigits(b, Reverse(ds))
    decreases |ds|
  {
    if ds != [] {
      FoldIsReverse(b, acc * b + ds[0], ds[1..]);
      FromDigitsSnoc(b, Reverse(ds[1..]), ds[0]);
      FoldDistribute(acc, b, ds[0], Pow(b, |ds| - 1));
    }
  }

  lemma Distribute(b: nat, f: nat, d: nat, p: nat)
    ensures b * (f + d * p) == b * f + d * (b * p)
  {
  }

  lemma FoldDistribute(acc: nat, b: nat, d: nat, p: nat)
    ensures (acc * b + d) * p == acc * (b * p) + d * p
  {
  }

  lemma DivPow(x: nat, b: nat, k: nat)
    requires b >= 1 && k >= 1
    ensures (x / b) / Pow(b, k - 1) == x / Pow(b, k)
  {
    ModMul(x, b, Pow(b, k - 1));
  }

  /** A power of a power of two. */
  lemma {:induction false} PowPow2(n: nat, k: nat)
    ensures Pow(Pow2(n), k) == Pow2(n * k)
  {
    if k > 0 {
      PowPow2(n, k - 1);
      Pow2Add(n, n * (k - 1));
      assert n + n * (k - 1) == n * k;
    }
  }

  /** A number divisible by `b^m` has zero as its low `m` digits. */
  lemma {:induction false} LowDigitsOfMultiple(b: nat, x: nat, m: nat, n: nat)
    requires b >= 1 && m <= n && x % Pow(b, m) == 0
    ensures forall p :: 0 <= p < m ==> LowDigits(b, x, n)[p] == 0
  {
    if m > 0 {
      ModMul(x, b, Pow(b, m - 1));
      LowDigitsOfMultiple(b, x / b, m - 1, n - 1);
      assert LowDigits(b, x, n) == [x % b] + LowDigits(b, x / b, n - 1);
    }
  }

  /** Digit `k` of a number below `b^k` is zero. */
  lemma HighDigitZero(b: nat, x: nat, m: nat, k: nat)
    requires b >= 1 && k < m && x < Pow(b, k)
    ensures LowDigits(b, x, m)[k] == 0
  {
    assert x / Pow(b, k) == 0 by {
      DivModUnique(x, Pow(b, k), 0, x);
    }
    assert 0 % b == 0 by {
      DivModUnique(0, b, 0, 0);
    }
    LowDigitsNth(b, x, m, k);
  }

  /** The digits of `xs[0]`, given the chain of its successive quotients
      `xs` and their remainders `ds`. */
  lemma {:induction false} LowDigitsByValues(b: nat, xs: seq<nat>, ds: seq<nat>)
    requires b >= 1 && |xs| == |ds| + 1
    requires forall i :: 0 <= i < |ds| ==> xs[i] % b == ds[i] && xs[i] / b == xs[i + 1]
    ensures LowDigits(b, xs[0], |ds|) == ds
    decreases |ds|
  {
    if ds != [] {
      LowDigitsByValues(b, xs[1..], ds[1..]);
      assert LowDigits(b, xs[0], |ds|) == [ds[0]] + LowDigits(b, xs[1], |ds| - 1);
    }
  }

  /** The low `m` digits of `x` are those of `x` modulo `b^m`. */
  lemma LowDigitsOfMod(b: nat, x: nat, m: nat)
    requires b >= 1
    ensures LowDigits(b, x, m) == LowDigits(b, x % Pow(b, m), m)
  {
    FromLowDigits(b, x, m);
    LowDigitsOfFromDigits(b, LowDigits(b, x, m));
  }

  /** Two numbers below `b^m` with the same low `m` digits are equal. */
  lemma SameLowDigits(b: nat, x: nat, y: nat, m: nat)
    requires b >= 1 && x < Pow(b, m) && y < Pow(b, m)
    requires LowDigits(b, x, m) == LowDigits(b, y, m)
    ensures x == y
  {
    FromLowDigits(b, x, m);
    FromLowDigits(b, y, m);
    DivModUnique(x, Pow(b, m), 0, x);
    DivModUnique(y, Pow(b, m), 0, y);
  }
}
