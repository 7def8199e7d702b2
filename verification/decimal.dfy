/** Decimal text of unsigned 64-bit integers: Rust's `Display` for `u64`
    and `str::parse::<u64>`, which every Steam id string goes through. */
module Decimal {
  import opened Wrappers
  import opened Bits

  /** `SteamId::MAX_DIGITS_FOR_U64`. */
  const MAX_DIGITS_FOR_U64: nat := 20

  predicate IsDigit(c: char) { '0' <= c <= '9' }

  predicate AllDigits(s: string) {
    forall i :: 0 <= i < |s| ==> IsDigit(s[i])
  }

  function DigitValue(c: char): (d: nat)
    requires IsDigit(c)
    ensures d < 10
  {
    (c as int) - ('0' as int)
  }

  function DigitChar(d: nat): (c: char)
    requires d < 10
    ensures IsDigit(c) && DigitValue(c) == d
  {
    ('0' as int + d) as char
  }

  /** The number a string of digits denotes, most significant digit first. */
  function Value(s: string): nat
    requires AllDigits(s)
  {
    if s == [] then 0 else Value(s[..|s| - 1]) * 10 + DigitValue(s[|s| - 1])
  }

  /** The form `Display` prints: digits only, no leading zero except "0". */
  predicate Canonical(s: string) {
    |s| >= 1 && AllDigits(s) && (s[0] == '0' ==> |s| == 1)
  }

  /** `Display` for an unsigned integer. */
  function NatToString(n: nat): (s: string)
    ensures Canonical(s)
  {
    if n < 10 then [DigitChar(n)] else NatToString(n / 10) + [DigitChar(n % 10)]
  }

  /** `std::num::ParseIntError`; which kind of failure it was is not kept. */
  datatype ParseIntError = ParseIntError

  /** `str::parse::<u64>`: an optional leading `+` (but not `+` alone),
      then one or more ASCII digits whose value fits in 64 bits. */
  function ParseU64(s: string): (r: Option<u64>)
    ensures s == [] ==> r.None?
    ensures s == "+" ==> r.None?
  {
    var digits := if |s| > 0 && s[0] == '+' then s[1..] else s;
    if digits == [] || !AllDigits(digits) then None
    else
      var v := Value(digits);
      if v < U64_LIMIT then Some(v) else None
  }

  /** `Display` of a number with two or more digits is `Display` of all
      but its last digit, then that digit. */
  lemma NatToStringSnoc(n: nat, prefix: string)
    requires n >= 10 && NatToString(n / 10) == prefix
    ensures NatToString(n) == prefix + [DigitChar(n % 10)]
  {
  }

  lemma ValueSnoc(p: string, c: char)
    requires AllDigits(p) && IsDigit(c)
    ensures AllDigits(p + [c]) && Value(p + [c]) == Value(p) * 10 + DigitValue(c)
  {
    assert (p + [c])[..|p|] == p;
  }

  /** Reading back what `Display` prints gives the number. */
  lemma {:induction false} ValueOfNatToString(n: nat)
    ensures Value(NatToString(n)) == n
  {
    if n >= 10 {
      ValueOfNatToString(n / 10);
      ValueSnoc(NatToString(n / 10), DigitChar(n % 10));
    }
  }

  lemma {:induction false} LeadingDigitPositive(s: string)
    requires |s| >= 1 && AllDigits(s) && s[0] != '0'
    ensures Value(s) >= 1
  {
    if |s| > 1 {
      LeadingDigitPositive(s[..|s| - 1]);
    }
  }

  /** Printing the value of a canonical string gives the string back, so
      `Display` is a bijection between numbers and canonical strings. */
  lemma {:induction false} NatToStringOfValue(s: string)
    requires Canonical(s)
    ensures NatToString(Value(s)) == s
  {
    var c := s[|s| - 1];
    if |s| == 1 {
      assert Value(s) == Value([]) * 10 + DigitValue(c);
      assert DigitChar(DigitValue(c)) == c;
    } else {
      var p := s[..|s| - 1];
      assert s == p + [c];
      LeadingDigitPositive(p);
      NatToStringOfValue(p);
      assert DigitChar(DigitValue(c)) == c;
    }
  }

  /** `parse(display(n)) == n` for every `u64`. */
  lemma ParseDisplay(n: nat)
    requires n < U64_LIMIT
    ensures ParseU64(NatToString(n)) == Some(n)
  {
    ValueOfNatToString(n);
  }

  /** Exactly which strings parse: the characterisation behind every
      "fails on empty input, non-digit input or overflow" rule. */
  lemma ParseU64Accepts(s: string)
    ensures ParseU64(s).Some? <==>
      (var digits := if |s| > 0 && s[0] == '+' then s[1..] else s;
       digits != [] && AllDigits(digits) && Value(digits) < U64_LIMIT)
  {
  }

  /** A '-' sign is never accepted. */
  lemma ParseRejectsMinus(s: string)
    requires |s| > 0 && s[0] == '-'
    ensures ParseU64(s).None?
  {
    assert !IsDigit(s[0]);
  }

  function Pow10(k: nat): (p: nat)
    ensures p >= 1
  {
    if k == 0 then 1 else 10 * Pow10(k - 1)
  }

  /** Numbers below 10^k print with at most k digits. */
  lemma {:induction false} LengthBound(n: nat, k: nat)
    requires 1 <= k && n < Pow10(k)
    ensures |NatToString(n)| <= k
  {
    if n >= 10 {
      LengthBound(n / 10, k - 1);
    }
  }

  /** `MAX_DIGITS_FOR_U64`: every `u64` prints with at most 20 digits. */
  lemma U64Length(n: nat)
    requires n < U64_LIMIT
    ensures |NatToString(n)| <= MAX_DIGITS_FOR_U64
  {
    assert Pow10(20) == 100_000_000_000_000_000_000 by {
      assert Pow10(5) == 100_000;
      assert Pow10(10) == 10_000_000_000;
      assert Pow10(15) == 1_000_000_000_000_000;
    }
    LengthBound(n, 20);
  }
}
