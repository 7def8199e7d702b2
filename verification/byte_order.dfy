/** `u64::swap_bytes`, and `u64::to_be` on the little-endian hosts the
    friend-code decoder is read for, where it is the same byte swap. */
module ByteOrder {
  import opened Bits
  import opened Positional

  /** The eight bytes of a `u64`, least significant first. */
  function Bytes(n: nat): (bs: seq<nat>)
    ensures |bs| == 8 && AllBelow(bs, 256)
  {
    LowDigits(256, n, 8)
  }

  lemma PowBytes()
    ensures Pow(256, 8) == U64_LIMIT
  {
    PowPow2(8, 8);
    Pow2Small();
    Pow2Large();
  }

  lemma ReverseBelow(bs: seq<nat>, b: nat)
    requires AllBelow(bs, b)
    ensures AllBelow(Reverse(bs), b)
  {
    assert forall i :: 0 <= i < |bs| ==> Reverse(bs)[i] == bs[|bs| - 1 - i];
  }

  /** `swap_bytes`: the same eight bytes in the opposite order. */
  function SwapBytes(n: u64): (s: u64)
    ensures Bytes(s) == Reverse(Bytes(n))
  {
    var rev := Reverse(Bytes(n));
    ReverseBelow(Bytes(n), 256);
    FromDigitsBound(256, rev);
    PowBytes();
    LowDigitsOfFromDigits(256, rev);
    FromDigits(256, rev)
  }

  /** A `u64` is its eight bytes. */
  lemma BytesDetermine(n: u64)
    ensures FromDigits(256, Bytes(n)) == n
  {
    assert FromDigits(256, Bytes(n)) == n % Pow(256, 8) by {
      FromLowDigits(256, n, 8);
    }
    PowBytes();
    DivModUnique(n, U64_LIMIT, 0, n);
  }

  /** Swapping twice gives the number back. */
  lemma SwapSwap(n: u64)
    ensures SwapBytes(SwapBytes(n)) == n
  {
    var s := SwapBytes(SwapBytes(n));
    ReverseReverse(Bytes(n));
    BytesDetermine(s);
    BytesDetermine(n);
  }
}
