/** `ChunksU4`, `ChunksU5` and `ChunksU6`: iterators that hand out a `u64`
    in fixed-width pieces, least significant piece first, and stop as soon
    as the remaining value is zero. */
module BitChunks {
  import opened Wrappers
  import opened Bits
  import opened Positional

  /** `div_ceil`. */
  function DivCeil(a: nat, b: nat): nat
    requires b > 0
  {
    (a + b - 1) / b
  }

  /** The three chunk widths the crate instantiates. */
  datatype Width = U4 | U5 | U6 {
    /** `CHUNK_BITS`. */
    function ChunkBits(): nat {
      match this
      case U4 => 4
      case U5 => 5
      case U6 => 6
    }

    /** `2^CHUNK_BITS`, the number of values one chunk can hold. */
    function Base(): (b: nat)
      ensures b == Pow2(ChunkBits())
    {
      Pow2Small();
      match this
      case U4 => 16
      case U5 => 32
      case U6 => 64
    }

    /** `CHUNK_MASK = (1 << CHUNK_BITS) - 1`. */
    function ChunkMask(): nat {
      LowMask(ChunkBits())
    }

    /** `MAX_CHUNKS = u64::BITS.div_ceil(CHUNK_BITS)`: the fewest chunks that
        cover all 64 bits. */
    function MaxChunks(): nat {
      DivCeil(64, ChunkBits())
    }
  }

  /** The number of significant bits, `u64::BITS - leading_zeros`. */
  function BitLen(x: nat): (n: nat)
    ensures n == 0 <==> x == 0
  {
    if x == 0 then 0 else 1 + BitLen(x / 2)
  }

  /** One step of `next` in arithmetic terms: the mask takes the remainder
      and the shift the quotient by `2^CHUNK_BITS`. */
  lemma NextStep(w: Width, x: u64)
    ensures And(x, w.ChunkMask()) == x % w.Base() < U8_LIMIT
    ensures Shr(x, w.ChunkBits()) == x / w.Base() <= x
  {
    AndLowMask(x, w.ChunkBits());
    match w
    case U4 =>
    case U5 =>
    case U6 =>
  }

  /** Every `u64` has at most 64 significant bits. */
  lemma U64BitLen(x: u64)
    ensures BitLen(x) <= 64
  {
    BitLenBound(x, 64);
    Pow2Large();
  }

  /** The iterator state: the width and the value not yet handed out. */
  datatype Chunks = Chunks(width: Width, residual: u64) {

    /** `next`: the low chunk of the residual, `residual & CHUNK_MASK`, or
        `None` once the residual is zero; either way the residual is then
        shifted down by `CHUNK_BITS`. */
    function Next(): (r: (Option<u8>, Chunks))
      ensures r.0.None? <==> residual == 0
      ensures r.0.Some? ==> r.0.value == And(residual, width.ChunkMask())
      ensures r.1 == Chunks(width, Shr(residual, width.ChunkBits()))
    {
      NextStep(width, residual);
      var out := if residual == 0 then None else Some(residual % width.Base());
      (out, Chunks(width, residual / width.Base()))
    }

    /** `size_hint`: the number of chunks the significant bits need. */
    function SizeHint(): nat {
      DivCeil(BitLen(residual), width.ChunkBits())
    }
  }

  /** The iterator after `k` calls of `next`. */
  function Advance(c: Chunks, k: nat): Chunks
    decreases k
  {
    if k == 0 then c else Advance(c.Next().1, k - 1)
  }

  /** What the call of `next` after `k` earlier calls returns. */
  function NthNext(c: Chunks, k: nat): Option<u8> {
    Advance(c, k).Next().0
  }

  /** Everything a `for` loop over the iterator sees: the chunks up to the
      first `None`. */
  function Yielded(c: Chunks): seq<u8>
    decreases c.residual
  {
    match c.Next()
    case (None, _) => []
    case (Some(chunk), rest) =>
      NextShrinks(c);
      [chunk] + Yielded(rest)
  }

  /** `next` on a non-zero residual leaves a smaller one. */
  lemma NextShrinks(c: Chunks)
    requires c.residual != 0
    ensures c.Next().1.residual < c.residual
  {
    var b := c.width.Base();
    assert b >= 2;
    NextStep(c.width, c.residual);
    DivShrinks(c.residual, b);
  }

  /** The value a chunk sequence stands for, least significant chunk first. */
  function Reassemble(w: Width, chunks: seq<nat>): nat {
    if chunks == [] then 0 else chunks[0] + w.Base() * Reassemble(w, chunks[1..])
  }

  /** After `k` calls the iterator holds `v >> (k * CHUNK_BITS)`. */
  lemma {:induction false} AdvanceShifts(w: Width, v: u64, k: nat)
    ensures Advance(Chunks(w, v), k) == Chunks(w, Shr(v, k * w.ChunkBits()))
  {
    if k > 0 {
      var v' := v / w.Base();
      AdvanceShifts(w, v', k - 1);
      ShrShr(v, w.ChunkBits(), (k - 1) * w.ChunkBits());
      assert w.ChunkBits() + (k - 1) * w.ChunkBits() == k * w.ChunkBits();
    }
  }

  /** The `k`-th call of `next().unwrap_or(0)` is
      `(v >> (k * CHUNK_BITS)) & CHUNK_MASK`, and from `MAX_CHUNKS` calls on
      `next` returns `None`. */
  lemma NthChunk(w: Width, v: u64, k: nat)
    ensures NthNext(Chunks(w, v), k).GetOr(0) == And(Shr(v, k * w.ChunkBits()), w.ChunkMask())
    ensures k >= w.MaxChunks() ==> NthNext(Chunks(w, v), k).None?
  {
    AdvanceShifts(w, v, k);
    AndLowMask(Shr(v, k * w.ChunkBits()), w.ChunkBits());
    if k >= w.MaxChunks() {
      MaxChunksCover(w, k);
      U64BitLen(v);
      BitLenShr(v, k * w.ChunkBits());
    }
  }

  /** Shifting right by `n` removes `n` significant bits. */
  lemma {:induction false} BitLenShr(x: nat, n: nat)
    ensures BitLen(Shr(x, n)) == if BitLen(x) <= n then 0 else BitLen(x) - n
  {
    if n > 0 {
      ModDouble(x, Pow2(n - 1));
      BitLenShr(x / 2, n - 1);
    }
  }

  /** A value fits in `n` bits exactly when it has at most `n` significant bits. */
  lemma {:induction false} BitLenBound(x: nat, n: nat)
    ensures BitLen(x) <= n <==> x < Pow2(n)
  {
    if n > 0 && x > 0 {
      BitLenBound(x / 2, n - 1);
    }
  }

  /** One chunk accounts for `CHUNK_BITS` significant bits. */
  lemma DivCeilStep(w: Width, len: nat)
    requires len >= 1
    ensures DivCeil(len, w.ChunkBits())
         == 1 + DivCeil(if len <= w.ChunkBits() then 0 else len - w.ChunkBits(), w.ChunkBits())
  {
    match w
    case U4 =>
    case U5 =>
    case U6 =>
  }

  /** `size_hint` is exact: a `for` loop sees exactly that many chunks. */
  lemma {:induction false} YieldedLength(c: Chunks)
    ensures |Yielded(c)| == c.SizeHint()
    decreases c.residual
  {
    if c.residual != 0 {
      var rest := c.Next().1;
      YieldedLength(rest);
      NextStep(c.width, c.residual);
      BitLenShr(c.residual, c.width.ChunkBits());
      DivCeilStep(c.width, BitLen(c.residual));
    }
  }

  /** At most `MAX_CHUNKS` chunks come out of any `u64`. */
  lemma YieldedAtMostMaxChunks(c: Chunks)
    ensures |Yielded(c)| <= c.width.MaxChunks()
  {
    YieldedLength(c);
    U64BitLen(c.residual);
    DivCeilAtMostMax(c.width, BitLen(c.residual));
  }

  lemma DivCeilAtMostMax(w: Width, len: nat)
    requires len <= 64
    ensures DivCeil(len, w.ChunkBits()) <= w.MaxChunks()
  {
    match w
    case U4 =>
    case U5 =>
    case U6 =>
  }

  /** The chunks, in order, add back up to the value: nothing is lost and the
      order is least significant first. */
  lemma ReassembleYielded(c: Chunks)
    ensures Reassemble(c.width, Yielded(c)) == c.residual
  {
    YieldedIsDigits(c);
    ReassembleDigits(c.width, c.residual);
  }

  lemma {:induction false} ReassembleDigits(w: Width, x: nat)
    ensures Reassemble(w, Digits(w, x)) == x
  {
    if x != 0 {
      ReassembleDigits(w, x / w.Base());
      assert Digits(w, x)[1..] == Digits(w, x / w.Base());
    }
  }

  /** The loop stops on the first zero residual, so the last chunk it sees
      is never zero: high zero chunks are not produced. */
  lemma LastChunkNonZero(c: Chunks)
    requires c.residual != 0
    ensures Yielded(c) != [] && Yielded(c)[|Yielded(c)| - 1] != 0
  {
    YieldedIsDigits(c);
    LastDigitNonZero(c.width, c.residual);
  }

  lemma {:induction false} LastDigitNonZero(w: Width, x: nat)
    requires x != 0
    ensures Digits(w, x) != [] && Digits(w, x)[|Digits(w, x)| - 1] != 0
  {
    if x / w.Base() != 0 {
      LastDigitNonZero(w, x / w.Base());
    }
  }

  /** Digit `i` is the low chunk of `x >> (i * CHUNK_BITS)`, which is not yet
      zero. */
  lemma {:induction false} DigitsNth(w: Width, x: nat, i: nat)
    requires i < |Digits(w, x)|
    ensures Shr(x, i * w.ChunkBits()) != 0
    ensures Digits(w, x)[i] == Shr(x, i * w.ChunkBits()) % w.Base()
  {
    var bits := w.ChunkBits();
    var b := w.Base();
    if i > 0 {
      var j := (i - 1) * bits;
      assert bits + j == i * bits;
      assert Digits(w, x)[i] == Digits(w, x / b)[i - 1];
      DigitsNth(w, x / b, i - 1);
      assert Shr(x, bits) == x / b;
      ShrShr(x, bits, j);
    } else {
      assert Shr(x, 0) == x / 1 == x;
    }
  }

  /** What a `for` loop sees at position `i` is what call `i` of `next`
      returns, zero chunks in the middle included. */
  lemma YieldedNth(c: Chunks, i: nat)
    requires i < |Yielded(c)|
    ensures NthNext(c, i) == Some(Yielded(c)[i])
  {
    YieldedIsDigits(c);
    DigitsNth(c.width, c.residual, i);
    AdvanceShifts(c.width, c.residual, i);
    NextStep(c.width, Advance(c, i).residual);
  }

  /** `MAX_CHUNKS` for the three widths: 16, 13 and 11. */
  lemma MaxChunksValues()
    ensures U4.MaxChunks() == 16 && U5.MaxChunks() == 13 && U6.MaxChunks() == 11
  {
  }

  /** `MAX_CHUNKS` chunks cover all 64 bits and one fewer would not; so from
      call number `MAX_CHUNKS` on the shift has passed every bit. */
  lemma MaxChunksCover(w: Width, k: nat)
    ensures (w.MaxChunks() - 1) * w.ChunkBits() < 64 <= w.MaxChunks() * w.ChunkBits()
    ensures k >= w.MaxChunks() ==> k * w.ChunkBits() >= 64
  {
    match w
    case U4 =>
    case U5 =>
    case U6 =>
  }

  /** The base-`2^CHUNK_BITS` digits of a number, least significant first,
      without leading zero digits: the reference the iterator is measured
      against. */
  function Digits(w: Width, x: nat): seq<nat>
  {
    if x == 0 then [] else [x % w.Base()] + Digits(w, x / w.Base())
  }

  /** One turn of the `for` loop: a non-zero residual yields its low chunk
      and the loop carries on with the rest. */
  lemma YieldedCons(c: Chunks)
    requires c.residual != 0
    ensures Yielded(c)
         == [c.residual % c.width.Base()] + Yielded(Chunks(c.width, c.residual / c.width.Base()))
  {
    NextStep(c.width, c.residual);
  }

  /** A `for` loop over the iterator sees exactly the digits of the value. */
  lemma {:induction false} YieldedIsDigits(c: Chunks)
    ensures Yielded(c) == Digits(c.width, c.residual)
    decreases c.residual
  {
    if c.residual != 0 {
      var b := c.width.Base();
      DivModBounds(c.residual, b);
      var rest := Chunks(c.width, c.residual / b);
      YieldedCons(c);
      YieldedIsDigits(rest);
      assert Digits(c.width, c.residual) == [c.residual % b] + Digits(c.width, c.residual / b);
    }
  }

  /** The digits of `0xFFFF` at each width. */
  lemma DigitsOfFfff()
    ensures Digits(U4, 0xFFFF) == [0xF, 0xF, 0xF, 0xF]
    ensures Digits(U5, 0xFFFF) == [0x1F, 0x1F, 0x1F, 0x01]
    ensures Digits(U6, 0xFFFF) == [0x3F, 0x3F, 0x0F]
  {
  }

  /** The iterator over `0xFFFF` at each width, as the crate's tests expect. */
  lemma ChunksOfFfff(x: u64)
    requires x == 0xFFFF
    ensures Yielded(Chunks(U4, x)) == [0xF, 0xF, 0xF, 0xF]
    ensures Yielded(Chunks(U5, x)) == [0x1F, 0x1F, 0x1F, 0x01]
    ensures Yielded(Chunks(U6, x)) == [0x3F, 0x3F, 0x0F]
  {
    DigitsOfFfff();
    YieldedIsDigits(Chunks(U4, x));
    YieldedIsDigits(Chunks(U5, x));
    YieldedIsDigits(Chunks(U6, x));
  }

  /** The values of `m` successive calls of `next().unwrap_or(0)`, the way
      the friend-code codec pulls a fixed number of chunks. */
  function Pulled(c: Chunks, m: nat): (ds: seq<nat>)
    ensures |ds| == m
    decreases m
  {
    if m == 0 then [] else [c.Next().0.GetOr(0)] + Pulled(c.Next().1, m - 1)
  }

  /** Pulling `m` chunks gives the low `m` base-`2^W` digits of the value,
      zero once the value is used up. */
  lemma {:induction false} PulledIsLowDigits(c: Chunks, m: nat)
    ensures Pulled(c, m) == LowDigits(c.width.Base(), c.residual, m)
    decreases m
  {
    if m > 0 {
      NextStep(c.width, c.residual);
      PulledIsLowDigits(c.Next().1, m - 1);
    }
  }
}
