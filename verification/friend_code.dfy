/** The CS:GO friend code of a Steam id (`model::steam_id::friend_code`):
    a custom base-32 alphabet, the 15-byte dashed form of a byte-swapped
    `u64`, and the accumulator that interleaves the low eight nibbles of
    the id with eight bits of an MD5 digest. Bytes are naturals below 256;
    the digest is a parameter. */
module FriendCodes {
  import opened Wrappers
  import opened Bits
  import opened Positional
  import opened BitChunks
  import opened ByteOrder
  import opened SteamIds

  /** The symbols for 0 to 31: `ABCDEFGHJKLMNPQRSTUVWXYZ23456789`, that is
      the capital letters without `I` and `O`, then the digits without `0`
      and `1`. */
  const ALPHABET: seq<u8> := [
    65, 66, 67, 68, 69, 70, 71, 72,
    74, 75, 76, 77, 78,
    80, 81, 82, 83, 84, 85, 86, 87, 88, 89, 90,
    50, 51, 52, 53, 54, 55, 56, 57]

  /** `b'-'`. */
  const DASH: u8 := 45

  /** `b"AAAA-"`, the prefix every encoded accumulator starts with. */
  const PREFIX: seq<u8> := [65, 65, 65, 65, 45]

  /** The length of `ChunksU5::MAX_CHUNKS + 2`, the dashed form. */
  const ENCODED_LEN: nat := 15

  /** The length of a friend code, `"SUCVS-FADA".len()`. */
  const CODE_LEN: nat := 10

  /** `to_symbol`. */
  function ToSymbol(index: u8): (sym: Option<u8>)
    ensures sym.Some? <==> index < 32
  {
    if index <= 7 then Some(65 + index)
    else if index <= 12 then Some(65 + index + 1)
    else if index <= 23 then Some(65 + index + 2)
    else if index <= 31 then Some(50 + index - 24)
    else None
  }

  /** `from_symbol`: the inverse of `to_symbol`, `None` for bytes that are
      no symbol. */
  function FromSymbol(sym: u8): (index: Option<u8>)
    ensures index.Some? ==> ToSymbol(index.value) == Some(sym)
    ensures index.None? ==> forall i: u8 :: ToSymbol(i) != Some(sym)
  {
    if 65 <= sym <= 72 then Some(sym - 65)
    else if 74 <= sym <= 78 then Some(sym - 65 - 1)
    else if 80 <= sym <= 90 then Some(sym - 65 - 2)
    else if 50 <= sym <= 57 then Some(sym - 50 + 24)
    else None
  }

  /** `to_symbol` spells the alphabet: index `i` is the `i`-th symbol. */
  lemma SymbolsSpellAlphabet(i: u8)
    requires i < 32
    ensures ToSymbol(i) == Some(ALPHABET[i])
  {
  }

  /** `from_symbol` accepts exactly the bytes of the alphabet. */
  lemma FromSymbolAccepts(sym: u8)
    ensures FromSymbol(sym).Some? <==> sym in ALPHABET
  {
    if FromSymbol(sym).Some? {
      var i := FromSymbol(sym).value;
      SymbolsSpellAlphabet(i);
      assert ALPHABET[i] == sym;
    }
    if sym in ALPHABET {
      var i :| 0 <= i < |ALPHABET| && ALPHABET[i] == sym;
      SymbolsSpellAlphabet(i);
      SymbolBijection(i, sym);
    }
  }

  /** `to_symbol` and `from_symbol` are inverse bijections between 0..=31
      and the alphabet. */
  lemma SymbolBijection(index: u8, sym: u8)
    ensures ToSymbol(index) == Some(sym) <==> FromSymbol(sym) == Some(index)
  {
  }

  /** The symbols left out of the alphabet, and the dash, are rejected;
      so is every index from 32 on. */
  lemma SymbolRejects(index: u8)
    requires index >= 32
    ensures FromSymbol(73).None? && FromSymbol(79).None?
    ensures FromSymbol(48).None? && FromSymbol(49).None?
    ensures FromSymbol(DASH).None?
    ensures ToSymbol(index).None?
  {
  }

  // ---------------------------------------------------------------------
  // The dashed base-32 form

  /** Which chunk the byte at position `p` of the dashed form spells. */
  function ChunkIndex(p: nat): (k: nat)
    ensures p < ENCODED_LEN && !IsDashPosition(p) ==> k < 13
  {
    p - (if p > 4 then 1 else 0) - (if p > 10 then 1 else 0)
  }

  predicate IsDashPosition(p: nat) {
    p == 4 || p == 10
  }

  /** The loop of `base32_encode_u64` from buffer position `i` on, with the
      chunk iterator in state `c`; `?` on `to_symbol` ends the function. */
  function EncodeLoop(c: Chunks, i: nat): Option<seq<u8>>
    decreases ENCODED_LEN - i
  {
    if i >= ENCODED_LEN then Some([])
    else if IsDashPosition(i) then
      match EncodeLoop(c, i + 1)
      case None => None
      case Some(rest) => Some([DASH] + rest)
    else
      var (next, c') := c.Next();
      match ToSymbol(next.GetOr(0))
      case None => None
      case Some(sym) =>
        match EncodeLoop(c', i + 1)
        case None => None
        case Some(rest) => Some([sym] + rest)
  }

  /** The 13 five-bit chunks of `n`, least significant first. */
  function Chunks5(n: nat): (ds: seq<nat>)
    ensures |ds| == 13 && AllBelow(ds, 32)
  {
    LowDigits(32, n, 13)
  }

  /** The dashed form of `v`, position by position: a dash at 4 and 10,
      elsewhere the symbol of the chunk the position stands for. */
  function Spelled(v: nat): (s: seq<u8>)
    ensures |s| == ENCODED_LEN
  {
    seq(ENCODED_LEN, p requires 0 <= p < ENCODED_LEN =>
      if IsDashPosition(p) then DASH else ToSymbol(Chunks5(v)[ChunkIndex(p)]).value)
  }

  /** `base32_encode_u64`: never `None`; it spells the 13 five-bit chunks
      of `swap_bytes(n)`, least significant first, with the two dashes. */
  function EncodeU64(n: u64): (r: Option<seq<u8>>)
    ensures r == Some(Spelled(SwapBytes(n)))
  {
    var v := SwapBytes(n);
    EncodeLoopSpec(v, 0);
    assert ChunkIndex(0) == 0 && Pow(32, 0) == 1 && v / 1 == v;
    assert Spelled(v)[0..] == Spelled(v);
    EncodeLoop(Chunks(U5, v), 0)
  }

  /** The dashed form has its dashes at 4 and 10, and position `p`
      elsewhere spells chunk `(v >> 5 * k) & 31` for `k` the chunk index. */
  lemma SpelledLayout(v: u64, p: nat)
    requires p < ENCODED_LEN
    ensures Spelled(v)[4] == DASH && Spelled(v)[10] == DASH
    ensures !IsDashPosition(p) ==>
      Spelled(v)[p] == ALPHABET[Shr(v, 5 * ChunkIndex(p)) % 32]
  {
    if !IsDashPosition(p) {
      var k := ChunkIndex(p);
      var d := Chunks5(v)[k];
      LowDigitsNth(32, v, 13, k);
      PowPow2(5, k);
      Pow2Small();
      assert d == Shr(v, 5 * k) % 32;
      SymbolsSpellAlphabet(d);
    }
  }

  lemma ChunkStep(v: nat, k: nat)
    ensures (v / Pow(32, k)) / 32 == v / Pow(32, k + 1)
  {
    DivPow(v, 32, k + 1);
    ModMul(v, 32, Pow(32, k));
    ModMul(v, Pow(32, k), 32);
    assert 32 * Pow(32, k) == Pow(32, k) * 32;
  }

  /** The loop from position `i` on, with the chunks before `i` consumed,
      writes the dashed form's bytes `i` to 14. */
  lemma {:induction false} EncodeLoopSpec(v: u64, i: nat)
    requires i <= ENCODED_LEN
    ensures v / Pow(32, ChunkIndex(i)) < U64_LIMIT
    ensures EncodeLoop(Chunks(U5, v / Pow(32, ChunkIndex(i))), i) == Some(Spelled(v)[i..])
    decreases ENCODED_LEN - i
  {
    var k := ChunkIndex(i);
    DivModBounds(v, Pow(32, k));
    if i < ENCODED_LEN {
      var x := v / Pow(32, k);
      var c := Chunks(U5, x);
      assert Spelled(v)[i..] == [Spelled(v)[i]] + Spelled(v)[i + 1..];
      if IsDashPosition(i) {
        assert ChunkIndex(i + 1) == k;
        EncodeLoopSpec(v, i + 1);
      } else {
        assert ChunkIndex(i + 1) == k + 1;
        NextStep(U5, x);
        Pow2Small();
        ChunkStep(v, k);
        LowDigitsNth(32, v, 13, k);
        assert c.Next().0.GetOr(0) == Chunks5(v)[k];
        assert c.Next().1 == Chunks(U5, v / Pow(32, k + 1));
        EncodeLoopSpec(v, i + 1);
      }
    }
  }

  // ---------------------------------------------------------------------
  // Decoding the dashed form

  /** The decoder skips one byte before reading dec-index 4 and one before
      dec-index `second`. As written, `second` is 10; the dashes the
      encoder writes call for 9. */
  const SECOND_SKIP_AS_WRITTEN: nat := 10
  const SECOND_SKIP: nat := 9

  /** The first loop of `base32_decode_u64` from dec-index `i` on, reading
      the rest `src` of the byte iterator: skip a byte where the loop
      expects a dash (nothing to skip once the input is used up), then
      `next().and_then(from_symbol)?`. */
  function DecodeLoop(src: seq<u8>, i: nat, second: nat): (r: Option<seq<nat>>)
    ensures r.Some? ==> AllBelow(r.value, 32) && (i <= 13 ==> |r.value| == 13 - i)
    decreases 13 - i
  {
    if i >= 13 then Some([])
    else
      var rest := if (i == 4 || i == second) && src != [] then src[1..] else src;
      if rest == [] then None
      else
        match FromSymbol(rest[0])
        case None => None
        case Some(d) =>
          match DecodeLoop(rest[1..], i + 1, second)
          case None => None
          case Some(ds) => Some([d] + ds)
  }

  /** The second loop: `result |= (dec as u64) << (5 * i)`, with the shift
      losing what passes bit 63. */
  function OrLoop(dec: seq<nat>, i: nat, acc: nat): nat
    decreases |dec| - i
  {
    if i >= |dec| then acc else OrLoop(dec, i + 1, Or(acc, Shl64(dec[i], 5 * i)))
  }

  /** Where the decoder starts reading at dec-index `i`. */
  function Start(i: nat, second: nat): nat {
    i + (if i > 4 then 1 else 0) + (if i > second then 1 else 0)
  }

  /** The byte the decoder reads for dec-index `j`. */
  function ReadPos(j: nat, second: nat): (p: nat)
    ensures j < 13 ==> p < ENCODED_LEN
  {
    j + (if j >= 4 then 1 else 0) + (if j >= second then 1 else 0)
  }

  /** The symbol values at the positions the decoder reads, 0 for a byte
      that is no symbol. */
  function ReadDigits(code: seq<u8>, second: nat): (ds: seq<nat>)
    requires |code| == ENCODED_LEN
    ensures |ds| == 13 && AllBelow(ds, 32)
  {
    seq(13, j requires 0 <= j < 13 => FromSymbol(code[ReadPos(j, second)]).GetOr(0))
  }

  /** Every byte the decoder reads from dec-index `i` on is a symbol. */
  predicate AllRead(code: seq<u8>, second: nat, i: nat)
    requires |code| == ENCODED_LEN
  {
    forall j :: i <= j < 13 ==> FromSymbol(code[ReadPos(j, second)]).Some?
  }

  /** The first loop reads exactly the bytes at `ReadPos` and fails on the
      first that is no symbol. */
  lemma {:induction false} DecodeLoopReads(code: seq<u8>, second: nat, i: nat)
    requires |code| == ENCODED_LEN && (second == SECOND_SKIP || second == SECOND_SKIP_AS_WRITTEN)
    requires i <= 13
    ensures Start(i, second) <= ENCODED_LEN
    ensures DecodeLoop(code[Start(i, second)..], i, second).Some? <==> AllRead(code, second, i)
    ensures DecodeLoop(code[Start(i, second)..], i, second).Some? ==>
      DecodeLoop(code[Start(i, second)..], i, second).value == ReadDigits(code, second)[i..]
    decreases 13 - i
  {
    if i < 13 {
      var src := code[Start(i, second)..];
      var p := ReadPos(i, second);
      var rest := code[p..];
      assert Start(i + 1, second) == p + 1;
      DecodeLoopUnfold(src, i, second, rest);
      assert rest[0] == code[p] && rest[1..] == code[p + 1..];
      DecodeLoopReads(code, second, i + 1);
      AllReadStep(code, second, i);
      ReadDigitsStep(code, second, i);
    }
  }

  lemma AllReadStep(code: seq<u8>, second: nat, i: nat)
    requires |code| == ENCODED_LEN && i < 13
    ensures AllRead(code, second, i) <==>
      FromSymbol(code[ReadPos(i, second)]).Some? && AllRead(code, second, i + 1)
  {
  }

  lemma ReadDigitsStep(code: seq<u8>, second: nat, i: nat)
    requires |code| == ENCODED_LEN && i < 13
    ensures ReadDigits(code, second)[i..] ==
      [FromSymbol(code[ReadPos(i, second)]).GetOr(0)] + ReadDigits(code, second)[i + 1..]
  {
    var digits := ReadDigits(code, second);
    assert digits[i..] == [digits[i]] + digits[i + 1..];
  }

  /** One turn of the first loop, for a dec-index below 13: what is read
      is the byte after the skip, if any. */
  lemma DecodeLoopUnfold(src: seq<u8>, i: nat, second: nat, rest: seq<u8>)
    requires i < 13 && rest != []
    requires rest == if (i == 4 || i == second) && src != [] then src[1..] else src
    ensures DecodeLoop(src, i, second) ==
      match FromSymbol(rest[0])
      case None => None
      case Some(d) =>
        match DecodeLoop(rest[1..], i + 1, second)
        case None => None
        case Some(ds) => Some([d] + ds)
  {
  }

  /** The or-shift loop computes the value of the digits, truncated to 64
      bits: the chunks do not overlap, and only the top chunk loses bits. */
  lemma {:induction false} OrLoopSum(dec: seq<nat>, i: nat, acc: nat)
    requires AllBelow(dec, 32) && |dec| <= 13 && i <= |dec|
    requires acc == FromDigits(32, dec[..i]) % U64_LIMIT
    ensures OrLoop(dec, i, acc) == FromDigits(32, dec) % U64_LIMIT
    decreases |dec| - i
  {
    if i < |dec| {
      OrStep(dec, i, acc);
      OrLoopSum(dec, i + 1, Or(acc, Shl64(dec[i], 5 * i)));
    } else {
      assert dec[..i] == dec;
    }
  }

  /** One step of the or-shift loop adds the next digit at its place. */
  lemma OrStep(dec: seq<nat>, i: nat, acc: nat)
    requires AllBelow(dec, 32) && |dec| <= 13 && i < |dec|
    requires acc == FromDigits(32, dec[..i]) % U64_LIMIT
    ensures Or(acc, Shl64(dec[i], 5 * i)) == FromDigits(32, dec[..i + 1]) % U64_LIMIT
  {
    var d := dec[i];
    var a := FromDigits(32, dec[..i]);
    FromDigitsBound(32, dec[..i]);
    PowPow2(5, i);
    Pow2Small();
    OrShl64(a, d, 5 * i);
    DivModUnique(a, U64_LIMIT, 0, a);
    assert dec[..i + 1] == dec[..i] + [d];
    FromDigitsSnoc(32, dec[..i], d);
  }

  /** `base32_decode_u64` with the second skip at `second`: `None` when a
      byte it reads is no symbol, otherwise the byte swap of the value whose
      five-bit chunks are the symbols read, truncated to 64 bits. */
  function DecodeU64(code: seq<u8>, second: nat): (r: Option<u64>)
    requires |code| == ENCODED_LEN && (second == SECOND_SKIP || second == SECOND_SKIP_AS_WRITTEN)
    ensures r.Some? <==> AllRead(code, second, 0)
    ensures r.Some? ==> r.value == SwapBytes(FromDigits(32, ReadDigits(code, second)) % U64_LIMIT)
  {
    DecodeLoopReads(code, second, 0);
    assert Start(0, second) == 0 && code[0..] == code;
    match DecodeLoop(code, 0, second)
    case None => None
    case Some(dec) =>
      assert dec == ReadDigits(code, second);
      assert dec[..0] == [] && FromDigits(32, []) == 0;
      OrLoopSum(dec, 0, 0);
      Some(SwapBytes(OrLoop(dec, 0, 0)))
  }

  /** As written, the decoder reads the second dash of every encoded value
      as a symbol, so it decodes nothing the encoder produces. */
  lemma DecodeAsWrittenRejectsEncoded(n: u64)
    ensures DecodeU64(EncodeU64(n).value, SECOND_SKIP_AS_WRITTEN).None?
  {
    var code := EncodeU64(n).value;
    assert ReadPos(9, SECOND_SKIP_AS_WRITTEN) == 10;
    SpelledLayout(SwapBytes(n), 10);
    assert FromSymbol(code[10]).None?;
  }

  /** With the skip at 9, decoding inverts encoding for every `u64`. */
  lemma DecodeEncode(n: u64)
    ensures DecodeU64(EncodeU64(n).value, SECOND_SKIP) == Some(n)
  {
    var s := SwapBytes(n);
    EncodedReads(n);
    ChunksValue(s);
    SwapSwap(n);
  }

  /** With the skip at 9 the decoder reads every chunk the encoder wrote. */
  lemma EncodedReads(n: u64)
    ensures AllRead(EncodeU64(n).value, SECOND_SKIP, 0)
    ensures ReadDigits(EncodeU64(n).value, SECOND_SKIP) == Chunks5(SwapBytes(n))
  {
    var s := SwapBytes(n);
    var code := EncodeU64(n).value;
    forall j | 0 <= j < 13
      ensures FromSymbol(code[ReadPos(j, SECOND_SKIP)]) == Some(Chunks5(s)[j])
    {
      var p := ReadPos(j, SECOND_SKIP);
      assert !IsDashPosition(p) && ChunkIndex(p) == j;
      SymbolBijection(Chunks5(s)[j], code[p]);
    }
  }

  /** A `u64` is its 13 five-bit chunks. */
  lemma ChunksValue(s: u64)
    ensures FromDigits(32, Chunks5(s)) % U64_LIMIT == s
  {
    FromLowDigits(32, s, 13);
    PowPow2(5, 13);
    Pow2Small();
    Pow2Large();
    Pow2Monotone(64, 65);
    DivModUnique(s, Pow(32, 13), 0, s);
    DivModUnique(s, U64_LIMIT, 0, s);
  }

  // ---------------------------------------------------------------------
  // The accumulator

  /** `u32x2_to_u64(low, high)`: `high` as the upper word, `low` as the
      lower. */
  function Join32(low: u32, high: u32): (r: u64)
    ensures r == high * U32_LIMIT + low
  {
    Pow2Large();
    Shl64Or(high, low, 32, U32_LIMIT);
    Or(Shl64(high, 32), low)
  }

  /** One turn of the loop in `to_friend_code`: the low word takes the
      next nibble, then shifts up by one more bit to take the next hash bit,
      the bits leaving each low word carried into the high word. The
      result is the new `r` and `hash >> 1`. */
  function AccStep(r: u64, nibble: u8, hash: u32): (u64, u32)
  {
    var a := Or32(AsU32(Shl64(r, 4)), nibble);
    var r1 := Join32(a, AsU32(Shr(r, 28)));
    AndAtMost(hash, 1);
    DivModBounds(hash, Pow2(1));
    (Join32(Or32(Shl32(a, 1), And(hash, 1)), AsU32(Shr(r1, 31))), Shr(hash, 1))
  }

  /** While `r` has at most 35 bits the step is `r' = (r << 5) | (nibble <<
      1) | (hash & 1)`: nothing is lost in the 32-bit halves. */
  lemma AccStepValue(r: u64, nibble: u8, hash: u32)
    requires r < 0x8_0000_0000 && nibble < 16
    ensures AccStep(r, nibble, hash).0 == 32 * r + 2 * nibble + hash % 2
    ensures AccStep(r, nibble, hash).1 == hash / 2
  {
    Pow2Small();
    var r1 := 16 * r + nibble;
    TakeNibble(r, nibble, r1);
    AndLowMask(hash, 1);
    TakeHashBit(r1, hash % 2);
  }

  /** The first half of the step: `r << 4 | nibble`, whose low word is kept
      as `a`. */
  lemma TakeNibble(r: nat, nibble: nat, r1: nat)
    requires r < 0x8_0000_0000 && nibble < 16 && r1 == 16 * r + nibble
    ensures AsU32(Shl64(r, 4)) + nibble < U32_LIMIT
    ensures Or32(AsU32(Shl64(r, 4)), nibble) == AsU32(r1)
    ensures Join32(Or32(AsU32(Shl64(r, 4)), nibble), AsU32(Shr(r, 28))) == r1
  {
    Pow2Small();
    Pow2Large();
    var high := r / 0x1000_0000;
    Shl64Exact(r, 4, 16);
    ShiftAcrossWords(r, nibble, 4, 16, 0x1000_0000, r * 16);
    DivModUnique(r1, U32_LIMIT, high, AsU32(r * 16) + nibble);
  }

  /** The second half: the low word shifted up by one more bit takes the
      hash bit, and the bit it loses moves into the high word. */
  lemma TakeHashBit(r1: nat, hb: nat)
    requires r1 < 0x80_0000_0000 && hb < 2
    ensures Join32(Or32(Shl32(AsU32(r1), 1), hb), AsU32(Shr(r1, 31))) == 2 * r1 + hb
  {
    Pow2Small();
    Pow2Large();
    Shl32OfLow(r1, 1, 2, r1 * 2);
    ShiftAcrossWords(r1, hb, 1, 2, 0x8000_0000, r1 * 2);
  }

  // ---------------------------------------------------------------------
  // From a Steam id to its friend code

  lemma Pow2Acc()
    ensures Pow2(35) == 0x8_0000_0000 && Pow2(40) == 0x100_0000_0000
  {
    Pow2Small();
    Pow2Large();
    assert Pow2(3) == 8;
    Pow2Add(32, 3);
    Pow2Add(32, 8);
  }

  /** The five-bit groups the accumulator builds, in the order it builds
      them: nibble `i` of the id above bit `i` of the hash. */
  function Groups(nibbles: seq<nat>, bits: seq<nat>): (gs: seq<nat>)
    requires |nibbles| == |bits|
    ensures |gs| == |nibbles|
    ensures forall i :: 0 <= i < |gs| ==> gs[i] == 2 * nibbles[i] + bits[i]
  {
    if nibbles == [] then [] else [2 * nibbles[0] + bits[0]] + Groups(nibbles[1..], bits[1..])
  }

  /** The loop of `to_friend_code` with `k` turns left and the nibble
      iterator in state `c`. */
  function AccLoop(c: Chunks, hash: u32, r: u64, k: nat): u64
    decreases k
  {
    if k == 0 then r
    else
      var step := AccStep(r, c.Next().0.GetOr(0), hash);
      AccLoop(c.Next().1, step.1, step.0, k - 1)
  }

  /** The loop shifts each group in below the ones before: it reads the
      groups most significant first. */
  lemma {:induction false} AccLoopFold(c: Chunks, hash: u32, r: u64, k: nat)
    requires c.width == U4 && k <= 8 && r < Pow(32, 8 - k)
    ensures AccLoop(c, hash, r, k) == Fold(32, r, Groups(Pulled(c, k), LowDigits(2, hash, k)))
    decreases k
  {
    if k > 0 {
      var c' := c.Next().1;
      var n := c.Next().0.GetOr(0);
      var r' := AccLoopStep(c, hash, r, k);
      AccLoopFold(c', hash / 2, r', k - 1);
      FoldGroupsCons(r, r', n, hash % 2, Pulled(c', k - 1), LowDigits(2, hash / 2, k - 1));
    }
  }

  lemma FoldGroupsCons(r: nat, r': nat, n: nat, h: nat, ns: seq<nat>, hs: seq<nat>)
    requires |ns| == |hs| && r' == r * 32 + (2 * n + h)
    ensures Fold(32, r, Groups([n] + ns, [h] + hs)) == Fold(32, r', Groups(ns, hs))
  {
    GroupsCons(n, h, ns, hs);
    FoldCons(32, r, 2 * n + h, Groups(ns, hs));
  }

  /** One turn of the loop: the accumulator takes the next group, and stays
      below `32^(9-k)`. */
  lemma AccLoopStep(c: Chunks, hash: u32, r: u64, k: nat) returns (r': u64)
    requires c.width == U4 && 1 <= k <= 8 && r < Pow(32, 8 - k)
    ensures r' == r * 32 + (2 * c.Next().0.GetOr(0) + hash % 2)
    ensures r' < Pow(32, 8 - (k - 1))
    ensures AccLoop(c, hash, r, k) == AccLoop(c.Next().1, hash / 2, r', k - 1)
  {
    var n := c.Next().0.GetOr(0);
    assert n < 16 by { NextStep(U4, c.residual); }
    AccBounds(r, k, 2 * n + hash % 2);
    AccStepValue(r, n, hash);
    r' := AccStep(r, n, hash).0;
    AccLoopUnfold(c, hash, r, k);
  }

  lemma AccLoopUnfold(c: Chunks, hash: u32, r: u64, k: nat)
    requires k > 0
    ensures var step := AccStep(r, c.Next().0.GetOr(0), hash);
      AccLoop(c, hash, r, k) == AccLoop(c.Next().1, step.1, step.0, k - 1)
  {
  }

  lemma AccBounds(r: nat, k: nat, g: nat)
    requires 1 <= k <= 8 && r < Pow(32, 8 - k) && g < 32
    ensures r < 0x8_0000_0000 && 32 * r + g < Pow(32, 8 - k + 1)
  {
    Pow2Small();
    PowPow2(5, 8 - k);
    Pow2Monotone(5 * (8 - k), 35);
    Pow2Acc();
    DigitBound(g, r, 32, Pow(32, 8 - k));
  }

  lemma GroupsCons(n: nat, h: nat, ns: seq<nat>, hs: seq<nat>)
    requires |ns| == |hs|
    ensures Groups([n] + ns, [h] + hs) == [2 * n + h] + Groups(ns, hs)
  {
    assert ([n] + ns)[1..] == ns && ([h] + hs)[1..] == hs;
  }

  /** The accumulator `to_friend_code` builds from `id` and its hash. */
  function FriendAcc(id: SteamId, hash: u32): u64 {
    AccLoop(Chunks(U4, id.raw), hash, 0, 8)
  }

  /** The accumulator has 40 bits, and its eight five-bit chunks, most
      significant first, are the low eight nibbles of the id each above the
      matching low bit of the hash. */
  lemma FriendAccDigits(id: SteamId, hash: u32)
    ensures FriendAcc(id, hash) < 0x100_0000_0000
    ensures LowDigits(32, FriendAcc(id, hash), 8)
         == Reverse(Groups(LowDigits(16, id.raw, 8), LowDigits(2, hash, 8)))
  {
    var g := Groups(LowDigits(16, id.raw, 8), LowDigits(2, hash, 8));
    FriendAccValue(id, hash);
    assert AllBelow(g, 32);
    ReverseBelow(g, 32);
    FromDigitsBound(32, Reverse(g));
    LowDigitsOfFromDigits(32, Reverse(g));
    CodecPowers();
  }

  /** The accumulator is the groups read most significant first. */
  lemma FriendAccValue(id: SteamId, hash: u32)
    ensures FriendAcc(id, hash)
         == FromDigits(32, Reverse(Groups(LowDigits(16, id.raw, 8), LowDigits(2, hash, 8))))
  {
    var c := Chunks(U4, id.raw);
    var g := Groups(LowDigits(16, id.raw, 8), LowDigits(2, hash, 8));
    assert Pow(32, 8 - 8) == 1;
    AccLoopFold(c, hash, 0, 8);
    PulledIsLowDigits(c, 8);
    FoldIsReverse(32, 0, g);
  }

  /** The powers the codec's bounds are stated in. */
  lemma CodecPowers()
    ensures Pow(32, 8) == 0x100_0000_0000 && Pow(256, 5) == 0x100_0000_0000
    ensures Pow(32, 4) == 0x10_0000 && Pow(16, 8) == U32_LIMIT
  {
    Pow2Small();
    Pow2Large();
    Pow2Acc();
    PowPow2(5, 8);
    PowPow2(8, 5);
    PowPow2(5, 4);
    PowPow2(4, 8);
  }

  /** A value of at most 40 bits, byte-swapped, has its low 24 bits clear. */
  lemma SwappedLowClear(r: u64)
    requires r < 0x100_0000_0000
    ensures SwapBytes(r) % 0x10_0000 == 0
  {
    var v := SwapBytes(r);
    var ds := Bytes(v);
    CodecPowers();
    HighDigitZero(256, r, 8, 5);
    HighDigitZero(256, r, 8, 6);
    HighDigitZero(256, r, 8, 7);
    assert ds[0] == 0 && ds[1] == 0 && ds[2] == 0;
    var f := FromDigits(256, ds[3..]);
    ThreeZeroBytes(ds, f);
    BytesDetermine(v);
    ModAddMultiple(0, 0x10_0000, 16 * f);
  }

  lemma ThreeZeroBytes(ds: seq<nat>, f: nat)
    requires |ds| >= 3 && ds[0] == 0 && ds[1] == 0 && ds[2] == 0
    requires f == FromDigits(256, ds[3..])
    ensures FromDigits(256, ds) == 0x10_0000 * (16 * f)
  {
    var d1 := ds[1..];
    var d2 := d1[1..];
    assert d2[1..] == ds[3..];
    assert FromDigits(256, d2) == 256 * f;
    assert FromDigits(256, d1) == 256 * FromDigits(256, d2);
    assert FromDigits(256, ds) == 256 * FromDigits(256, d1);
  }

  /** So the dashed form of the accumulator starts with `AAAA-`. */
  lemma AccPrefix(r: u64)
    requires r < 0x100_0000_0000
    ensures Spelled(SwapBytes(r))[..5] == PREFIX
  {
    var v := SwapBytes(r);
    SwappedLowClear(r);
    assert Pow(32, 4) == 0x10_0000;
    LowDigitsOfMultiple(32, v, 4, 13);
    var s := Spelled(v);
    forall p | 0 <= p < 4
      ensures s[p] == 65
    {
      assert Chunks5(v)[ChunkIndex(p)] == 0;
    }
  }

  /** `to_friend_code` with the hash given: encode the accumulator and strip
      `AAAA-`. It never fails: the encoding always starts with the prefix,
      and what is left is the ten bytes after it. */
  function ToFriendCode(id: SteamId, hash: u32): (code: Option<seq<u8>>)
    ensures code.Some?
    ensures code.value == Spelled(SwapBytes(FriendAcc(id, hash)))[5..]
  {
    FriendAccDigits(id, hash);
    AccPrefix(FriendAcc(id, hash));
    match EncodeU64(FriendAcc(id, hash))
    case None => None
    case Some(bytes) =>
      if |bytes| >= 5 && bytes[..5] == PREFIX then Some(bytes[5..]) else None
  }

  /** A friend code is ten bytes with a dash in the middle and symbols
      elsewhere, all of them ASCII, so `from_utf8` keeps them as they are. */
  lemma FriendCodeShape(id: SteamId, hash: u32)
    ensures |ToFriendCode(id, hash).value| == CODE_LEN
    ensures ToFriendCode(id, hash).value[5] == DASH
    ensures forall i :: 0 <= i < CODE_LEN && i != 5 ==> ToFriendCode(id, hash).value[i] in ALPHABET
  {
    TailShape(SwapBytes(FriendAcc(id, hash)));
  }

  /** The dashed form after its first five bytes. */
  lemma TailShape(v: u64)
    ensures |Spelled(v)[5..]| == CODE_LEN && Spelled(v)[5..][5] == DASH
    ensures forall i :: 0 <= i < CODE_LEN && i != 5 ==> Spelled(v)[5..][i] in ALPHABET
  {
    SpelledLayout(v, 10);
    forall i | 0 <= i < CODE_LEN && i != 5
      ensures Spelled(v)[5..][i] in ALPHABET
    {
      SpelledSymbol(v, i + 5);
    }
  }

  lemma SpelledSymbol(v: u64, p: nat)
    requires p < ENCODED_LEN && !IsDashPosition(p)
    ensures Spelled(v)[p] in ALPHABET
  {
    SpelledLayout(v, p);
  }

  // ---------------------------------------------------------------------
  // The hash

  /** `FILLER`: the bytes `C`, `S`, `G`, `O`, 0, 0, 0, 0 read big-endian. */
  const FILLER: u64 := 0x4353_474F_0000_0000

  /** The MD5 digest of the eight little-endian bytes of a `u64`, the
      first four bytes of the digest read as a little-endian `u32`. MD5
      itself is not modelled: what is proved with a `Digest` holds for
      every digest function. */
  type Digest = u64 -> u32

  /** The filler's bytes, most significant first, are `CSGO` and four
      zeros. */
  lemma FillerBytes()
    ensures Bytes(FILLER) == Reverse([67, 83, 71, 79, 0, 0, 0, 0])
  {
    LowDigitsByValues(256,
      [FILLER, 0x43_5347_4F00_0000, 0x4353_474F_0000, 0x43_5347_4F00,
       0x4353_474F, 0x43_5347, 0x4353, 0x43, 0],
      [0, 0, 0, 0, 79, 71, 83, 67]);
    ReverseOf([67, 83, 71, 79, 0, 0, 0, 0], [0, 0, 0, 0, 79, 71, 83, 67]);
  }

  /** What `hash` digests: `(id & FILLER_MASK) | FILLER`, the low word of
      the id under the filler. */
  function HashInput(id: SteamId): (x: u64)
    ensures x == FILLER + id.raw % U32_LIMIT
  {
    Pow2Large();
    AndLowMask(id.raw, 32);
    var low := And(id.raw, LowMask(32));
    OrComm(FILLER, low);
    OrDisjoint(FILLER, low, 32);
    Or64(low, FILLER)
  }

  /** `to_friend_code`: the code of `id` under the hash its low word and
      the filler digest to. */
  function FriendCode(id: SteamId, md5: Digest): (code: Option<seq<u8>>)
    ensures code.Some?
    ensures code.value == Spelled(SwapBytes(FriendAcc(id, md5(FILLER + id.raw % U32_LIMIT))))[5..]
  {
    ToFriendCode(id, md5(HashInput(id)))
  }

  /** Only the low word of a Steam id, its account number, reaches its
      friend code: ids that differ in universe, type or instance share it. */
  lemma FriendCodeOfLowWord(a: SteamId, b: SteamId, md5: Digest)
    requires a.raw % U32_LIMIT == b.raw % U32_LIMIT
    ensures FriendCode(a, md5) == FriendCode(b, md5)
  {
    var hash := md5(HashInput(a));
    CodecPowers();
    LowDigitsOfMod(16, a.raw, 8);
    LowDigitsOfMod(16, b.raw, 8);
    FriendAccValue(a, hash);
    FriendAccValue(b, hash);
  }

  // ---------------------------------------------------------------------
  // From a friend code back to a Steam id

  /** `DEFAULT_STEAM_ID`: universe 1, type 1, instance 1, account 0. */
  const DEFAULT_STEAM_ID: u64 := 0x0110_0001_0000_0000

  /** `(chunk & 0b11110) >> 1`: the four bits above the hash bit. */
  function ChunkNibble(chunk: u8): (n: u8)
    ensures n == (chunk / 2) % 16
  {
    NibbleOfChunk(chunk);
    Shr(And(chunk, 30), 1)
  }

  lemma NibbleOfChunk(chunk: nat)
    ensures Shr(And(chunk, 30), 1) == (chunk / 2) % 16
  {
    Pow2Small();
    AndLowMask(chunk / 2, 4);
    assert LowMask(4) == 15;
    if chunk != 0 {
      assert And(chunk, 30) == 2 * And(chunk / 2, 15);
    }
  }

  /** The loop of `from_friend_code` with `k` turns left:
      `steam_id = steam_id << 4 | nibble`. */
  function IdLoop(c: Chunks, id: u64, k: nat): u64
    decreases k
  {
    if k == 0 then id
    else
      IdLoop(c.Next().1, Or64(Shl64(id, 4), ChunkNibble(c.Next().0.GetOr(0))), k - 1)
  }

  /** The nibbles of a chunk sequence. */
  function Halves(ds: seq<nat>): (ns: seq<nat>)
    ensures |ns| == |ds|
    ensures forall i :: 0 <= i < |ns| ==> ns[i] == (ds[i] / 2) % 16
  {
    if ds == [] then [] else [(ds[0] / 2) % 16] + Halves(ds[1..])
  }

  /** The loop reads the nibbles most significant first. */
  lemma {:induction false} IdLoopFold(c: Chunks, id: u64, k: nat)
    requires c.width == U5 && k <= 8 && id < Pow(16, 8 - k)
    ensures IdLoop(c, id, k) == Fold(16, id, Halves(Pulled(c, k)))
    decreases k
  {
    if k > 0 {
      var c' := c.Next().1;
      var d := c.Next().0.GetOr(0);
      var id' := IdLoopStep(c, id, k);
      IdLoopFold(c', id', k - 1);
      FoldHalvesCons(id, id', d, Pulled(c', k - 1));
    }
  }

  lemma FoldHalvesCons(id: nat, id': nat, d: nat, ds: seq<nat>)
    requires id' == id * 16 + (d / 2) % 16
    ensures Fold(16, id, Halves([d] + ds)) == Fold(16, id', Halves(ds))
  {
    assert ([d] + ds)[1..] == ds;
    FoldCons(16, id, (d / 2) % 16, Halves(ds));
  }

  /** One turn of the loop: the id takes the next nibble, and stays below
      `16^(9-k)`. */
  lemma IdLoopStep(c: Chunks, id: u64, k: nat) returns (id': u64)
    requires c.width == U5 && 1 <= k <= 8 && id < Pow(16, 8 - k)
    ensures id' == id * 16 + (c.Next().0.GetOr(0) / 2) % 16
    ensures id' < Pow(16, 8 - (k - 1))
    ensures IdLoop(c, id, k) == IdLoop(c.Next().1, id', k - 1)
  {
    var n := ChunkNibble(c.Next().0.GetOr(0));
    assert id < U32_LIMIT by {
      Pow2Small();
      PowPow2(4, 8 - k);
      Pow2Monotone(4 * (8 - k), 32);
      Pow2Large();
    }
    assert Or64(Shl64(id, 4), n) == id * 16 + n by {
      Pow2Small();
      Shl64Or(id, n, 4, 16);
    }
    DigitBound(n, id, 16, Pow(16, 8 - k));
    id' := Or64(Shl64(id, 4), n);
  }

  /** Eight nibbles make a number below 2^32. */
  lemma {:induction false} IdLoopBelow(c: Chunks, id: u64, k: nat)
    requires c.width == U5 && k <= 8 && id < Pow(16, 8 - k)
    ensures IdLoop(c, id, k) < U32_LIMIT
    decreases k
  {
    if k > 0 {
      var id' := IdLoopStep(c, id, k);
      IdLoopBelow(c.Next().1, id', k - 1);
    } else {
      CodecPowers();
    }
  }

  /** `from_friend_code` with the decoder's second skip at `second`: a code
      that is not ten bytes long, or in which the decoder meets a byte that is
      no symbol, gives `None`; otherwise the id has universe 1, type 1 and
      instance 1, and its low word comes from the code. */
  function FromFriendCode(code: seq<u8>, second: nat): (r: Option<SteamId>)
    requires second == SECOND_SKIP || second == SECOND_SKIP_AS_WRITTEN
    ensures r.None? <==> |code| != CODE_LEN || !AllRead(PREFIX + code, second, 0)
    ensures r.Some? ==>
      r.value.UniverseCode() == 1 && r.value.TypeCode() == 1 && r.value.Instance() == 1
  {
    if |code| != CODE_LEN then None
    else
      match DecodeU64(PREFIX + code, second)
      case None => None
      case Some(decoded) => Some(IdOfDecoded(decoded))
  }

  /** The id the nibbles of a decoded value spell, on top of the default:
      its low word is the nibbles, and the fields above are the default's. */
  function IdOfDecoded(decoded: u64): (id: SteamId)
    ensures id.raw == IdLoop(Chunks(U5, decoded), 0, 8) + DEFAULT_STEAM_ID
    ensures id.raw % U32_LIMIT == IdLoop(Chunks(U5, decoded), 0, 8)
    ensures id.UniverseCode() == 1 && id.TypeCode() == 1 && id.Instance() == 1
  {
    var low := IdLoop(Chunks(U5, decoded), 0, 8);
    IdLoopBelow(Chunks(U5, decoded), 0, 8);
    DefaultFields(low);
    SteamId(Or64(low, DEFAULT_STEAM_ID))
  }

  /** Or-ing the default onto a word below 2^32 adds it, and the fields
      above bit 32 are then the default's. */
  lemma DefaultFields(low: u64)
    requires low < U32_LIMIT
    ensures Or64(low, DEFAULT_STEAM_ID) == low + DEFAULT_STEAM_ID
    ensures var id := SteamId(Or64(low, DEFAULT_STEAM_ID));
      id.UniverseCode() == 1 && id.TypeCode() == 1 && id.Instance() == 1
      && id.raw % U32_LIMIT == low
  {
    Pow2Large();
    assert DEFAULT_STEAM_ID == U32_LIMIT * 0x0110_0001;
    DivModUnique(DEFAULT_STEAM_ID, Pow2(32), 0x0110_0001, 0);
    OrComm(low, DEFAULT_STEAM_ID);
    OrDisjoint(DEFAULT_STEAM_ID, low, 32);
    var raw := low + DEFAULT_STEAM_ID;
    FieldsOfSum(raw, low % 2, low / 2, 1, 1, 1);
    DivModUnique(raw, U32_LIMIT, 0x0110_0001, low);
    assert SteamId(Or64(low, DEFAULT_STEAM_ID)) == SteamId(raw);
  }

  // ---------------------------------------------------------------------
  // The round trip

  /** `from_friend_code(to_friend_code(id))` with the skip at 9 gives back
      the low word of `id` in the default's universe, type and instance:
      the friend code keeps exactly the account id's 32 bits. */
  lemma {:induction false} FriendCodeRoundTrip(id: SteamId, hash: u32)
    ensures FromFriendCode(ToFriendCode(id, hash).value, SECOND_SKIP).Some?
    ensures FromFriendCode(ToFriendCode(id, hash).value, SECOND_SKIP).value.raw
         == id.raw % U32_LIMIT + DEFAULT_STEAM_ID
  {
    DecodesToAcc(id, hash);
    IdOfAcc(id, hash);
  }

  /** The id read back from the accumulator. */
  lemma IdOfAcc(id: SteamId, hash: u32)
    ensures IdOfDecoded(FriendAcc(id, hash)).raw == id.raw % U32_LIMIT + DEFAULT_STEAM_ID
  {
    NibblesOfAcc(id, hash);
  }

  /** The code, with `AAAA-` put back, decodes to the accumulator. */
  lemma DecodesToAcc(id: SteamId, hash: u32)
    ensures FromFriendCode(ToFriendCode(id, hash).value, SECOND_SKIP)
         == Some(IdOfDecoded(FriendAcc(id, hash)))
  {
    var r := FriendAcc(id, hash);
    var code := ToFriendCode(id, hash).value;
    FriendAccDigits(id, hash);
    AccPrefix(r);
    var full := Spelled(SwapBytes(r));
    PrefixRestored(full, code);
    assert EncodeU64(r).value == full;
    DecodeEncode(r);
  }

  lemma PrefixRestored(full: seq<u8>, code: seq<u8>)
    requires |full| >= 5 && full[..5] == PREFIX && code == full[5..]
    ensures PREFIX + code == full
  {
    assert full == full[..5] + full[5..];
  }

  /** The nibbles of the accumulator's chunks are the id's low nibbles, and
      the loop reads them back into the id's low word. */
  lemma NibblesOfAcc(id: SteamId, hash: u32)
    ensures IdLoop(Chunks(U5, FriendAcc(id, hash)), 0, 8) == id.raw % U32_LIMIT
  {
    var r := FriendAcc(id, hash);
    var c := Chunks(U5, r);
    var ns := LowDigits(16, id.raw, 8);
    var g := Groups(ns, LowDigits(2, hash, 8));
    FriendAccDigits(id, hash);
    PulledIsLowDigits(c, 8);
    assert Pulled(c, 8) == Reverse(g);
    assert Pow(16, 8 - 8) == 1;
    IdLoopFold(c, 0, 8);
    HalvesOfGroups(ns, LowDigits(2, hash, 8));
    FoldIsReverse(16, 0, Reverse(ns));
    ReverseReverse(ns);
    FromLowDigits(16, id.raw, 8);
    CodecPowers();
  }

  /** Halving the reversed groups drops the hash bits. */
  lemma HalvesOfGroups(ns: seq<nat>, hs: seq<nat>)
    requires |ns| == |hs| && AllBelow(ns, 16) && AllBelow(hs, 2)
    ensures Halves(Reverse(Groups(ns, hs))) == Reverse(ns)
  {
    var g := Groups(ns, hs);
    forall i | 0 <= i < |ns|
      ensures Halves(Reverse(g))[i] == Reverse(ns)[i]
    {
      var j := |ns| - 1 - i;
      assert Reverse(g)[i] == g[j];
      HalfOfGroup(ns[j], hs[j], g[j]);
    }
  }

  lemma HalfOfGroup(n: nat, h: nat, g: nat)
    requires n < 16 && h < 2 && g == 2 * n + h
    ensures (g / 2) % 16 == n
  {
    DivModUnique(g, 2, n, h);
    DivModUnique(n, 16, 0, n);
  }

  /** As written, with the second skip at 10, the decoder reads the dash in
      the middle of every ten-byte code as a symbol and fails. */
  lemma FromFriendCodeAsWritten(code: seq<u8>)
    requires |code| == CODE_LEN && code[5] == DASH
    ensures FromFriendCode(code, SECOND_SKIP_AS_WRITTEN).None?
  {
    assert ReadPos(9, SECOND_SKIP_AS_WRITTEN) == 10;
    assert (PREFIX + code)[10] == DASH;
    assert FromSymbol(DASH).None?;
  }

  /** So as written, `from_friend_code` rejects every code
      `to_friend_code` produces. */
  lemma FriendCodeAsWrittenRejectsEncoded(id: SteamId, hash: u32)
    ensures FromFriendCode(ToFriendCode(id, hash).value, SECOND_SKIP_AS_WRITTEN).None?
  {
    FriendCodeShape(id, hash);
    FromFriendCodeAsWritten(ToFriendCode(id, hash).value);
  }

  // ---------------------------------------------------------------------
  // The test vector

  /** `SUCVS-FADA` in ASCII. */
  const EXAMPLE_CODE: seq<u8> := [83, 85, 67, 86, 83, 45, 70, 65, 68, 65]

  /** The id of the test vector, 76561197960287930, and the low word of
      its MD5 hash, 0x890c9498, give the code `SUCVS-FADA`; decoding it
      with the skip at 9 gives the id back, and with the skip at 10 fails. */
  lemma FriendCodeExample(id: SteamId, hash: u32)
    requires id.raw == 76561197960287930 && hash == 0x890c9498
    ensures ToFriendCode(id, hash) == Some(EXAMPLE_CODE)
    ensures FromFriendCode(EXAMPLE_CODE, SECOND_SKIP) == Some(id)
    ensures FromFriendCode(EXAMPLE_CODE, SECOND_SKIP_AS_WRITTEN).None?
  {
    var r := ExampleAcc(id, hash);
    var v := ExampleSwap(r);
    ExampleSpelled(v);
    FriendCodeRoundTrip(id, hash);
    assert id.raw % U32_LIMIT + DEFAULT_STEAM_ID == id.raw;
    FromFriendCodeAsWritten(EXAMPLE_CODE);
  }

  lemma ExampleAcc(id: SteamId, hash: u32) returns (r: u64)
    requires id.raw == 76561197960287930 && hash == 0x890c9498
    ensures r == FriendAcc(id, hash) == 0xa598b08001
  {
    var ns := ExampleNibbles(id.raw);
    var hs := ExampleHashBits(hash);
    var gs := ExampleGroups(ns, hs);
    var c := ExampleAccDigits(Reverse(gs));
    r := FriendAcc(id, hash);
    FriendAccDigits(id, hash);
    CodecPowers();
    SameLowDigits(32, r, c, 8);
  }

  lemma ExampleNibbles(raw: nat) returns (ns: seq<nat>)
    requires raw == 76561197960287930
    ensures ns == LowDigits(16, raw, 8) == [10, 11, 6, 5, 0, 0, 0, 0]
  {
    ns := [10, 11, 6, 5, 0, 0, 0, 0];
    LowDigitsByValues(16,
      [raw, 0x1100001000056b, 0x1100001000056, 0x110000100005, 0x11000010000,
       0x1100001000, 0x110000100, 0x11000010, 0x1100001],
      ns);
  }

  lemma ExampleHashBits(hash: nat) returns (hs: seq<nat>)
    requires hash == 0x890c9498
    ensures hs == LowDigits(2, hash, 8) == [0, 0, 0, 1, 1, 0, 0, 1]
  {
    hs := [0, 0, 0, 1, 1, 0, 0, 1];
    LowDigitsByValues(2,
      [hash, 0x44864a4c, 0x22432526, 0x11219293, 0x890c949,
       0x44864a4, 0x2243252, 0x1121929, 0x890c94],
      hs);
  }

  lemma ExampleGroups(ns: seq<nat>, hs: seq<nat>) returns (gs: seq<nat>)
    requires ns == [10, 11, 6, 5, 0, 0, 0, 0] && hs == [0, 0, 0, 1, 1, 0, 0, 1]
    ensures gs == Groups(ns, hs) && Reverse(gs) == [1, 0, 0, 1, 11, 12, 22, 20]
  {
    gs := Groups(ns, hs);
    ReverseOf(gs, [1, 0, 0, 1, 11, 12, 22, 20]);
  }

  lemma ExampleAccDigits(ds: seq<nat>) returns (c: nat)
    requires ds == [1, 0, 0, 1, 11, 12, 22, 20]
    ensures c == 0xa598b08001 && LowDigits(32, c, 8) == ds
  {
    c := 0xa598b08001;
    LowDigitsByValues(32,
      [c, 0x52cc58400, 0x29662c20, 0x14b3161, 0xa598b, 0x52cc, 0x296, 0x14, 0x0],
      ds);
  }

  lemma ExampleSwap(r: u64) returns (v: u64)
    requires r == 0xa598b08001
    ensures v == SwapBytes(r) == 0x180b098a5000000
  {
    var c: nat := 0x180b098a5000000;
    ExampleBytes(r, c);
    v := SwapBytes(r);
    PowBytes();
    SameLowDigits(256, v, c, 8);
  }

  lemma ExampleBytes(r: nat, c: nat)
    requires r == 0xa598b08001 && c == 0x180b098a5000000
    ensures LowDigits(256, c, 8) == Reverse(LowDigits(256, r, 8))
  {
    var bs := ExampleAccBytes(r);
    var cs := ExampleSwappedBytes(c);
    ReverseOf(bs, cs);
  }

  lemma ExampleAccBytes(r: nat) returns (bs: seq<nat>)
    requires r == 0xa598b08001
    ensures bs == LowDigits(256, r, 8) == [1, 128, 176, 152, 165, 0, 0, 0]
  {
    bs := [1, 128, 176, 152, 165, 0, 0, 0];
    LowDigitsByValues(256, [r, 0xa598b080, 0xa598b0, 0xa598, 0xa5, 0, 0, 0, 0], bs);
  }

  lemma ExampleSwappedBytes(c: nat) returns (cs: seq<nat>)
    requires c == 0x180b098a5000000
    ensures cs == LowDigits(256, c, 8) == [0, 0, 0, 165, 152, 176, 128, 1]
  {
    cs := [0, 0, 0, 165, 152, 176, 128, 1];
    LowDigitsByValues(256,
      [c, 0x180b098a50000, 0x180b098a500, 0x180b098a5, 0x180b098, 0x180b0, 0x180, 0x1, 0], cs);
  }

  lemma ExampleSpelled(v: u64)
    requires v == 0x180b098a5000000
    ensures Spelled(v)[5..] == EXAMPLE_CODE
  {
    ExampleChunks(v);
    SpelledOfChunks(v);
  }

  lemma ExampleChunks(v: nat)
    requires v == 0x180b098a5000000
    ensures Chunks5(v) == [0, 0, 0, 0, 16, 18, 2, 19, 16, 5, 0, 3, 0]
  {
    LowDigitsByValues(32,
      [v, 0xc0584c5280000, 0x602c26294000, 0x30161314a00, 0x180b098a50, 0xc0584c52,
       0x602c262, 0x301613, 0x180b0, 0xc05, 0x60, 0x3, 0x0, 0x0],
      [0, 0, 0, 0, 16, 18, 2, 19, 16, 5, 0, 3, 0]);
  }

  lemma SpelledOfChunks(v: u64)
    requires Chunks5(v) == [0, 0, 0, 0, 16, 18, 2, 19, 16, 5, 0, 3, 0]
    ensures Spelled(v)[5..] == EXAMPLE_CODE
  {
    var s := Spelled(v)[5..];
    assert s[0] == 83 && s[1] == 85 && s[2] == 67 && s[3] == 86 && s[4] == 83;
    assert s[5] == 45 && s[6] == 70 && s[7] == 65 && s[8] == 68 && s[9] == 65;
  }
}
