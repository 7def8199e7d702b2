/** The older friend-code encoder (`steam_id_friend_code`): the same
    alphabet and accumulator as `FriendCodes`, but over `char`s and a
    `String` built by pushing, with the prefix stripped only when present,
    and with a hash of the 31-bit account number instead of the low word. */
module FriendCodeLegacy {
  import opened Wrappers
  import opened Bits
  import opened Positional
  import opened BitChunks
  import opened ByteOrder
  import opened SteamIds
  import FriendCodes

  /** The `char`s of a byte string that is all ASCII. */
  function Chars(bs: seq<u8>): (s: string)
    ensures |s| == |bs| && forall i :: 0 <= i < |bs| ==> s[i] as int == bs[i]
  {
    seq(|bs|, i requires 0 <= i < |bs| => bs[i] as char)
  }

  lemma CharsAppend(a: seq<u8>, b: seq<u8>)
    ensures Chars(a + b) == Chars(a) + Chars(b)
  {
  }

  /** `to_symbol`, giving a `char`: the byte the newer `to_symbol` gives. */
  function ToSymbol(index: u8): (sym: Option<char>)
    ensures sym.Some? <==> FriendCodes.ToSymbol(index).Some?
    ensures sym.Some? ==> sym.value as int == FriendCodes.ToSymbol(index).value
  {
    if index <= 7 then Some((65 + index) as char)
    else if index <= 12 then Some((65 + index + 1) as char)
    else if index <= 23 then Some((65 + index + 2) as char)
    else if index <= 31 then Some((50 + index - 24) as char)
    else None
  }

  /** The test-only `from_symbol` on a `char`: the newer `from_symbol` on
      the characters that are bytes, `None` on every other one. */
  function FromSymbol(sym: char): (index: Option<u8>)
    ensures sym as int < 256 ==> index == FriendCodes.FromSymbol(sym as int)
    ensures sym as int >= 256 ==> index.None?
  {
    if 'A' <= sym <= 'H' then Some(sym as int - 65)
    else if 'J' <= sym <= 'N' then Some(sym as int - 65 - 1)
    else if 'P' <= sym <= 'Z' then Some(sym as int - 65 - 2)
    else if '2' <= sym <= '9' then Some(sym as int - 50 + 24)
    else None
  }

  /** The two are inverse bijections between 0..=31 and
      `ABCDEFGHJKLMNPQRSTUVWXYZ23456789`; `I`, `1`, `O`, `0` and 32 have no
      partner. */
  lemma SymbolBijection(index: u8, sym: char)
    ensures ToSymbol(index) == Some(sym) <==> FromSymbol(sym) == Some(index)
    ensures index < 32 ==> ToSymbol(index) == Some(FriendCodes.ALPHABET[index] as char)
    ensures FromSymbol('I').None? && FromSymbol('1').None?
    ensures FromSymbol('O').None? && FromSymbol('0').None?
    ensures ToSymbol(32).None?
  {
    if sym as int < 256 {
      FriendCodes.SymbolBijection(index, sym as int);
    }
    if index < 32 {
      FriendCodes.SymbolsSpellAlphabet(index);
    }
    FriendCodes.SymbolRejects(32);
  }

  // ---------------------------------------------------------------------
  // `base32_encode`

  /** Where the output for chunk `i` starts: a dash is pushed before
      chunks 4 and 9. */
  function ChunkStart(i: nat): nat {
    i + (if i > 4 then 1 else 0) + (if i > 9 then 1 else 0)
  }

  /** The loop of `base32_encode` from chunk `i` on, with the iterator in
      state `c`. The `unwrap` on `to_symbol` cannot fail: a five-bit chunk
      is below 32. */
  function EncodeFrom(c: Chunks, i: nat): string
    requires c.width == U5
    decreases 13 - i
  {
    if i >= 13 then []
    else
      NextStep(U5, c.residual);
      Pow2Small();
      var sym := ToSymbol(c.Next().0.GetOr(0));
      assert sym.Some?;
      (if i == 4 || i == 9 then ['-'] else []) + [sym.value] + EncodeFrom(c.Next().1, i + 1)
  }

  /** `base32_encode`: the characters of the newer `base32_encode_u64`; the
      two loops push their dashes at the same places. */
  function Base32Encode(num: u64): (s: string)
    ensures s == Chars(FriendCodes.Spelled(SwapBytes(num)))
  {
    var c := Chunks(U5, SwapBytes(num));
    EncodeFromLoop(c, 0);
    assert FriendCodes.EncodeLoop(c, 0) == FriendCodes.EncodeU64(num);
    EncodeFrom(c, 0)
  }

  /** From chunk `i` on, the legacy loop pushes the characters the newer
      loop writes from the position that chunk starts at. */
  lemma {:induction false} EncodeFromLoop(c: Chunks, i: nat)
    requires c.width == U5 && i <= 13
    ensures FriendCodes.EncodeLoop(c, ChunkStart(i)).Some?
    ensures EncodeFrom(c, i) == Chars(FriendCodes.EncodeLoop(c, ChunkStart(i)).value)
    decreases 13 - i
  {
    if i < 13 {
      var c' := c.Next().1;
      EncodeFromLoop(c', i + 1);
      var rest := FriendCodes.EncodeLoop(c', ChunkStart(i + 1)).value;
      var sym := ChunkSymbol(c);
      var out := NewLoopStep(c, i, sym, rest);
      LegacyLoopStep(c, i, sym, rest, out);
    }
  }

  /** The symbol of the iterator's next chunk. */
  lemma ChunkSymbol(c: Chunks) returns (sym: u8)
    requires c.width == U5
    ensures c.Next().0.GetOr(0) < 32
    ensures FriendCodes.ToSymbol(c.Next().0.GetOr(0)) == Some(sym)
    ensures ToSymbol(c.Next().0.GetOr(0)) == Some(sym as char)
  {
    NextStep(U5, c.residual);
    Pow2Small();
    sym := FriendCodes.ToSymbol(c.Next().0.GetOr(0)).value;
  }

  /** One chunk of the newer loop, with the dash before it at 4 and 9. */
  lemma NewLoopStep(c: Chunks, i: nat, sym: u8, rest: seq<u8>) returns (out: seq<u8>)
    requires i < 13 && c.Next().0.GetOr(0) < 32
    requires FriendCodes.ToSymbol(c.Next().0.GetOr(0)) == Some(sym)
    requires FriendCodes.EncodeLoop(c.Next().1, ChunkStart(i + 1)) == Some(rest)
    ensures out == (if i == 4 || i == 9 then [FriendCodes.DASH] else []) + [sym] + rest
    ensures FriendCodes.EncodeLoop(c, ChunkStart(i)) == Some(out)
  {
    out := (if i == 4 || i == 9 then [FriendCodes.DASH] else []) + [sym] + rest;
    if i == 4 || i == 9 {
      SymbolStep(c, ChunkStart(i) + 1, rest);
      DashStep(c, ChunkStart(i), [sym] + rest);
      assert out == [FriendCodes.DASH] + ([sym] + rest);
    } else {
      SymbolStep(c, ChunkStart(i), rest);
      assert out == [sym] + rest;
    }
  }

  /** One chunk of the legacy loop pushes the characters of the same
      bytes. */
  lemma LegacyLoopStep(c: Chunks, i: nat, sym: u8, rest: seq<u8>, out: seq<u8>)
    requires c.width == U5 && i < 13
    requires ToSymbol(c.Next().0.GetOr(0)) == Some(sym as char)
    requires EncodeFrom(c.Next().1, i + 1) == Chars(rest)
    requires out == (if i == 4 || i == 9 then [FriendCodes.DASH] else []) + [sym] + rest
    ensures EncodeFrom(c, i) == Chars(out)
  {
    if i == 4 || i == 9 {
      DashChars(sym, rest, out);
    } else {
      SymbolChars(sym, rest, out);
    }
  }

  lemma DashChars(sym: u8, rest: seq<u8>, out: seq<u8>)
    requires out == [FriendCodes.DASH] + [sym] + rest
    ensures Chars(out) == ['-'] + [sym as char] + Chars(rest)
  {
    CharsAppend([FriendCodes.DASH] + [sym], rest);
  }

  lemma SymbolChars(sym: u8, rest: seq<u8>, out: seq<u8>)
    requires out == [] + [sym] + rest
    ensures Chars(out) == [] + [sym as char] + Chars(rest)
  {
    CharsAppend([sym], rest);
  }

  lemma DashStep(c: Chunks, p: nat, rest: seq<u8>)
    requires p < FriendCodes.ENCODED_LEN && FriendCodes.IsDashPosition(p)
    requires FriendCodes.EncodeLoop(c, p + 1) == Some(rest)
    ensures FriendCodes.EncodeLoop(c, p) == Some([FriendCodes.DASH] + rest)
  {
  }

  lemma SymbolStep(c: Chunks, p: nat, rest: seq<u8>)
    requires p < FriendCodes.ENCODED_LEN && !FriendCodes.IsDashPosition(p)
    requires c.Next().0.GetOr(0) < 32
    requires FriendCodes.EncodeLoop(c.Next().1, p + 1) == Some(rest)
    ensures FriendCodes.EncodeLoop(c, p)
         == Some([FriendCodes.ToSymbol(c.Next().0.GetOr(0)).value] + rest)
  {
  }

  // ---------------------------------------------------------------------
  // `hash` and `to_friend_code`

  /** What the legacy `hash` digests: `acc_nr as u32 | 0x4353474F00000000`,
      bits 1 to 31 of the id under the filler, where the newer one takes
      the low word. */
  function HashInput(id: SteamId): (x: u64)
    ensures x == FriendCodes.FILLER + id.AccNr()
  {
    Pow2Large();
    var accNr := AsU32(id.AccNr());
    DivModUnique(id.AccNr(), U32_LIMIT, 0, id.AccNr());
    OrComm(0x4353_474F_0000_0000, accNr);
    OrDisjoint(0x4353_474F_0000_0000, accNr, 32);
    Or64(accNr, 0x4353_474F_0000_0000)
  }

  /** The two hash inputs agree only on ids whose low word is zero. */
  lemma HashInputsDiffer(id: SteamId)
    ensures HashInput(id) == FriendCodes.HashInput(id) <==> id.raw % U32_LIMIT == 0
  {
    assert id.raw % U32_LIMIT == id.W() == 2 * id.AccNr() + id.Y();
  }

  /** One turn of the legacy loop, turn `i`: the same two `U32Pair`
      updates as the newer step, with hash bit `(hash >> i) & 1`. */
  function LegacyStep(r: u64, nibble: u8, hash: u32, i: nat): u64 {
    var a := Or32(AsU32(Shl64(r, 4)), nibble);
    var r1 := FriendCodes.Join32(a, AsU32(Shr(r, 28)));
    DivModBounds(hash, Pow2(i));
    var bit := And(Shr(hash, i), 1);
    AndAtMost(Shr(hash, i), 1);
    FriendCodes.Join32(Or32(Shl32(a, 1), bit), AsU32(Shr(r1, 31)))
  }

  /** The legacy loop from turn `i` on. */
  function AccLoop(c: Chunks, hash: u32, r: u64, i: nat): u64
    decreases 8 - i
  {
    if i >= 8 then r
    else AccLoop(c.Next().1, hash, LegacyStep(r, c.Next().0.GetOr(0), hash, i), i + 1)
  }

  /** Reading bit `i` of the hash is the newer loop's reading bit 0 of the
      hash shifted down `i` times: from turn `i` on the two loops agree. */
  lemma {:induction false} AccLoopAgrees(c: Chunks, hash: u32, r: u64, i: nat)
    requires i <= 8
    ensures Shr(hash, i) < U32_LIMIT
    ensures AccLoop(c, hash, r, i) == FriendCodes.AccLoop(c, Shr(hash, i), r, 8 - i)
    decreases 8 - i
  {
    DivModBounds(hash, Pow2(i));
    if i < 8 {
      var r' := StepAgrees(r, c.Next().0.GetOr(0), hash, i);
      AccLoopAgrees(c.Next().1, hash, r', i + 1);
    }
  }

  lemma StepAgrees(r: u64, nibble: u8, hash: u32, i: nat) returns (r': u64)
    ensures Shr(hash, i) < U32_LIMIT
    ensures r' == LegacyStep(r, nibble, hash, i) == FriendCodes.AccStep(r, nibble, Shr(hash, i)).0
    ensures FriendCodes.AccStep(r, nibble, Shr(hash, i)).1 == Shr(hash, i + 1)
  {
    DivModBounds(hash, Pow2(i));
    ShrShr(hash, i, 1);
    r' := LegacyStep(r, nibble, hash, i);
  }

  /** Legacy `to_friend_code`: digest the account number, run the loop,
      encode, and drop `AAAA-` if the encoding starts with it. It is the
      newer code of the same id under that digest: the prefix is always
      there, and the result is the ten characters after it. */
  function ToFriendCode(id: SteamId, md5: FriendCodes.Digest): (code: string)
    ensures code == Chars(FriendCodes.ToFriendCode(id, md5(HashInput(id))).value)
  {
    var hash := md5(HashInput(id));
    var enc := Base32Encode(AccLoop(Chunks(U4, id.raw), hash, 0, 0));
    EncodingHasPrefix(id, hash);
    DropPrefix(enc)
  }

  /** `if enc.starts_with("AAAA-") { enc.drain(0..5) }`. */
  function DropPrefix(enc: string): (s: string)
    ensures |enc| >= 5 && enc[..5] == "AAAA-" ==> s == enc[5..]
    ensures !(|enc| >= 5 && enc[..5] == "AAAA-") ==> s == enc
  {
    if |enc| >= 5 && enc[..5] == "AAAA-" then enc[5..] else enc
  }

  /** The legacy encoding of the accumulator starts with `AAAA-`, and the
      rest is the newer code. */
  lemma EncodingHasPrefix(id: SteamId, hash: u32)
    ensures |Base32Encode(AccLoop(Chunks(U4, id.raw), hash, 0, 0))| >= 5
    ensures Base32Encode(AccLoop(Chunks(U4, id.raw), hash, 0, 0))[..5] == "AAAA-"
    ensures Base32Encode(AccLoop(Chunks(U4, id.raw), hash, 0, 0))[5..]
         == Chars(FriendCodes.ToFriendCode(id, hash).value)
  {
    var r := AccLoop(Chunks(U4, id.raw), hash, 0, 0);
    LegacyAcc(id, hash);
    FriendCodes.FriendAccDigits(id, hash);
    FriendCodes.AccPrefix(r);
    PrefixChars(FriendCodes.Spelled(SwapBytes(r)));
  }

  /** The legacy loop builds the newer accumulator. */
  lemma LegacyAcc(id: SteamId, hash: u32)
    ensures AccLoop(Chunks(U4, id.raw), hash, 0, 0) == FriendCodes.FriendAcc(id, hash)
  {
    AccLoopAgrees(Chunks(U4, id.raw), hash, 0, 0);
    assert Shr(hash, 0) == hash;
  }

  /** `AAAA-` as bytes and as characters. */
  lemma PrefixChars(s: seq<u8>)
    requires |s| >= 5 && s[..5] == FriendCodes.PREFIX
    ensures Chars(s)[..5] == "AAAA-" && Chars(s)[5..] == Chars(s[5..])
  {
  }

  /** The legacy code has the newer shape: ten characters, a dash in the
      middle. */
  lemma FriendCodeShape(id: SteamId, md5: FriendCodes.Digest)
    ensures |ToFriendCode(id, md5)| == 10 && ToFriendCode(id, md5)[5] == '-'
  {
    FriendCodes.FriendCodeShape(id, md5(HashInput(id)));
  }

  /** The encoder with the low word digested, as in the newer module. */
  function ToFriendCodeCorrected(id: SteamId, md5: FriendCodes.Digest): (code: string)
    ensures code == Chars(FriendCodes.FriendCode(id, md5).value)
  {
    var hash := md5(FriendCodes.HashInput(id));
    var enc := Base32Encode(AccLoop(Chunks(U4, id.raw), hash, 0, 0));
    EncodingHasPrefix(id, hash);
    DropPrefix(enc)
  }

  // ---------------------------------------------------------------------
  // The test vector

  /** For 76561197960287930 the corrected encoder gives `SUCVS-FADA`, the
      code the legacy test expects, when MD5 maps the low-word input to
      the digest word 0x890c9498. */
  lemma CorrectedExample(id: SteamId, md5: FriendCodes.Digest)
    requires id.raw == 76561197960287930 && md5(0x4353_474F_0000_56BA) == 0x890c_9498
    ensures ToFriendCodeCorrected(id, md5) == "SUCVS-FADA"
  {
    var hash := md5(FriendCodes.HashInput(id));
    assert hash == 0x890c_9498 by { ExampleHashInputs(id); }
    FriendCodes.FriendCodeExample(id, hash);
    ExampleCodeChars();
  }

  /** The two inputs for the test id: its low word 22202 and its account
      number 11101 under the filler. */
  lemma ExampleHashInputs(id: SteamId)
    requires id.raw == 76561197960287930
    ensures FriendCodes.HashInput(id) == 0x4353_474F_0000_56BA
    ensures HashInput(id) == 0x4353_474F_0000_2B5D
  {
    DivModUnique(id.raw, U32_LIMIT, 17825793, 22202);
    DivModUnique(id.raw, 2, 38280598980143965, 0);
    DivModUnique(38280598980143965, 0x8000_0000, 17825793, 11101);
  }

  lemma ExampleCodeChars()
    ensures Chars(FriendCodes.EXAMPLE_CODE) == "SUCVS-FADA"
  {
  }

  /** As written, the legacy encoder digests the account number 11101
      rather than the low word 22202; with MD5 mapping that input to the
      digest word 0x836906da, the code is `SUC5S-FADC`, not the expected
      `SUCVS-FADA`. */
  lemma LegacyExample(id: SteamId, md5: FriendCodes.Digest)
    requires id.raw == 76561197960287930 && md5(0x4353_474F_0000_2B5D) == 0x8369_06da
    ensures ToFriendCode(id, md5) == "SUC5S-FADC"
    ensures ToFriendCode(id, md5) != "SUCVS-FADA"
  {
    var hash := md5(HashInput(id));
    assert hash == 0x8369_06da by { ExampleHashInputs(id); }
    var r := ExampleAcc(id, hash);
    var v := ExampleSwap(r);
    ExampleSpelled(v);
  }

  lemma ExampleAcc(id: SteamId, hash: u32) returns (r: u64)
    requires id.raw == 76561197960287930 && hash == 0x8369_06da
    ensures r == FriendCodes.FriendAcc(id, hash) == 0xa5d8b08021
  {
    var ns := FriendCodes.ExampleNibbles(id.raw);
    var hs := ExampleHashBits(hash);
    var gs := ExampleGroups(ns, hs);
    var c := ExampleAccDigits(Reverse(gs));
    r := FriendCodes.FriendAcc(id, hash);
    FriendCodes.FriendAccDigits(id, hash);
    FriendCodes.CodecPowers();
    SameLowDigits(32, r, c, 8);
  }

  lemma ExampleHashBits(hash: nat) returns (hs: seq<nat>)
    requires hash == 0x8369_06da
    ensures hs == LowDigits(2, hash, 8) == [0, 1, 0, 1, 1, 0, 1, 1]
  {
    hs := [0, 1, 0, 1, 1, 0, 1, 1];
    LowDigitsByValues(2,
      [hash, 0x41b4836d, 0x20da41b6, 0x106d20db, 0x836906d,
       0x41b4836, 0x20da41b, 0x106d20d, 0x836906],
      hs);
  }

  lemma ExampleGroups(ns: seq<nat>, hs: seq<nat>) returns (gs: seq<nat>)
    requires ns == [10, 11, 6, 5, 0, 0, 0, 0] && hs == [0, 1, 0, 1, 1, 0, 1, 1]
    ensures gs == FriendCodes.Groups(ns, hs) && Reverse(gs) == [1, 1, 0, 1, 11, 12, 23, 20]
  {
    gs := FriendCodes.Groups(ns, hs);
    ReverseOf(gs, [1, 1, 0, 1, 11, 12, 23, 20]);
  }

  lemma ExampleAccDigits(ds: seq<nat>) returns (c: nat)
    requires ds == [1, 1, 0, 1, 11, 12, 23, 20]
    ensures c == 0xa5d8b08021 && LowDigits(32, c, 8) == ds
  {
    c := 0xa5d8b08021;
    LowDigitsByValues(32,
      [c, 0x52ec58401, 0x29762c20, 0x14bb161, 0xa5d8b, 0x52ec, 0x297, 0x14, 0x0],
      ds);
  }

  lemma ExampleSwap(r: u64) returns (v: u64)
    requires r == 0xa5d8b08021
    ensures v == SwapBytes(r) == 0x2180b0d8a5000000
  {
    var c: nat := 0x2180b0d8a5000000;
    ExampleBytes(r, c);
    v := SwapBytes(r);
    PowBytes();
    SameLowDigits(256, v, c, 8);
  }

  lemma ExampleBytes(r: nat, c: nat)
    requires r == 0xa5d8b08021 && c == 0x2180b0d8a5000000
    ensures LowDigits(256, c, 8) == Reverse(LowDigits(256, r, 8))
  {
    var bs := ExampleAccBytes(r);
    var cs := ExampleSwappedBytes(c);
    ReverseOf(bs, cs);
  }

  lemma ExampleAccBytes(r: nat) returns (bs: seq<nat>)
    requires r == 0xa5d8b08021
    ensures bs == LowDigits(256, r, 8) == [33, 128, 176, 216, 165, 0, 0, 0]
  {
    bs := [33, 128, 176, 216, 165, 0, 0, 0];
    LowDigitsByValues(256, [r, 0xa5d8b080, 0xa5d8b0, 0xa5d8, 0xa5, 0, 0, 0, 0], bs);
  }

  lemma ExampleSwappedBytes(c: nat) returns (cs: seq<nat>)
    requires c == 0x2180b0d8a5000000
    ensures cs == LowDigits(256, c, 8) == [0, 0, 0, 165, 216, 176, 128, 33]
  {
    cs := [0, 0, 0, 165, 216, 176, 128, 33];
    LowDigitsByValues(256,
      [c, 0x2180b0d8a50000, 0x2180b0d8a500, 0x2180b0d8a5, 0x2180b0d8, 0x2180b0, 0x2180, 0x21, 0],
      cs);
  }

  lemma ExampleSpelled(v: u64)
    requires v == 0x2180b0d8a5000000
    ensures Chars(FriendCodes.Spelled(v)[5..]) == "SUC5S-FADC"
  {
    ExampleChunks(v);
    SpelledOfChunks(v);
  }

  lemma ExampleChunks(v: nat)
    requires v == 0x2180b0d8a5000000
    ensures FriendCodes.Chunks5(v) == [0, 0, 0, 0, 16, 18, 2, 27, 16, 5, 0, 3, 2]
  {
    LowDigitsByValues(32,
      [v, 0x10c0586c5280000, 0x8602c36294000, 0x430161b14a00, 0x2180b0d8a50, 0x10c0586c52,
       0x8602c362, 0x430161b, 0x2180b0, 0x10c05, 0x860, 0x43, 0x2, 0x0],
      [0, 0, 0, 0, 16, 18, 2, 27, 16, 5, 0, 3, 2]);
  }

  lemma SpelledOfChunks(v: u64)
    requires FriendCodes.Chunks5(v) == [0, 0, 0, 0, 16, 18, 2, 27, 16, 5, 0, 3, 2]
    ensures Chars(FriendCodes.Spelled(v)[5..]) == "SUC5S-FADC"
  {
    var s := FriendCodes.Spelled(v)[5..];
    assert s[0] == 83 && s[1] == 85 && s[2] == 67 && s[3] == 53 && s[4] == 83;
    assert s[5] == 45 && s[6] == 70 && s[7] == 65 && s[8] == 68 && s[9] == 67;
  }
}
