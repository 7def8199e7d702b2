/** `SteamId` (the newer `model::steam_id` module): a 64-bit word read as
    Valve's bit fields, the `STEAM_X:Y:Z` and `[L:1:W]` text forms, and the
    decimal `Display` / `FromStr` pair. Bit 0 is `Y`, bits 1-31 the account
    number `Z`, bits 32-51 the instance, bits 52-55 the account type and
    bits 56-63 the universe. */
module SteamIds {
  import opened Wrappers
  import opened Bits
  import opened Decimal
  import opened Strings
  import AccountTypes
  import Universes

  const Y_SHIFT: nat := 0
  const Y_BITS: nat := 1
  const ACC_NR_SHIFT: nat := 1
  const ACC_NR_BITS: nat := 31
  const INSTANCE_SHIFT: nat := 32
  const INSTANCE_BITS: nat := 20
  const TYPE_SHIFT: nat := 52
  const TYPE_BITS: nat := 4
  const UNIVERSE_SHIFT: nat := 56
  const UNIVERSE_BITS: nat := 8

  /** The powers of two at each field's boundaries, one lemma per field so
      that each proof sees only the constants it needs. */
  lemma PowY()
    ensures Pow2(Y_SHIFT) == 1 && Pow2(Y_BITS) == 2
  {
  }

  lemma PowAccNr()
    ensures Pow2(ACC_NR_SHIFT) == 2 && Pow2(ACC_NR_BITS) == 0x8000_0000
  {
    Pow2Large();
  }

  lemma PowInstance()
    ensures Pow2(INSTANCE_SHIFT) == 0x1_0000_0000 && Pow2(INSTANCE_BITS) == 0x10_0000
  {
    Pow2Large();
  }

  lemma PowType()
    ensures Pow2(TYPE_SHIFT) == 0x10_0000_0000_0000 && Pow2(TYPE_BITS) == 16
  {
    Pow2Large();
    Pow2Add(32, 20);
  }

  lemma PowUniverse()
    ensures Pow2(UNIVERSE_SHIFT) == 0x100_0000_0000_0000 && Pow2(UNIVERSE_BITS) == 256
  {
    Pow2Large();
    Pow2Add(56, 8);
  }

  /** `(x >> shift) & ((1 << bits) - 1)`: the field of `bits` bits that
      starts at bit `shift`. */
  function Field(x: u64, shift: nat, bits: nat): (f: u64)
    ensures f == (x / Pow2(shift)) % Pow2(bits)
  {
    AndLowMask(Shr(x, shift), bits);
    DivModBounds(x, Pow2(shift));
    DivModBounds(x / Pow2(shift), Pow2(bits));
    And(Shr(x, shift), LowMask(bits))
  }

  datatype SteamId = SteamId(raw: u64) {

    /** `y`: bit 0. */
    function Y(): (y: u64)
      ensures y == raw % 2
    {
      PowY();
      Field(raw, Y_SHIFT, Y_BITS)
    }

    /** `acc_nr`: the 31 bits above `Y`. */
    function AccNr(): (z: u64)
      ensures z == (raw / 2) % 0x8000_0000
    {
      PowAccNr();
      Field(raw, ACC_NR_SHIFT, ACC_NR_BITS)
    }

    /** `instance`: bits 32 to 51. */
    function Instance(): (i: u64)
      ensures i == (raw / 0x1_0000_0000) % 0x10_0000
    {
      PowInstance();
      Field(raw, INSTANCE_SHIFT, INSTANCE_BITS)
    }

    /** The 4-bit account-type field, before the table lookup. */
    function TypeCode(): (t: u64)
      ensures t == (raw / 0x10_0000_0000_0000) % 16
    {
      PowType();
      Field(raw, TYPE_SHIFT, TYPE_BITS)
    }

    /** The 8-bit universe field, before the table lookup: the top byte. */
    function UniverseCode(): (u: u64)
      ensures u == raw / 0x100_0000_0000_0000
    {
      PowUniverse();
      var top := raw / 0x100_0000_0000_0000;
      assert top < 256 by { DivBelow(raw, 0x100_0000_0000_0000, 256); }
      DivModUnique(top, 256, 0, top);
      Field(raw, UNIVERSE_SHIFT, UNIVERSE_BITS)
    }

    /** `w`: `W = 2 * Z + Y`, which is the low 32 bits of the id. */
    function W(): (w: u64)
      ensures w == raw % U32_LIMIT
    {
      LowWord(raw);
      2 * AccNr() + Y()
    }

    /** `acc_type`: the account type, absent for the codes 11 to 15. */
    function AccType(): (t: Option<AccountTypes.AccountType>)
      ensures t.None? <==> TypeCode() >= 11
      ensures t.Some? ==> t.value.AsU64() == TypeCode()
    {
      AccountTypes.TryFrom(TypeCode()).ToOption()
    }

    /** `universe`: the universe, absent for the codes 6 to 255. */
    function Universe(): (u: Option<Universes.Universe>)
      ensures u.None? <==> UniverseCode() >= 6
      ensures u.Some? ==> u.value.AsU64() == UniverseCode()
    {
      Universes.TryFrom(UniverseCode()).ToOption()
    }

    /** `to_steam_id`: `STEAM_X:Y:Z`, or `None` when the universe is unknown. */
    function ToSteamId(): (s: Option<string>)
      ensures s.None? <==> UniverseCode() >= 6
      ensures s.Some? ==> ParseSteam2(s.value) == Some((UniverseCode(), Y(), AccNr()))
    {
      match Universe()
      case None => None
      case Some(u) =>
        Steam2Parses(u.AsU64(), Y(), AccNr());
        Some(Steam2(u.AsU64(), Y(), AccNr()))
    }

    /** `to_steam_id_3`: `[L:1:W]`, or `None` when the type is unknown or has
        no letter. */
    function ToSteamId3(): (s: Option<string>)
      ensures s.None? <==> AccType().None? || AccType().value.ToLetter().None?
      ensures s.Some? ==> ParseSteam3(s.value).Some?
      ensures s.Some? ==> ParseSteam3(s.value).value.1 == W()
      ensures s.Some? ==> AccountTypes.FromLetter(ParseSteam3(s.value).value.0) == AccType()
    {
      match AccType()
      case None => None
      case Some(t) =>
        match t.ToLetter()
        case None => None
        case Some(letter) =>
          Steam3Parses(letter, W());
          AccountTypes.LetterDeterminesType(t, AccountTypes.FromLetter(letter).value);
          Some(Steam3(letter, W()))
    }
  }

  /** `Display`: the decimal form of the word, at most
      `MAX_DIGITS_FOR_U64` digits long. */
  function Display(id: SteamId): (s: string)
    ensures Canonical(s) && |s| <= MAX_DIGITS_FOR_U64
    ensures Value(s) == id.raw
  {
    U64Length(id.raw);
    ValueOfNatToString(id.raw);
    NatToString(id.raw)
  }

  /** `FromStr`: `str::parse::<u64>`, wrapped. */
  function FromStr(s: string): (r: Result<SteamId, ParseIntError>)
    ensures r.Ok? <==> ParseU64(s).Some?
    ensures r.Ok? ==> r.value.raw == ParseU64(s).value
  {
    match ParseU64(s)
    case None => Err(ParseIntError)
    case Some(n) => Ok(SteamId(n))
  }

  /** Parsing what `Display` prints gives the id back. */
  lemma FromStrDisplay(id: SteamId)
    ensures FromStr(Display(id)) == Ok(id)
  {
    ParseDisplay(id.raw);
  }

  /** A canonical decimal string that parses is what `Display` prints for
      the id it parses to. */
  lemma DisplayFromStr(s: string)
    requires Canonical(s) && FromStr(s).Ok?
    ensures Display(FromStr(s).value) == s
  {
    NatToStringOfValue(s);
  }

  /** A character that is not a digit (other than a leading `+`) makes
      `FromStr` fail. */
  lemma FromStrRejectsNonDigit(s: string, i: nat)
    requires i < |s| && !IsDigit(s[i]) && !(i == 0 && s[i] == '+')
    ensures FromStr(s).Err?
  {
    if s[0] == '+' {
      assert s[1..][i - 1] == s[i];
    }
  }

  /** A string of digits worth more than `u64::MAX` makes `FromStr` fail. */
  lemma FromStrRejectsOverflow(s: string)
    requires AllDigits(s) && Value(s) >= U64_LIMIT
    ensures FromStr(s).Err?
  {
  }

  /** The JSON values the deserializer accepts: an unsigned integer or a
      string. */
  datatype Json = JsonU64(n: u64) | JsonStr(text: string)

  /** `de::Error::invalid_value(Unexpected::Str(v), ..)`, carrying the text. */
  datatype DeError = InvalidValue(unexpected: string)

  /** `SteamIdVisitor`: an integer is taken as the id; a string must parse
      as a decimal `u64`, and is reported unchanged when it does not. */
  function Deserialize(v: Json): (r: Result<SteamId, DeError>)
    ensures v.JsonU64? ==> r == Ok(SteamId(v.n))
    ensures v.JsonStr? ==> (r.Ok? <==> FromStr(v.text).Ok?)
    ensures v.JsonStr? && r.Ok? ==> r.value == FromStr(v.text).value
    ensures r.Err? ==> v.JsonStr? && r.error == InvalidValue(v.text)
  {
    match v
    case JsonU64(n) => Ok(SteamId(n))
    case JsonStr(text) =>
      match ParseU64(text)
      case None => Err(InvalidValue(text))
      case Some(n) => Ok(SteamId(n))
  }

  /** Both serialized shapes of an id read back as the id. */
  lemma DeserializeDisplay(id: SteamId)
    ensures Deserialize(JsonStr(Display(id))) == Ok(id)
    ensures Deserialize(JsonU64(id.raw)) == Ok(id)
  {
    FromStrDisplay(id);
  }

  /** The worked example: `76561198805665689` is `STEAM_1:1:422699980` and
      `[U:1:845399961]`. */
  lemma Example(id: SteamId)
    requires id.raw == 76561198805665689
    ensures id.ToSteamId() == Some("STEAM_1:1:422699980")
    ensures id.ToSteamId3() == Some("[U:1:845399961]")
  {
    ExampleFields(id);
    ExampleDigits(id.AccNr(), id.W());
    assert id.ToSteamId() == Some("STEAM_1:1:422699980") by {
      assert id.Universe() == Some(Universes.Public);
      ExampleSteam2(id.AccNr());
    }
    assert id.AccType() == Some(AccountTypes.Individual);
    ExampleSteam3(id.W());
  }

  lemma ExampleFields(id: SteamId)
    requires id.raw == 76561198805665689
    ensures id.Y() == 1 && id.AccNr() == 422699980 && id.UniverseCode() == 1
    ensures id.TypeCode() == 1 && id.W() == 845399961
  {
    ExampleArithmetic(id.raw);
  }

  lemma ExampleArithmetic(x: nat)
    requires x == 76561198805665689
    ensures x % 2 == 1 && (x / 2) % 0x8000_0000 == 422699980
    ensures x / 0x100_0000_0000_0000 == 1 && (x / 0x10_0000_0000_0000) % 16 == 1
    ensures x % 0x1_0000_0000 == 845399961
  {
  }

  lemma ExampleSteam2(z: nat)
    requires NatToString(z) == "422699980"
    ensures Steam2(1, 1, z) == "STEAM_1:1:422699980"
  {
    assert NatToString(1) == "1";
  }

  lemma ExampleSteam3(w: nat)
    requires NatToString(w) == "845399961"
    ensures Steam3('U', w) == "[U:1:845399961]"
  {
  }

  lemma ExampleDigits(z: nat, w: nat)
    requires z == 422699980 && w == 845399961
    ensures NatToString(z) == "422699980"
    ensures NatToString(w) == "845399961"
  {
    ExampleAccNrDigits();
    ExampleWDigits();
  }

  /** The text of `422699980`, one digit at a time. */
  lemma ExampleAccNrDigits()
    ensures NatToString(422699980) == "422699980"
  {
    var t := NatToString(4);
    NatToStringSnoc(42, t);
    t := t + [DigitChar(2)];
    NatToStringSnoc(422, t);
    t := t + [DigitChar(2)];
    NatToStringSnoc(4226, t);
    t := t + [DigitChar(6)];
    NatToStringSnoc(42269, t);
    t := t + [DigitChar(9)];
    NatToStringSnoc(422699, t);
    t := t + [DigitChar(9)];
    NatToStringSnoc(4226999, t);
    t := t + [DigitChar(9)];
    NatToStringSnoc(42269998, t);
    t := t + [DigitChar(8)];
    NatToStringSnoc(422699980, t);
    t := t + [DigitChar(0)];
    assert t == "422699980";
  }

  /** The text of `845399961`, one digit at a time. */
  lemma ExampleWDigits()
    ensures NatToString(845399961) == "845399961"
  {
    var t := NatToString(8);
    NatToStringSnoc(84, t);
    t := t + [DigitChar(4)];
    NatToStringSnoc(845, t);
    t := t + [DigitChar(5)];
    NatToStringSnoc(8453, t);
    t := t + [DigitChar(3)];
    NatToStringSnoc(84539, t);
    t := t + [DigitChar(9)];
    NatToStringSnoc(845399, t);
    t := t + [DigitChar(9)];
    NatToStringSnoc(8453999, t);
    t := t + [DigitChar(9)];
    NatToStringSnoc(84539996, t);
    t := t + [DigitChar(6)];
    NatToStringSnoc(845399961, t);
    t := t + [DigitChar(1)];
    assert t == "845399961";
  }

  /** The text `STEAM_X:Y:Z` with the three numbers in decimal. */
  function Steam2(x: nat, y: nat, z: nat): string {
    "STEAM_" + NatToString(x) + ":" + NatToString(y) + ":" + NatToString(z)
  }

  /** Reads `STEAM_X:Y:Z` back: exactly three `:`-separated canonical
      decimal numbers after the prefix. */
  function ParseSteam2(s: string): Option<(nat, nat, nat)> {
    match StripPrefix(s, "STEAM_")
    case None => None
    case Some(rest) => ParseThree(rest)
  }

  /** Exactly three `:`-separated canonical decimal numbers. */
  function ParseThree(rest: string): Option<(nat, nat, nat)> {
    var parts := Split(rest, ':');
    if |parts| == 3 && Canonical(parts[0]) && Canonical(parts[1]) && Canonical(parts[2])
    then Some((Value(parts[0]), Value(parts[1]), Value(parts[2])))
    else None
  }

  /** Decimal digits never contain the separator. */
  lemma NoColonInNumber(n: nat)
    ensures ':' !in NatToString(n)
  {
    var s := NatToString(n);
    assert forall i | 0 <= i < |s| :: IsDigit(s[i]);
  }

  lemma Steam2Parses(x: nat, y: nat, z: nat)
    ensures ParseSteam2(Steam2(x, y, z)) == Some((x, y, z))
  {
    var sx, sy, sz := NatToString(x), NatToString(y), NatToString(z);
    NoColonInNumber(x);
    NoColonInNumber(y);
    NoColonInNumber(z);
    var rest := sx + ":" + sy + ":" + sz;
    assert Steam2(x, y, z) == "STEAM_" + rest;
    assert StripPrefix(Steam2(x, y, z), "STEAM_") == Some(rest);
    SplitThree(sx, sy, sz, ':');
    ValueOfNatToString(x);
    ValueOfNatToString(y);
    ValueOfNatToString(z);
  }

  /** `STEAM_X:Y:Z` is the only text that reads back as `(X, Y, Z)`: the
      printed form is unique. */
  lemma Steam2Unique(s: string, x: nat, y: nat, z: nat)
    requires ParseSteam2(s) == Some((x, y, z))
    ensures s == Steam2(x, y, z)
  {
    var rest := StripPrefix(s, "STEAM_").value;
    assert s == "STEAM_" + rest;
    ThreeNumbers(rest, x, y, z);
  }

  /** Three canonical numbers split on `:` are the numbers printed and
      joined with `:`. */
  lemma ThreeNumbers(rest: string, x: nat, y: nat, z: nat)
    requires ParseThree(rest) == Some((x, y, z))
    ensures rest == NatToString(x) + ":" + NatToString(y) + ":" + NatToString(z)
  {
    var parts := Split(rest, ':');
    var a, b, d := parts[0], parts[1], parts[2];
    NatToStringOfValue(a);
    NatToStringOfValue(b);
    NatToStringOfValue(d);
    SplitJoin(rest, ':');
    assert parts == [a, b, d];
    JoinThree(a, b, d, ":");
  }

  /** The text `[L:1:W]`. */
  function Steam3(letter: char, w: nat): string {
    "[" + [letter] + ":1:" + NatToString(w) + "]"
  }

  /** Reads `[L:1:W]` back into the letter and the number. */
  function ParseSteam3(s: string): Option<(char, nat)> {
    if |s| >= 6 && s[0] == '[' && s[2..5] == ":1:" && s[|s| - 1] == ']'
       && Canonical(s[5..|s| - 1])
    then Some((s[1], Value(s[5..|s| - 1])))
    else None
  }

  lemma Steam3Parses(letter: char, w: nat)
    ensures ParseSteam3(Steam3(letter, w)) == Some((letter, w))
  {
    var s := Steam3(letter, w);
    assert s[5..|s| - 1] == NatToString(w);
    ValueOfNatToString(w);
  }

  /** `[L:1:W]` is the only text that reads back as `(L, W)`. */
  lemma Steam3Unique(s: string, letter: char, w: nat)
    requires ParseSteam3(s) == Some((letter, w))
    ensures s == Steam3(letter, w)
  {
    NatToStringOfValue(s[5..|s| - 1]);
    assert s == s[..1] + [s[1]] + s[2..5] + s[5..|s| - 1] + [s[|s| - 1]];
  }

  /** The five fields put back in place: `y | z << 1 | instance << 32 |
      type << 52 | universe << 56`. */
  function FromParts(y: nat, z: nat, instance: nat, accType: nat, universe: nat): nat {
    Or(Shl64(universe, UNIVERSE_SHIFT),
      Or(Shl64(accType, TYPE_SHIFT),
        Or(Shl64(instance, INSTANCE_SHIFT),
          Or(Shl64(z, ACC_NR_SHIFT), y))))
  }

  /** The low word is `Y` plus twice the account number. */
  lemma LowWord(raw: u64)
    ensures raw % U32_LIMIT == raw % 2 + 2 * ((raw / 2) % 0x8000_0000)
  {
  }

  /** The five fields as a sum, least significant first. */
  lemma FieldSum(raw: u64)
    ensures raw == raw % 2 + 2 * ((raw / 2) % 0x8000_0000)
                 + 0x1_0000_0000 * ((raw / 0x1_0000_0000) % 0x10_0000)
                 + 0x10_0000_0000_0000 * ((raw / 0x10_0000_0000_0000) % 16)
                 + 0x100_0000_0000_0000 * (raw / 0x100_0000_0000_0000)
  {
    var high := raw / 0x1_0000_0000;
    var top := raw / 0x10_0000_0000_0000;
    assert raw % 0x1_0000_0000 == raw % 2 + 2 * ((raw / 2) % 0x8000_0000) by {
      ModMul(raw, 2, 0x8000_0000);
    }
    assert high % 0x10_0000 + 0x10_0000 * top == high by {
      ModMul(raw, 0x1_0000_0000, 0x10_0000);
    }
    assert top % 16 + 16 * (raw / 0x100_0000_0000_0000) == top by {
      ModMul(raw, 0x10_0000_0000_0000, 16);
    }
  }

  /** The fields partition the word: reassembling them gives the id. */
  lemma Partition(id: SteamId)
    ensures FromParts(id.Y(), id.AccNr(), id.Instance(), id.TypeCode(), id.UniverseCode()) == id.raw
  {
    FieldSum(id.raw);
    PartsAsSum(id.Y(), id.AccNr(), id.Instance(), id.TypeCode(), id.UniverseCode());
  }

  /** With every field inside its width the `|`s are additions. */
  lemma PartsAsSum(y: nat, z: nat, instance: nat, accType: nat, universe: nat)
    requires y < 2 && z < 0x8000_0000 && instance < 0x10_0000 && accType < 16 && universe < 256
    ensures FromParts(y, z, instance, accType, universe)
         == y + 2 * z + 0x1_0000_0000 * instance + 0x10_0000_0000_0000 * accType
            + 0x100_0000_0000_0000 * universe
  {
    var a := y + 2 * z;
    var b := a + 0x1_0000_0000 * instance;
    var c := b + 0x10_0000_0000_0000 * accType;
    OrAccNr(y, z);
    OrInstance(a, instance);
    OrType(b, accType);
    OrUniverse(c, universe);
  }

  lemma OrAccNr(y: nat, z: nat)
    requires y < 2 && z < 0x8000_0000
    ensures Or(Shl64(z, ACC_NR_SHIFT), y) == y + 2 * z
  {
    PowAccNr();
    Shl64Or(z, y, ACC_NR_SHIFT, 2);
  }

  lemma OrInstance(low: nat, instance: nat)
    requires low < 0x1_0000_0000 && instance < 0x10_0000
    ensures Or(Shl64(instance, INSTANCE_SHIFT), low) == low + 0x1_0000_0000 * instance
  {
    PowInstance();
    Shl64Or(instance, low, INSTANCE_SHIFT, 0x1_0000_0000);
  }

  lemma OrType(low: nat, accType: nat)
    requires low < 0x10_0000_0000_0000 && accType < 16
    ensures Or(Shl64(accType, TYPE_SHIFT), low) == low + 0x10_0000_0000_0000 * accType
  {
    PowType();
    Shl64Or(accType, low, TYPE_SHIFT, 0x10_0000_0000_0000);
  }

  lemma OrUniverse(low: nat, universe: nat)
    requires low < 0x100_0000_0000_0000 && universe < 256
    ensures Or(Shl64(universe, UNIVERSE_SHIFT), low) == low + 0x100_0000_0000_0000 * universe
  {
    PowUniverse();
    Shl64Or(universe, low, UNIVERSE_SHIFT, 0x100_0000_0000_0000);
  }

  /** Fields within their widths come back out of `FromParts` unchanged. */
  lemma FieldsOfParts(y: nat, z: nat, instance: nat, accType: nat, universe: nat)
    requires y < 2 && z < 0x8000_0000 && instance < 0x10_0000 && accType < 16 && universe < 256
    ensures FromParts(y, z, instance, accType, universe) < U64_LIMIT
    ensures var id := SteamId(FromParts(y, z, instance, accType, universe));
      id.Y() == y && id.AccNr() == z && id.Instance() == instance
      && id.TypeCode() == accType && id.UniverseCode() == universe
  {
    PartsAsSum(y, z, instance, accType, universe);
    var high := instance + 0x10_0000 * (accType + 16 * universe);
    assert high < 0x1_0000_0000;
    var raw := FromParts(y, z, instance, accType, universe);
    assert raw == y + 2 * z + 0x1_0000_0000 * high;
    FieldsOfSum(raw, y, z, instance, accType, universe);
  }

  /** The fields of a word written as the sum of its fields. */
  lemma FieldsOfSum(raw: u64, y: nat, z: nat, instance: nat, accType: nat, universe: nat)
    requires y < 2 && z < 0x8000_0000 && instance < 0x10_0000 && accType < 16
    requires raw == y + 2 * z + 0x1_0000_0000 * (instance + 0x10_0000 * (accType + 16 * universe))
    ensures SteamId(raw).Y() == y && SteamId(raw).AccNr() == z
    ensures SteamId(raw).Instance() == instance && SteamId(raw).TypeCode() == accType
    ensures SteamId(raw).UniverseCode() == universe
  {
    var high := instance + 0x10_0000 * (accType + 16 * universe);
    var top := accType + 16 * universe;
    var low := y + 2 * z;
    assert raw % 2 == y && raw / 2 == z + 0x8000_0000 * high by {
      DivModUnique(raw, 2, z + 0x8000_0000 * high, y);
    }
    assert (raw / 2) % 0x8000_0000 == z by {
      DivModUnique(z + 0x8000_0000 * high, 0x8000_0000, high, z);
    }
    assert raw / 0x1_0000_0000 == high by {
      DivModUnique(raw, 0x1_0000_0000, high, low);
    }
    assert high % 0x10_0000 == instance by {
      DivModUnique(high, 0x10_0000, top, instance);
    }
    assert raw / 0x10_0000_0000_0000 == top by {
      DivModUnique(raw, 0x10_0000_0000_0000, top, low + 0x1_0000_0000 * instance);
    }
    assert top % 16 == accType by {
      DivModUnique(top, 16, universe, accType);
    }
    assert raw / 0x100_0000_0000_0000 == universe by {
      DivModUnique(raw, 0x100_0000_0000_0000, universe,
        low + 0x1_0000_0000 * instance + 0x10_0000_0000_0000 * accType);
    }
  }
}
