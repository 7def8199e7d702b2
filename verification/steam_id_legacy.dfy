/** The crate-root `steam_id` module, the older copy of `SteamId`. Its word
    layout, accessors and text formats are those of `SteamIds` (the same
    shifts and masks), so the id itself is shared; what this module has of
    its own are the inline decoding tables for the account type and the
    universe, its own `to_letter`/`as_u64` tables, and an error type that
    wraps the integer parse error. Each is proved to agree with the newer
    definition. */
module SteamIdLegacy {
  import opened Wrappers
  import opened Bits
  import opened Decimal
  import opened SteamIds
  import opened AccountTypes
  import Universes

  /** The inline `match` in `acc_type`: codes 0 to 10 in declaration order. */
  function TypeOfCode(code: u64): (t: Option<AccountType>)
    ensures t.None? <==> code >= 11
  {
    match code
    case 0 => Some(Invalid)
    case 1 => Some(Individual)
    case 2 => Some(Multiseat)
    case 3 => Some(GameServer)
    case 4 => Some(AnonGameServer)
    case 5 => Some(Pending)
    case 6 => Some(ContentServer)
    case 7 => Some(Clan)
    case 8 => Some(Chat)
    case 9 => Some(SuperSeeder)
    case 10 => Some(AnonUser)
    case _ => None
  }

  /** The inline `match` in `universe`: codes 0 to 5 in declaration order. */
  function UniverseOfCode(code: u64): (u: Option<Universes.Universe>)
    ensures u.None? <==> code >= 6
  {
    match code
    case 0 => Some(Universes.Invalid)
    case 1 => Some(Universes.Public)
    case 2 => Some(Universes.Beta)
    case 3 => Some(Universes.Internal)
    case 4 => Some(Universes.Dev)
    case 5 => Some(Universes.Rc)
    case _ => None
  }

  /** The legacy `AccountType::as_u64`. */
  function TypeAsU64(t: AccountType): (code: u64)
    ensures code <= 10
  {
    match t
    case Invalid => 0
    case Individual => 1
    case Multiseat => 2
    case GameServer => 3
    case AnonGameServer => 4
    case Pending => 5
    case ContentServer => 6
    case Clan => 7
    case Chat => 8
    case SuperSeeder => 9
    case AnonUser => 10
  }

  /** The legacy `Universe::as_u64`. */
  function UniverseAsU64(u: Universes.Universe): (code: u64)
    ensures code <= 5
  {
    match u
    case Invalid => 0
    case Public => 1
    case Beta => 2
    case Internal => 3
    case Dev => 4
    case Rc => 5
  }

  /** The legacy `AccountType::to_letter`. */
  function TypeToLetter(t: AccountType): (letter: Option<char>)
    ensures letter.None? <==> t == Chat || t == SuperSeeder
    ensures letter.Some? ==> FromLetter(letter.value) == Some(t)
  {
    match t
    case Invalid => Some('I')
    case Individual => Some('U')
    case Multiseat => Some('M')
    case GameServer => Some('G')
    case AnonGameServer => Some('A')
    case Pending => Some('P')
    case ContentServer => Some('C')
    case Clan => Some('g')
    case Chat => None
    case SuperSeeder => None
    case AnonUser => Some('a')
  }

  /** `as_u64` inverts each legacy decoding table, in both directions. */
  lemma TablesRoundTrip(code: u64, t: AccountType, u: Universes.Universe)
    ensures TypeOfCode(TypeAsU64(t)) == Some(t)
    ensures UniverseOfCode(UniverseAsU64(u)) == Some(u)
    ensures code <= 10 ==> TypeAsU64(TypeOfCode(code).value) == code
    ensures code <= 5 ==> UniverseAsU64(UniverseOfCode(code).value) == code
  {
  }

  /** The legacy tables say what the newer `try_from`, `as_u64` and
      `to_letter` say, code by code and variant by variant. */
  lemma TablesAgree(code: u64, t: AccountType, u: Universes.Universe)
    ensures TypeOfCode(code) == AccountTypes.TryFrom(code).ToOption()
    ensures UniverseOfCode(code) == Universes.TryFrom(code).ToOption()
    ensures TypeAsU64(t) == t.AsU64() && UniverseAsU64(u) == u.AsU64()
    ensures TypeToLetter(t) == t.ToLetter()
  {
  }

  /** The legacy `acc_type`. */
  function AccType(id: SteamId): (t: Option<AccountType>)
    ensures t.None? <==> id.TypeCode() >= 11
    ensures t == id.AccType()
  {
    TablesAgree(id.TypeCode(), Invalid, Universes.Invalid);
    TypeOfCode(id.TypeCode())
  }

  /** The legacy `universe`. */
  function Universe(id: SteamId): (u: Option<Universes.Universe>)
    ensures u.None? <==> id.UniverseCode() >= 6
    ensures u == id.Universe()
  {
    TablesAgree(id.UniverseCode(), Invalid, Universes.Invalid);
    UniverseOfCode(id.UniverseCode())
  }

  /** The legacy `to_steam_id`, built from the legacy tables. */
  function ToSteamId(id: SteamId): (s: Option<string>)
    ensures s.None? <==> id.UniverseCode() >= 6
    ensures s.Some? ==> ParseSteam2(s.value) == Some((id.UniverseCode(), id.Y(), id.AccNr()))
  {
    match Universe(id)
    case None => None
    case Some(u) =>
      Steam2Parses(UniverseAsU64(u), id.Y(), id.AccNr());
      Some(Steam2(UniverseAsU64(u), id.Y(), id.AccNr()))
  }

  /** The legacy `to_steam_id_3`, built from the legacy tables. */
  function ToSteamId3(id: SteamId): (s: Option<string>)
    ensures s.None? <==> id.TypeCode() >= 11 || id.TypeCode() == 8 || id.TypeCode() == 9
    ensures s.Some? ==> ParseSteam3(s.value).Some? && ParseSteam3(s.value).value.1 == id.W()
    ensures s.Some? ==> FromLetter(ParseSteam3(s.value).value.0) == AccType(id)
  {
    match AccType(id)
    case None => None
    case Some(t) =>
      match TypeToLetter(t)
      case None => None
      case Some(letter) =>
        Steam3Parses(letter, id.W());
        Some(Steam3(letter, id.W()))
  }

  /** Both copies print the same `STEAM_X:Y:Z` and `[L:1:W]` text for every
      id, and fail on the same ids. */
  lemma TextFormsAgree(id: SteamId)
    ensures ToSteamId(id) == id.ToSteamId()
    ensures ToSteamId3(id) == id.ToSteamId3()
  {
    if AccType(id).Some? {
      TablesAgree(0, AccType(id).value, Universes.Invalid);
    }
  }

  /** The legacy `SteamIdError`. */
  datatype SteamIdError = InvalidString(cause: ParseIntError)

  /** The legacy `FromStr`: the `u64` parse, its error wrapped by `?`. */
  function FromStr(s: string): (r: Result<SteamId, SteamIdError>)
    ensures r.Ok? <==> ParseU64(s).Some?
    ensures r.Ok? ==> r.value.raw == ParseU64(s).value
    ensures r.Err? ==> r.error == InvalidString(ParseIntError)
  {
    match ParseU64(s)
    case None => Err(InvalidString(ParseIntError))
    case Some(n) => Ok(SteamId(n))
  }

  /** The legacy parser inverts `Display`, and accepts and rejects the same
      strings as the newer one. */
  lemma FromStrDisplay(id: SteamId, s: string)
    ensures FromStr(Display(id)) == Ok(id)
    ensures FromStr(s).Ok? <==> SteamIds.FromStr(s).Ok?
    ensures FromStr(s).Ok? ==> FromStr(s).value == SteamIds.FromStr(s).value
  {
    ParseDisplay(id.raw);
  }

  /** The legacy deserializer's string path accepts exactly the strings
      that `u64` parsing accepts, and reads them as that number. */
  lemma VisitStrAccepts(s: string)
    ensures Deserialize(JsonStr(s)).Ok? <==> ParseU64(s).Some?
    ensures Deserialize(JsonStr(s)).Ok? ==> Deserialize(JsonStr(s)).value.raw == ParseU64(s).value
    ensures Deserialize(JsonStr(s)).Err? ==> Deserialize(JsonStr(s)).error == InvalidValue(s)
  {
  }

  /** The worked example holds for the legacy copy too. */
  lemma Example(id: SteamId)
    requires id.raw == 76561198805665689
    ensures ToSteamId(id) == Some("STEAM_1:1:422699980")
    ensures ToSteamId3(id) == Some("[U:1:845399961]")
  {
    TextFormsAgree(id);
    SteamIds.Example(id);
  }
}
