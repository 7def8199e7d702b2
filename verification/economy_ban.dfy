/** `EconomyBan`: the trade-ban status the player-bans endpoint reports, a
    lower-case word. */
module EconomyBans {
  import opened Wrappers
  import opened Primitives
  import opened Serde

  /** The variants; `None` is the Rust name, and is written
      `EconomyBan.None` here to keep it apart from `Option`'s. */
  datatype EconomyBan = None | Probation | Banned {

    /** The word the API uses for the variant. */
    function Word(): (w: string)
      ensures |w| >= 4
    {
      match this
      case None => "none"
      case Probation => "probation"
      case Banned => "banned"
    }
  }

  /** `EconomyBan::try_from(&str)`: exactly the three lower-case words are
      known; any other string, a different case or surrounding space
      included, is handed back unchanged as `Unknown`. */
  function TryFrom(value: string): (r: Result<EconomyBan, EnumError<string>>)
    ensures r.Ok? <==> value == "none" || value == "probation" || value == "banned"
    ensures r.Ok? ==> r.value.Word() == value
    ensures r.Err? ==> r.error == Unknown(value)
  {
    if value == "none" then Ok(EconomyBan.None)
    else if value == "probation" then Ok(Probation)
    else if value == "banned" then Ok(Banned)
    else Err(Unknown(value))
  }

  /** Decoding a variant's word gives the variant back. */
  lemma TryFromWord(b: EconomyBan)
    ensures TryFrom(b.Word()) == Ok(b)
  {
  }

  /** The known words differ from their capitalised forms, which are
      refused. */
  lemma CaseMatters()
    ensures TryFrom("None") == Err(Unknown("None"))
    ensures TryFrom("Banned") == Err(Unknown("Banned"))
    ensures TryFrom(" none") == Err(Unknown(" none"))
  {
    assert "None"[0] != "none"[0];
    assert "Banned"[0] != "banned"[0];
  }

  const EXPECTING: string := "persona state enum variant as a string or byte sequence"

  /** `EconomyBanVisitor::visit_str`: refuses exactly the strings
      `try_from` refuses, reporting the string itself. */
  function VisitStr(v: string): (r: Result<EconomyBan, DeError>)
    ensures r.Ok? <==> TryFrom(v).Ok?
    ensures r.Ok? ==> r.value == TryFrom(v).value
    ensures r.Err? ==> r.error == InvalidValue(Str(v), EXPECTING)
  {
    match TryFrom(v)
    case Ok(b) => Ok(b)
    case Err(_) => Err(InvalidValue(Str(v), EXPECTING))
  }

  /** The crate's test: `["none", "probation", "banned"]` decodes to the
      three variants in order. */
  lemma DeserializeAll(xs: seq<string>)
    requires xs == ["none", "probation", "banned"]
    ensures TryMap(xs, VisitStr) == Ok([EconomyBan.None, Probation, Banned])
  {
    var want := [EconomyBan.None, Probation, Banned];
    forall i | 0 <= i < 3
      ensures VisitStr(xs[i]) == Ok(want[i])
    {
      TryFromWord(want[i]);
    }
    TryMapAllOk(xs, VisitStr, want);
  }
}
