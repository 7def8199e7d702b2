/** The newer `model::html::user_search` module: the string rules that
    turn one search-result row of the HTML payload into an entry. The DOM
    is abstracted: a row is the first `a.searchPersonaName` anchor, the
    first avatar image and the alias divs that the selectors find, each
    with the attribute and inner-HTML strings the code reads. */
module UserSearchHtml {
  import opened Wrappers
  import opened Strings
  import opened Decimal
  import opened SteamIds

  /** The persona anchor: its `href` and its inner HTML. */
  datatype Anchor = Anchor(href: Option<string>, innerHtml: string)

  /** A `div.search_match_info>div`: its inner HTML and the inner HTML of
      its `span`s, in document order. */
  datatype AliasDiv = AliasDiv(innerHtml: string, spans: seq<string>)

  /** One `div.search_row`. `image` is the `src` attribute of the first
      avatar image, `None` when there is no image, `Some(None)` when it
      has no `src`. */
  datatype Row = Row(info: Option<Anchor>, image: Option<Option<string>>, aliasDivs: seq<AliasDiv>)

  datatype UserSearchEntry = UserSearchEntry(personaName: string, profileUrl: string, avatarFull: string, aliases: seq<string>)

  /** The row errors. `AvatarPanic` is not one of the source's variants:
      it stands for the panic of slicing a `src` shorter than the suffix
      it removes. */
  datatype Error = NoProfileInfo | NoProfileAvatar | AvatarPanic

  const AVATAR_MEDIUM_SUFFIX: string := "_medium.jpg"
  const AVATAR_FULL_SUFFIX: string := "_full.jpg"
  const ALSO_KNOWN_AS: string := "Also known as"

  // ---------------------------------------------------------------------
  // The id in a profile URL

  /** `UserSearchEntry::steam_id`: the URL without the id-profile prefix
      must be a decimal `u64`. The prefix constant is not defined in the
      constants module, so it is a parameter. */
  function SteamIdOf(e: UserSearchEntry, prefix: string): (r: Option<SteamId>)
    ensures r.Some? <==> StartsWith(e.profileUrl, prefix) && ParseU64(e.profileUrl[|prefix|..]).Some?
    ensures r.Some? ==> r.value.raw == ParseU64(e.profileUrl[|prefix|..]).value
  {
    match StripPrefix(e.profileUrl, prefix)
    case None => None
    case Some(suffix) => FromStr(suffix).ToOption()
  }

  /** The prefix and an id's decimal form give the id back. */
  lemma SteamIdOfProfile(e: UserSearchEntry, prefix: string, id: SteamId)
    requires e.profileUrl == prefix + Display(id)
    ensures SteamIdOf(e, prefix) == Some(id)
  {
    assert StartsWith(e.profileUrl, prefix);
    assert e.profileUrl[|prefix|..] == Display(id);
    FromStrDisplay(id);
  }

  // ---------------------------------------------------------------------
  // The avatar

  /** The full-size avatar: `src` without its last 11 characters, then
      `_full.jpg`; `None` where the slice panics. */
  function FullAvatar(src: string): (r: Option<string>)
    ensures r.Some? <==> |src| >= |AVATAR_MEDIUM_SUFFIX|
    ensures r.Some? ==> |r.value| == |src| - |AVATAR_MEDIUM_SUFFIX| + |AVATAR_FULL_SUFFIX|
    ensures r.Some? ==> r.value[..|src| - |AVATAR_MEDIUM_SUFFIX|] == src[..|src| - |AVATAR_MEDIUM_SUFFIX|]
    ensures r.Some? ==> r.value[|src| - |AVATAR_MEDIUM_SUFFIX|..] == AVATAR_FULL_SUFFIX
  {
    if |src| < |AVATAR_MEDIUM_SUFFIX| then None
    else Some(src[..|src| - |AVATAR_MEDIUM_SUFFIX|] + AVATAR_FULL_SUFFIX)
  }

  /** A medium avatar's URL becomes the full one; the 11 characters
      removed are not checked, so any tail of that length is replaced. */
  lemma FullAvatarOf(base: string, tail: string)
    requires |tail| == |AVATAR_MEDIUM_SUFFIX|
    ensures FullAvatar(base + tail) == Some(base + AVATAR_FULL_SUFFIX)
    ensures FullAvatar(base + AVATAR_MEDIUM_SUFFIX) == Some(base + AVATAR_FULL_SUFFIX)
  {
    assert (base + tail)[..|base|] == base;
    assert (base + AVATAR_MEDIUM_SUFFIX)[..|base|] == base;
  }

  // ---------------------------------------------------------------------
  // The aliases

  /** A div whose inner HTML, after leading whitespace, starts with
      `Also known as`. */
  predicate IsAliasDiv(d: AliasDiv) {
    StartsWith(TrimStart(d.innerHtml), ALSO_KNOWN_AS)
  }

  /** What one div contributes. */
  function Spans(d: AliasDiv): seq<string> {
    if IsAliasDiv(d) then d.spans else []
  }

  /** The spans of the alias divs, in order; other divs are skipped. */
  function Aliases(divs: seq<AliasDiv>): seq<string> {
    FlatMap(divs, Spans)
  }

  /** The aliases of consecutive divs are the aliases of each part. */
  lemma {:induction false} AliasesAppend(a: seq<AliasDiv>, b: seq<AliasDiv>)
    ensures Aliases(a + b) == Aliases(a) + Aliases(b)
  {
    FlatMapAppend(a, b, Spans);
  }

  /** An alias div gives all its spans and any other div none; leading
      whitespace before the marker does not matter. */
  lemma AliasDivs(d: AliasDiv, pad: string, rest: string)
    requires forall i :: 0 <= i < |pad| ==> IsWhitespace(pad[i])
    ensures Aliases([d]) == if IsAliasDiv(d) then d.spans else []
    ensures IsAliasDiv(AliasDiv(pad + ALSO_KNOWN_AS + rest, d.spans))
  {
    assert [d][1..] == [];
    assert Aliases([d]) == Spans(d) + FlatMap([], Spans);
    assert pad + ALSO_KNOWN_AS + rest == pad + (ALSO_KNOWN_AS + rest);
    TrimStartPad(pad, ALSO_KNOWN_AS + rest);
    assert (ALSO_KNOWN_AS + rest)[..|ALSO_KNOWN_AS|] == ALSO_KNOWN_AS;
  }

  // ---------------------------------------------------------------------
  // Rows

  /** `Parser::parse_row`: the profile info first, then the avatar, then
      the aliases. */
  function ParseRow(row: Row): (r: Result<UserSearchEntry, Error>)
    ensures r == Err(NoProfileInfo) <==> row.info.None? || row.info.value.href.None?
    ensures r == Err(NoProfileAvatar) <==> row.info.Some? && row.info.value.href.Some? && (row.image.None? || row.image.value.None?)
    ensures r == Err(AvatarPanic) <==>
              row.info.Some? && row.info.value.href.Some? && row.image.Some? && row.image.value.Some? &&
              |row.image.value.value| < |AVATAR_MEDIUM_SUFFIX|
    ensures r.Ok? ==> r.value.profileUrl == row.info.value.href.value && r.value.personaName == row.info.value.innerHtml
    ensures r.Ok? ==> Some(r.value.avatarFull) == FullAvatar(row.image.value.value)
    ensures r.Ok? ==> r.value.aliases == Aliases(row.aliasDivs)
  {
    match row.info
    case None => Err(NoProfileInfo)
    case Some(info) =>
      match info.href
      case None => Err(NoProfileInfo)
      case Some(url) =>
        match row.image
        case None => Err(NoProfileAvatar)
        case Some(None) => Err(NoProfileAvatar)
        case Some(Some(src)) =>
          match FullAvatar(src)
          case None => Err(AvatarPanic)
          case Some(full) => Ok(UserSearchEntry(info.innerHtml, url, full, Aliases(row.aliasDivs)))
  }

  /** `Parser::parse`: one entry per row, in order, or the first failing
      row's error. */
  function Parse(rows: seq<Row>): (r: Result<seq<UserSearchEntry>, Error>)
    ensures r.Ok? <==> forall i :: 0 <= i < |rows| ==> ParseRow(rows[i]).Ok?
    ensures r.Ok? ==> |r.value| == |rows| && forall i :: 0 <= i < |rows| ==> r.value[i] == ParseRow(rows[i]).value
    ensures r.Err? ==> exists i :: 0 <= i < |rows| && ParseRow(rows[i]) == Err(r.error) && forall j :: 0 <= j < i ==> ParseRow(rows[j]).Ok?
  {
    TryMap(rows, ParseRow)
  }
}
