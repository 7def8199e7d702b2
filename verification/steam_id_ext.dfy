/** `SteamIdExt` (`steam_id_ext`): the ids an iterator yields written into
    one string, each in decimal or through a caller's function, with a
    separator between neighbours. The iterator is the sequence of ids it
    yields; its lower size bound is a separate number. */
module SteamIdExt {
  import opened Wrappers
  import opened Decimal
  import opened Strings
  import opened SteamIds
  import SteamIdLegacy

  /** `usize::saturating_sub`. */
  function SaturatingSub(a: nat, b: nat): (d: nat)
    ensures a >= b ==> d + b == a
    ensures a < b ==> d == 0
  {
    if a >= b then a - b else 0
  }

  /** The capacity `to_steam_id_string` reserves when the iterator promises
      at least `lower` ids: room for `lower` ids of the longest decimal form
      and the separators between them. */
  function Capacity(lower: nat, sepLen: nat): nat {
    lower * MAX_DIGITS_FOR_U64 + SaturatingSub(lower, 1) * sepLen
  }

  /** The texts of the ids, in order. */
  function Texts(ids: seq<SteamId>, f: SteamId -> string): (ts: seq<string>)
    ensures |ts| == |ids| && forall i :: 0 <= i < |ids| ==> ts[i] == f(ids[i])
  {
    seq(|ids|, i requires 0 <= i < |ids| => f(ids[i]))
  }

  /** The `while let` loop after the first id: each further id pushes the
      separator, then its text. */
  function PushRest(buf: string, ids: seq<SteamId>, sep: string, f: SteamId -> string): string
    decreases |ids|
  {
    if ids == [] then buf else PushRest(buf + sep + f(ids[0]), ids[1..], sep, f)
  }

  /** `to_steam_id_string_with`: nothing for no ids, otherwise the first
      id's text and then the loop; that is, the texts joined by `sep`, with
      no separator before the first or after the last. */
  function ToSteamIdStringWith(ids: seq<SteamId>, sep: string, f: SteamId -> string): (s: string)
    ensures s == Join(Texts(ids, f), sep)
  {
    if ids == [] then ""
    else
      PushRestJoin(f(ids[0]), ids[1..], sep, f);
      assert [f(ids[0])] + Texts(ids[1..], f) == Texts(ids, f);
      PushRest(f(ids[0]), ids[1..], sep, f)
  }

  lemma {:induction false} PushRestJoin(buf: string, ids: seq<SteamId>, sep: string, f: SteamId -> string)
    ensures PushRest(buf, ids, sep, f) == Join([buf] + Texts(ids, f), sep)
    decreases |ids|
  {
    if ids != [] {
      var rest := Texts(ids[1..], f);
      PushRestJoin(buf + sep + f(ids[0]), ids[1..], sep, f);
      assert [f(ids[0])] + rest == Texts(ids, f);
      JoinHead(buf, f(ids[0]), rest, sep);
    }
  }

  /** Pushing the separator and a text onto the first piece is joining one
      more piece. */
  lemma JoinHead(a: string, b: string, rest: seq<string>, sep: string)
    ensures Join([a + sep + b] + rest, sep) == Join([a] + ([b] + rest), sep)
  {
    if rest == [] {
      assert Join([a] + [b], sep) == a + sep + Join([b], sep);
    } else {
      JoinCons(a + sep + b, rest, sep);
      JoinCons(b, rest, sep);
      JoinCons(a, [b] + rest, sep);
    }
  }

  /** `to_steam_id_string`: the decimal forms joined by `sep`. */
  function ToSteamIdString(ids: seq<SteamId>, sep: string): (s: string)
    ensures s == Join(Texts(ids, Display), sep)
  {
    ToSteamIdStringWith(ids, sep, Display)
  }

  /** When the iterator's lower bound is exact, the reserved capacity is
      enough: the string is never longer than it. */
  lemma {:induction false} FitsCapacity(ids: seq<SteamId>, sep: string)
    ensures |ToSteamIdString(ids, sep)| <= Capacity(|ids|, |sep|)
    decreases |ids|
  {
    if |ids| == 1 {
      assert Texts(ids, Display) == [Display(ids[0])];
    } else if |ids| >= 2 {
      var rest := ToSteamIdString(ids[1..], sep);
      FitsCapacity(ids[1..], sep);
      assert Texts(ids, Display) == [Display(ids[0])] + Texts(ids[1..], Display);
      JoinCons(Display(ids[0]), Texts(ids[1..], Display), sep);
      assert |ToSteamIdString(ids, sep)| == |Display(ids[0])| + |sep| + |rest|;
      CapacityStep(|ids| - 1, |sep|);
    }
  }

  /** One more id needs room for one more decimal form and one more
      separator. */
  lemma CapacityStep(n: nat, sepLen: nat)
    requires n >= 1
    ensures Capacity(n + 1, sepLen) == Capacity(n, sepLen) + MAX_DIGITS_FOR_U64 + sepLen
  {
    assert (n + 1) * MAX_DIGITS_FOR_U64 == n * MAX_DIGITS_FOR_U64 + MAX_DIGITS_FOR_U64;
    assert n * sepLen == (n - 1) * sepLen + sepLen;
  }

  /** Joined with `,` (the query separator of the batch endpoints), the
      string splits back into the decimal forms, and each of them parses
      back into its id. */
  lemma CommaJoinParses(ids: seq<SteamId>, i: nat)
    requires |ids| >= 1 && i < |ids|
    ensures |Split(ToSteamIdString(ids, ","), ',')| == |ids|
    ensures FromStr(Split(ToSteamIdString(ids, ","), ',')[i]) == Ok(ids[i])
  {
    var ts := Texts(ids, Display);
    forall j | 0 <= j < |ts|
      ensures ',' !in ts[j]
    {
      NoCommaInDisplay(ids[j]);
    }
    SplitJoinPieces(ts, ',');
    FromStrDisplay(ids[i]);
  }

  /** Every piece of a comma-joined list parses back to its id. */
  lemma CommaJoinParsesAll(ids: seq<SteamId>)
    requires |ids| >= 1
    ensures |Split(ToSteamIdString(ids, ","), ',')| == |ids|
    ensures forall i :: 0 <= i < |ids| ==> FromStr(Split(ToSteamIdString(ids, ","), ',')[i]) == Ok(ids[i])
  {
    CommaJoinParses(ids, 0);
    forall i | 0 <= i < |ids|
      ensures FromStr(Split(ToSteamIdString(ids, ","), ',')[i]) == Ok(ids[i])
    {
      CommaJoinParses(ids, i);
    }
  }

  lemma NoCommaInDisplay(id: SteamId)
    ensures ',' !in Display(id)
  {
    var s := Display(id);
    assert forall k :: 0 <= k < |s| ==> IsDigit(s[k]);
  }

  /** Capacity for the two-id test with `", "`: twice 20 digits and one
      separator. */
  lemma TestCapacity()
    ensures Capacity(2, |", "|) == 42
  {
  }

  /** Two ids give their texts around one separator. */
  lemma TwoIds(a: SteamId, b: SteamId, sep: string, f: SteamId -> string)
    ensures ToSteamIdStringWith([a, b], sep, f) == f(a) + sep + f(b)
  {
    assert Texts([a, b], f) == [f(a), f(b)];
    assert [f(a), f(b)][1..] == [f(b)];
    assert Join([f(a), f(b)], sep) == f(a) + sep + Join([f(b)], sep);
  }

  // ---------------------------------------------------------------------
  // The tests' two ids

  /** The two ids of the tests, 76561197960287930 and 76561197985607672,
      joined with `", "`: in decimal, and through the unwrapped `STEAM_X:Y:Z`
      and `[L:1:W]` forms of the legacy id, for any `f` and `g` that agree
      with those unwraps where they do not panic. */
  lemma JoinExample(a: SteamId, b: SteamId, f: SteamId -> string, g: SteamId -> string)
    requires a.raw == 76561197960287930 && b.raw == 76561197985607672
    requires forall id :: SteamIdLegacy.ToSteamId(id).Some? ==> f(id) == SteamIdLegacy.ToSteamId(id).value
    requires forall id :: SteamIdLegacy.ToSteamId3(id).Some? ==> g(id) == SteamIdLegacy.ToSteamId3(id).value
    ensures ToSteamIdString([a, b], ", ") == "76561197960287930, 76561197985607672"
    ensures ToSteamIdStringWith([a, b], ", ", f) == "STEAM_1:0:11101, STEAM_1:0:12670972"
    ensures ToSteamIdStringWith([a, b], ", ", g) == "[U:1:22202], [U:1:25341944]"
  {
    ExampleFields(a, b);
    DecimalExample(a, b);
    Steam2Example(a, b, f);
    Steam3Example(a, b, g);
  }

  lemma DecimalExample(a: SteamId, b: SteamId)
    requires a.raw == 76561197960287930 && b.raw == 76561197985607672
    ensures ToSteamIdString([a, b], ", ") == "76561197960287930, 76561197985607672"
  {
    TwoIds(a, b, ", ", Display);
    Text76561197960287930();
    Text76561197985607672();
    JoinedDecimal();
  }

  lemma JoinedDecimal()
    ensures "76561197960287930" + ", " + "76561197985607672" == "76561197960287930, 76561197985607672"
  {
  }

  lemma Steam2Example(a: SteamId, b: SteamId, f: SteamId -> string)
    requires a.UniverseCode() == 1 && a.TypeCode() == 1 && a.Y() == 0 && a.AccNr() == 11101
    requires b.UniverseCode() == 1 && b.TypeCode() == 1 && b.Y() == 0 && b.AccNr() == 12670972
    requires forall id :: SteamIdLegacy.ToSteamId(id).Some? ==> f(id) == SteamIdLegacy.ToSteamId(id).value
    ensures ToSteamIdStringWith([a, b], ", ", f) == "STEAM_1:0:11101, STEAM_1:0:12670972"
  {
    TwoIds(a, b, ", ", f);
    PublicIndividual(a, a.AccNr(), a.W());
    PublicIndividual(b, b.AccNr(), b.W());
    Text11101();
    Text12670972();
    Steam2Of(a.AccNr(), "11101");
    Steam2Of(b.AccNr(), "12670972");
    JoinedSteam2();
  }

  lemma JoinedSteam2()
    ensures ("STEAM_1:0:" + "11101") + ", " + ("STEAM_1:0:" + "12670972") == "STEAM_1:0:11101, STEAM_1:0:12670972"
  {
  }

  lemma Steam3Example(a: SteamId, b: SteamId, g: SteamId -> string)
    requires a.UniverseCode() == 1 && a.TypeCode() == 1 && a.Y() == 0 && a.W() == 22202
    requires b.UniverseCode() == 1 && b.TypeCode() == 1 && b.Y() == 0 && b.W() == 25341944
    requires forall id :: SteamIdLegacy.ToSteamId3(id).Some? ==> g(id) == SteamIdLegacy.ToSteamId3(id).value
    ensures ToSteamIdStringWith([a, b], ", ", g) == "[U:1:22202], [U:1:25341944]"
  {
    TwoIds(a, b, ", ", g);
    PublicIndividual(a, a.AccNr(), a.W());
    PublicIndividual(b, b.AccNr(), b.W());
    Text22202();
    Text25341944();
    Steam3Of(a.W(), "22202");
    Steam3Of(b.W(), "25341944");
    JoinedSteam3();
  }

  lemma JoinedSteam3()
    ensures ("[U:1:" + "22202" + "]") + ", " + ("[U:1:" + "25341944" + "]") == "[U:1:22202], [U:1:25341944]"
  {
  }

  lemma Steam2Of(z: nat, t: string)
    requires NatToString(z) == t
    ensures Steam2(1, 0, z) == "STEAM_1:0:" + t
  {
    assert NatToString(1) == "1" && NatToString(0) == "0";
  }

  lemma Steam3Of(w: nat, t: string)
    requires NatToString(w) == t
    ensures Steam3('U', w) == "[U:1:" + t + "]"
  {
  }

  lemma ExampleFields(a: SteamId, b: SteamId)
    requires a.raw == 76561197960287930 && b.raw == 76561197985607672
    ensures a.UniverseCode() == 1 && a.TypeCode() == 1 && a.Y() == 0
    ensures a.AccNr() == 11101 && a.W() == 22202
    ensures b.UniverseCode() == 1 && b.TypeCode() == 1 && b.Y() == 0
    ensures b.AccNr() == 12670972 && b.W() == 25341944
  {
    ExampleArithmetic(a.raw, 38280598980143965, 11101, 22202);
    ExampleArithmetic(b.raw, 38280598992803836, 12670972, 25341944);
  }

  lemma ExampleArithmetic(x: nat, half: nat, z: nat, w: nat)
    requires x == 2 * half && half == 0x8000_0000 * 17825793 + z && z < 0x8000_0000
    requires w == 2 * z && x == 0x1_0000_0000 * 17825793 + w
    requires x / 0x100_0000_0000_0000 == 1 && (x / 0x10_0000_0000_0000) % 16 == 1
    ensures x % 2 == 0 && (x / 2) % 0x8000_0000 == z && x % 0x1_0000_0000 == w
  {
  }

  /** An id in the public universe of an individual account with `Y = 0`
      prints as `STEAM_1:0:Z` and `[U:1:W]`. */
  lemma PublicIndividual(id: SteamId, z: nat, w: nat)
    requires id.UniverseCode() == 1 && id.TypeCode() == 1 && id.Y() == 0
    requires id.AccNr() == z && id.W() == w
    ensures SteamIdLegacy.ToSteamId(id) == Some(Steam2(1, 0, z))
    ensures SteamIdLegacy.ToSteamId3(id) == Some(Steam3('U', w))
  {
    SteamIdLegacy.TextFormsAgree(id);
  }

  /** The text of `11101`, one digit at a time. */
  lemma Text11101()
    ensures NatToString(11101) == "11101"
  {
    var t := NatToString(1);
    NatToStringSnoc(11, t);
    t := t + [DigitChar(1)];
    NatToStringSnoc(111, t);
    t := t + [DigitChar(1)];
    NatToStringSnoc(1110, t);
    t := t + [DigitChar(0)];
    NatToStringSnoc(11101, t);
    t := t + [DigitChar(1)];
    assert t == "11101";
  }

  /** The text of `12670972`, one digit at a time. */
  lemma Text12670972()
    ensures NatToString(12670972) == "12670972"
  {
    var t := NatToString(1);
    NatToStringSnoc(12, t);
    t := t + [DigitChar(2)];
    NatToStringSnoc(126, t);
    t := t + [DigitChar(6)];
    NatToStringSnoc(1267, t);
    t := t + [DigitChar(7)];
    NatToStringSnoc(12670, t);
    t := t + [DigitChar(0)];
    NatToStringSnoc(126709, t);
    t := t + [DigitChar(9)];
    NatToStringSnoc(1267097, t);
    t := t + [DigitChar(7)];
    NatToStringSnoc(12670972, t);
    t := t + [DigitChar(2)];
    assert t == "12670972";
  }

  /** The text of `22202`, one digit at a time. */
  lemma Text22202()
    ensures NatToString(22202) == "22202"
  {
    var t := NatToString(2);
    NatToStringSnoc(22, t);
    t := t + [DigitChar(2)];
    NatToStringSnoc(222, t);
    t := t + [DigitChar(2)];
    NatToStringSnoc(2220, t);
    t := t + [DigitChar(0)];
    NatToStringSnoc(22202, t);
    t := t + [DigitChar(2)];
    assert t == "22202";
  }

  /** The text of `25341944`, one digit at a time. */
  lemma Text25341944()
    ensures NatToString(25341944) == "25341944"
  {
    var t := NatToString(2);
    NatToStringSnoc(25, t);
    t := t + [DigitChar(5)];
    NatToStringSnoc(253, t);
    t := t + [DigitChar(3)];
    NatToStringSnoc(2534, t);
    t := t + [DigitChar(4)];
    NatToStringSnoc(25341, t);
    t := t + [DigitChar(1)];
    NatToStringSnoc(253419, t);
    t := t + [DigitChar(9)];
    NatToStringSnoc(2534194, t);
    t := t + [DigitChar(4)];
    NatToStringSnoc(25341944, t);
    t := t + [DigitChar(4)];
    assert t == "25341944";
  }

  /** The text of `76561197960287930`, one digit at a time. */
  lemma Text76561197960287930()
    ensures NatToString(76561197960287930) == "76561197960287930"
  {
    var t := NatToString(7);
    NatToStringSnoc(76, t);
    t := t + [DigitChar(6)];
    NatToStringSnoc(765, t);
    t := t + [DigitChar(5)];
    NatToStringSnoc(7656, t);
    t := t + [DigitChar(6)];
    NatToStringSnoc(76561, t);
    t := t + [DigitChar(1)];
    NatToStringSnoc(765611, t);
    t := t + [DigitChar(1)];
    NatToStringSnoc(7656119, t);
    t := t + [DigitChar(9)];
    NatToStringSnoc(76561197, t);
    t := t + [DigitChar(7)];
    NatToStringSnoc(765611979, t);
    t := t + [DigitChar(9)];
    NatToStringSnoc(7656119796, t);
    t := t + [DigitChar(6)];
    NatToStringSnoc(76561197960, t);
    t := t + [DigitChar(0)];
    NatToStringSnoc(765611979602, t);
    t := t + [DigitChar(2)];
    NatToStringSnoc(7656119796028, t);
    t := t + [DigitChar(8)];
    NatToStringSnoc(76561197960287, t);
    t := t + [DigitChar(7)];
    NatToStringSnoc(765611979602879, t);
    t := t + [DigitChar(9)];
    NatToStringSnoc(7656119796028793, t);
    t := t + [DigitChar(3)];
    NatToStringSnoc(76561197960287930, t);
    t := t + [DigitChar(0)];
    assert t == "76561197960287930";
  }

  /** The text of `76561197985607672`, one digit at a time. */
  lemma Text76561197985607672()
    ensures NatToString(76561197985607672) == "76561197985607672"
  {
    var t := NatToString(7);
    NatToStringSnoc(76, t);
    t := t + [DigitChar(6)];
    NatToStringSnoc(765, t);
    t := t + [DigitChar(5)];
    NatToStringSnoc(7656, t);
    t := t + [DigitChar(6)];
    NatToStringSnoc(76561, t);
    t := t + [DigitChar(1)];
    NatToStringSnoc(765611, t);
    t := t + [DigitChar(1)];
    NatToStringSnoc(7656119, t);
    t := t + [DigitChar(9)];
    NatToStringSnoc(76561197, t);
    t := t + [DigitChar(7)];
    NatToStringSnoc(765611979, t);
    t := t + [DigitChar(9)];
    NatToStringSnoc(7656119798, t);
    t := t + [DigitChar(8)];
    NatToStringSnoc(76561197985, t);
    t := t + [DigitChar(5)];
    NatToStringSnoc(765611979856, t);
    t := t + [DigitChar(6)];
    NatToStringSnoc(7656119798560, t);
    t := t + [DigitChar(0)];
    NatToStringSnoc(76561197985607, t);
    t := t + [DigitChar(7)];
    NatToStringSnoc(765611979856076, t);
    t := t + [DigitChar(6)];
    NatToStringSnoc(7656119798560767, t);
    t := t + [DigitChar(7)];
    NatToStringSnoc(76561197985607672, t);
    t := t + [DigitChar(2)];
    assert t == "76561197985607672";
  }
}
