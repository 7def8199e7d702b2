/** The request side the newer player-bans and player-summaries methods
    share: the ids are sorted and stripped of repeats, more than 100
    distinct ids are refused, and the rest go into the `steamids` query as
    decimal numbers joined by commas. The join goes through
    `SteamIdQueryExt`, whose file is not part of this model; it is taken to
    be the crate-root `to_steam_id_string`. */
module Batches {
  import opened Wrappers
  import opened Bits
  import opened Strings
  import opened SortedSets
  import opened SteamIds
  import opened SteamIdExt
  import opened Clients

  /** `PLAYER_SUMMARIES_IDS_PER_REQUEST` and `PLAYER_BANS_IDS_PER_REQUEST`. */
  const PLAYER_SUMMARIES_IDS_PER_REQUEST: nat := 100
  const PLAYER_BANS_IDS_PER_REQUEST: nat := 100

  /** The ids' numbers, in order. */
  function Raws(ids: seq<SteamId>): (rs: seq<nat>)
    ensures |rs| == |ids| && forall i :: 0 <= i < |ids| ==> rs[i] == ids[i].raw
  {
    seq(|ids|, i requires 0 <= i < |ids| => ids[i].raw)
  }

  /** The distinct numbers among the ids. */
  function Distinct(ids: seq<SteamId>): set<nat> {
    Elems(Raws(ids))
  }

  /** `sort_unstable` then `dedup` on ids, which order by their number. */
  function SortDedupIds(ids: seq<SteamId>): (ds: seq<SteamId>)
    ensures Raws(ds) == SortDedup(Raws(ids))
    ensures Increasing(Raws(ds)) && Distinct(ds) == Distinct(ids) && |ds| == |Distinct(ids)|
    ensures forall id :: id in ds <==> id in ids
  {
    var rs := SortDedup(Raws(ids));
    assert forall i :: 0 <= i < |rs| ==> rs[i] < U64_LIMIT by {
      forall i | 0 <= i < |rs|
        ensures rs[i] < U64_LIMIT
      {
        assert rs[i] in Elems(Raws(ids));
      }
    }
    var ds := seq(|rs|, i requires 0 <= i < |rs| => SteamId(rs[i]));
    assert Raws(ds) == rs;
    IncreasingCard(rs);
    forall id | id in ids
      ensures id in ds
    {
      var i :| 0 <= i < |ids| && ids[i] == id;
      assert id.raw in Elems(Raws(ids));
      var j :| 0 <= j < |rs| && rs[j] == id.raw;
      assert ds[j] == id;
    }
    forall id | id in ds
      ensures id in ids
    {
      var j :| 0 <= j < |ds| && ds[j] == id;
      assert rs[j] in Elems(Raws(ids));
      var i :| 0 <= i < |ids| && Raws(ids)[i] == rs[j];
      assert ids[i] == id;
    }
    ds
  }

  /** The `steamids` query, or `None` when there are more than `limit`
      distinct ids and no request is made. */
  function SteamIdsQuery(ids: seq<SteamId>, limit: nat): Option<string> {
    var ds := SortDedupIds(ids);
    if |ds| > limit then None else Some(ToSteamIdString(ds, ","))
  }

  /** The query is refused exactly when there are more than `limit`
      distinct ids, so repeats alone never refuse it. Otherwise it splits at
      its commas into one decimal id per distinct id, ascending, each
      parsing back to an id the caller passed. */
  lemma SteamIdsQuerySpec(ids: seq<SteamId>, limit: nat)
    ensures SteamIdsQuery(ids, limit).None? <==> |Distinct(ids)| > limit
    ensures SteamIdsQuery(ids, limit).Some? && ids != [] ==>
              |Split(SteamIdsQuery(ids, limit).value, ',')| == |SortDedupIds(ids)| &&
              forall i :: 0 <= i < |SortDedupIds(ids)| ==>
                FromStr(Split(SteamIdsQuery(ids, limit).value, ',')[i]) == Ok(SortDedupIds(ids)[i])
    ensures SteamIdsQuery(ids, limit).Some? && ids == [] ==> SteamIdsQuery(ids, limit).value == ""
  {
    var ds := SortDedupIds(ids);
    if SteamIdsQuery(ids, limit).Some? && ids != [] {
      assert ids[0] in ds;
      CommaJoinParsesAll(ds);
    }
  }

  /** Ids with the same members give the same query, whatever their order
      and repeats. */
  lemma QueryIgnoresOrderAndRepeats(a: seq<SteamId>, b: seq<SteamId>, limit: nat)
    requires forall id :: id in a <==> id in b
    ensures SteamIdsQuery(a, limit) == SteamIdsQuery(b, limit)
  {
    assert Distinct(a) == Distinct(b) by {
      forall x | x in Distinct(a)
        ensures x in Distinct(b)
      {
        var i :| 0 <= i < |a| && Raws(a)[i] == x;
        assert a[i] in b;
        var j :| 0 <= j < |b| && b[j] == a[i];
        assert Raws(b)[j] == x;
      }
      forall x | x in Distinct(b)
        ensures x in Distinct(a)
      {
        var j :| 0 <= j < |b| && Raws(b)[j] == x;
        assert b[j] in a;
        var i :| 0 <= i < |a| && a[i] == b[j];
        assert Raws(a)[i] == x;
      }
    }
    SortDedupCanonical(Raws(a), Raws(b));
    RawsInjective(SortDedupIds(a), SortDedupIds(b));
  }

  /** Ids are determined by their numbers. */
  lemma RawsInjective(a: seq<SteamId>, b: seq<SteamId>)
    requires Raws(a) == Raws(b)
    ensures a == b
  {
    assert |a| == |Raws(a)| == |b|;
    forall i | 0 <= i < |a|
      ensures a[i] == b[i]
    {
      assert Raws(a)[i] == Raws(b)[i];
    }
  }

  /** The request of a batch method: refused when there are more than
      `limit` distinct ids, otherwise `get_json` with the query, where
      `net(q)` is how the attempts with query `q` go. */
  function Request<T>(c: Client, ids: seq<SteamId>, limit: nat, net: string -> nat -> Attempt<T>): (r: Option<(Result<T, HttpError>, Client)>)
    ensures r.None? <==> |Distinct(ids)| > limit
    ensures r.Some? ==> r.value == GetJson(c, net(ToSteamIdString(SortDedupIds(ids), ",")))
  {
    SteamIdsQuerySpec(ids, limit);
    match SteamIdsQuery(ids, limit)
    case None => None
    case Some(q) => Some(GetJson(c, net(q)))
  }

  /** A batch request depends on the ids only through the set of them. */
  lemma RequestIgnoresOrderAndRepeats<T>(c: Client, a: seq<SteamId>, b: seq<SteamId>, limit: nat, net: string -> nat -> Attempt<T>)
    requires forall id :: id in a <==> id in b
    ensures Request(c, a, limit, net) == Request(c, b, limit, net)
  {
    QueryIgnoresOrderAndRepeats(a, b, limit);
  }
}
