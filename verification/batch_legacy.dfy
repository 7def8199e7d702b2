/** The request side the crate-root player-bans and player-summaries
    methods share: more than 100 ids are refused outright, a repeated id
    is refused, the ids go into the query in the caller's order, and each
    requested id starts out in the result map as `None` until a parsed
    response entry replaces it. */
module BatchesLegacy {
  import opened Wrappers
  import opened Maps
  import opened Clients
  import opened SteamIds
  import opened SteamIdExt
  import Strings

  /** No id occurs twice. */
  predicate Unique(ids: seq<SteamId>) {
    forall i, j :: 0 <= i < j < |ids| ==> ids[i] != ids[j]
  }

  /** `ids[j]` is the first id equal to an earlier one. */
  predicate FirstRepeatAt(ids: seq<SteamId>, j: int) {
    && 0 <= j < |ids|
    && (exists i :: 0 <= i < j && ids[i] == ids[j])
    && forall a, b :: 0 <= a < b < j ==> ids[a] != ids[b]
  }

  /** There is one first repeat. */
  lemma FirstRepeatUnique(ids: seq<SteamId>, j: nat, j': nat)
    requires FirstRepeatAt(ids, j) && FirstRepeatAt(ids, j')
    ensures j == j'
  {
    var i :| 0 <= i < j && ids[i] == ids[j];
    var i' :| 0 <= i' < j' && ids[i'] == ids[j'];
  }

  /** The loop inserting `None` for every id, which stops at the first id
      `insert` finds already present. */
  function Placeholders<V>(ids: seq<SteamId>): (r: Result<map<SteamId, Option<V>>, SteamId>)
    ensures r.Ok? <==> Unique(ids)
    ensures r.Ok? ==> forall id :: id in r.value <==> id in ids
    ensures r.Ok? ==> forall id :: id in r.value ==> r.value[id] == None
    ensures r.Err? ==> exists j :: FirstRepeatAt(ids, j) && r.error == ids[j]
    decreases |ids|
  {
    if ids == [] then Ok(map[])
    else
      var init, last := ids[..|ids| - 1], ids[|ids| - 1];
      SnocFacts(ids);
      match Placeholders(init)
      case Err(id) => Err(id)
      case Ok(m) =>
        if last in m then Err(last)
        else Ok(m[last := None])
  }

  /** How uniqueness and the first repeat of a list follow from those of
      the list without its last id. */
  lemma SnocFacts(ids: seq<SteamId>)
    requires |ids| > 0
    ensures Unique(ids) <==> Unique(ids[..|ids| - 1]) && ids[|ids| - 1] !in ids[..|ids| - 1]
    ensures forall j :: FirstRepeatAt(ids[..|ids| - 1], j) ==> FirstRepeatAt(ids, j)
    ensures Unique(ids[..|ids| - 1]) && ids[|ids| - 1] in ids[..|ids| - 1] ==> FirstRepeatAt(ids, |ids| - 1)
  {
    var init, last := ids[..|ids| - 1], ids[|ids| - 1];
    assert forall k :: 0 <= k < |init| ==> init[k] == ids[k];
    if last in init {
      var i :| 0 <= i < |init| && init[i] == last;
      assert ids[i] == ids[|ids| - 1];
    }
  }

  /** What can stop a crate-root batch call, before the method names it:
      too many ids, a repeated id, the HTTP error, or the error of parsing
      a response entry. */
  datatype Failure<E> = TooMany | Repeated(id: SteamId) | Http(cause: HttpError) | Parse(error: E)

  /** The ids paired with their parsed entries, under `Some`. */
  function Entries<V>(items: seq<V>, key: V -> SteamId): (ps: seq<(SteamId, Option<V>)>)
    ensures |ps| == |items| && forall i :: 0 <= i < |items| ==> ps[i] == (key(items[i]), Some(items[i]))
  {
    seq(|items|, i requires 0 <= i < |items| => (key(items[i]), Some(items[i])))
  }

  /** One crate-root batch call: `parse` turns a response entry into an
      item and `key` names the item's id; `net(q)` is how the attempts
      with query `q` go. */
  function Fetch<R, V, E>(c: Client, ids: seq<SteamId>, limit: nat, net: string -> nat -> Attempt<seq<R>>,
                          parse: R -> Result<V, E>, key: V -> SteamId): (r: (Result<map<SteamId, Option<V>>, Failure<E>>, Client))
    ensures r.0 == Err(TooMany) <==> |ids| > limit
    ensures (exists id :: r.0 == Err(Repeated(id))) <==> |ids| <= limit && !Unique(ids)
    ensures r.0.Err? && r.0.error.Repeated? ==> exists j :: FirstRepeatAt(ids, j) && r.0.error.id == ids[j]
    ensures r.0.Err? && (r.0.error.TooMany? || r.0.error.Repeated?) ==> r.1 == c
    ensures |ids| <= limit && Unique(ids) ==> r.1 == GetJson(c, net(ToSteamIdString(ids, ","))).1
    ensures |ids| <= limit && Unique(ids) ==>
              var g := GetJson(c, net(ToSteamIdString(ids, ","))).0;
              && (g.Err? ==> r.0 == Err(Http(g.error)))
              && (g.Ok? && TryMap(g.value, parse).Err? ==> r.0 == Err(Parse(TryMap(g.value, parse).error)))
              && (g.Ok? ==> forall i :: FirstErrAt(g.value, parse, i) ==> r.0 == Err(Parse(parse(g.value[i]).error)))
              && (g.Ok? && TryMap(g.value, parse).Ok? ==> r.0 == Ok(Merged(ids, TryMap(g.value, parse).value, key)))
  {

    if |ids| > limit then (Err(TooMany), c)
    else
      match Placeholders<V>(ids)
      case Err(id) => (Err(Repeated(id)), c)
      case Ok(m) =>
        var (json, c') := GetJson(c, net(ToSteamIdString(ids, ",")));
        match json
        case Err(e) => (Err(Http(e)), c')
        case Ok(raws) =>
          assert forall i :: FirstErrAt(raws, parse, i) ==> TryMap(raws, parse) == Err(parse(raws[i]).error) by {
            forall i | FirstErrAt(raws, parse, i)
              ensures TryMap(raws, parse) == Err(parse(raws[i]).error)
            {
              TryMapFirstErr(raws, parse, i);
            }
          }
          match TryMap(raws, parse)
          case Err(e) => (Err(Parse(e)), c')
          case Ok(items) => (Ok(InsertAll(m, Entries(items, key))), c')
  }

  /** The placeholders with the parsed entries inserted. */
  function Merged<V>(ids: seq<SteamId>, items: seq<V>, key: V -> SteamId): map<SteamId, Option<V>>
    requires Unique(ids)
  {
    InsertAll(Placeholders<V>(ids).value, Entries(items, key))
  }

  /** Every requested id is a key; an id no entry names stays `None`; an
      entry's id is a key holding the last entry with that id, even when
      it was not requested; and no other id is a key. */
  lemma MergedSpec<V>(ids: seq<SteamId>, items: seq<V>, key: V -> SteamId)
    requires Unique(ids)
    ensures forall id :: id in Merged(ids, items, key) <==> id in ids || exists i :: 0 <= i < |items| && key(items[i]) == id
    ensures forall id :: id in ids && (forall i :: 0 <= i < |items| ==> key(items[i]) != id) ==> Merged(ids, items, key)[id] == None
    ensures forall i :: LastWith(items, key, i) ==> Merged(ids, items, key)[key(items[i])] == Some(items[i])
  {
    var m := Placeholders<V>(ids).value;
    var ps := Entries(items, key);
    InsertAllSpec(m, ps);
    forall id | Names(ps, id)
      ensures exists i :: 0 <= i < |items| && key(items[i]) == id
    {
      var i :| 0 <= i < |ps| && ps[i].0 == id;
      assert key(items[i]) == id;
    }
    forall id, i | 0 <= i < |items| && key(items[i]) == id
      ensures Names(ps, id)
    {
      assert ps[i].0 == id;
    }
    forall i | LastWith(items, key, i)
      ensures InsertAll(m, ps)[key(items[i])] == Some(items[i])
    {
      assert forall j :: i < j < |ps| ==> ps[j].0 == key(items[j]);
      assert LastFor(ps, key(items[i]), i);
    }
  }

  /** When the request goes through and every entry parses, the call
      returns the merged map and the counter `get_json` left. */
  lemma FetchOk<R, V, E>(c: Client, ids: seq<SteamId>, limit: nat, net: string -> nat -> Attempt<seq<R>>,
                         parse: R -> Result<V, E>, key: V -> SteamId, raws: seq<R>, items: seq<V>)
    requires |ids| <= limit && Unique(ids)
    requires GetJson(c, net(ToSteamIdString(ids, ","))).0 == Ok(raws)
    requires TryMap(raws, parse) == Ok(items)
    ensures Fetch(c, ids, limit, net, parse, key) == (Ok(Merged(ids, items, key)), GetJson(c, net(ToSteamIdString(ids, ","))).1)
  {
  }

  /** The query lists the requested ids in the caller's order, each
      parsing back from its comma-separated piece. */
  lemma QueryInCallerOrder(ids: seq<SteamId>)
    requires |ids| >= 1
    ensures |Strings.Split(ToSteamIdString(ids, ","), ',')| == |ids|
    ensures forall i :: 0 <= i < |ids| ==> FromStr(Strings.Split(ToSteamIdString(ids, ","), ',')[i]) == Ok(ids[i])
  {
    CommaJoinParsesAll(ids);
  }
}
