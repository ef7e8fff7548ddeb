/** The season enumerator (`get_seasons`): a known season count, then the season count
    of the episodes page's JSON-LD (under `partOfSeries`, then at the top level), then
    the season numbers of the page's season links, then the single season 1. The first
    tier that yields an answer wins. Fetching and parsing the episodes page are left to
    the caller, which passes in the decoded JSON-LD and the `href` of every link the
    season selector matched. */
module Seasons {
  import opened Wrappers
  import opened Text
  import opened Scan
  import opened Json
  import opened Ordering

  /** `list(range(1, n + 1))`: empty when `n <= 0`. */
  function OneTo(n: int): (r: seq<int>)
    ensures |r| == if n > 0 then n else 0
    ensures forall i :: 0 <= i < |r| ==> r[i] == i + 1
  {
    seq(if n > 0 then n else 0, i => i + 1)
  }

  /** The known count counts when it is present and positive. */
  predicate KnownCountApplies(known: Option<int>)
  {
    known.Some? && known.value > 0
  }

  /** The payloads on which the JSON-LD tier runs without raising: on a truthy payload
      `"partOfSeries" in json_ld` is defined, and so is the subscript that follows it when
      the key is found; `"numberOfSeasons" in series_data` is defined; and whichever
      `numberOfSeasons` gets read is an integer. A truthy array that does not hold either
      key as an element passes through to the link tier. */
  predicate SeasonsPayloadOk(j: Json)
  {
    Truthy(j) ==>
      && SupportsIn(j)
      && (In("partOfSeries", j) ==>
            && j.JObj?
            && var series := j.fields["partOfSeries"];
            && SupportsIn(series)
            && (In("numberOfSeasons", series) ==>
                  series.JObj? && IsIntLike(series.fields["numberOfSeasons"])))
      && (In("numberOfSeasons", j) && SeriesCount(j).None? ==>
            j.JObj? && IsIntLike(j.fields["numberOfSeasons"]))
  }

  /** `json_ld["partOfSeries"]["numberOfSeasons"]`, when the payload is truthy and both are present. */
  function SeriesCount(j: Json): Option<int>
  {
    if Truthy(j) && j.JObj? && "partOfSeries" in j.fields then
      var series := j.fields["partOfSeries"];
      if series.JObj? && "numberOfSeasons" in series.fields && IsIntLike(series.fields["numberOfSeasons"])
      then Some(AsInt(series.fields["numberOfSeasons"]))
      else None
    else None
  }

  /** `json_ld["numberOfSeasons"]`, when the payload is truthy and it is present. */
  function TopLevelCount(j: Json): Option<int>
  {
    if Truthy(j) && j.JObj? && "numberOfSeasons" in j.fields && IsIntLike(j.fields["numberOfSeasons"])
    then Some(AsInt(j.fields["numberOfSeasons"]))
    else None
  }

  /** When `partOfSeries` is found, the series tier answers exactly when
      `"numberOfSeasons" in series_data`, with that count. */
  lemma SeriesTier(j: Json)
    requires SeasonsPayloadOk(j) && Truthy(j) && In("partOfSeries", j)
    ensures SupportsIn(j.fields["partOfSeries"])
    ensures SeriesCount(j).Some? <==> In("numberOfSeasons", j.fields["partOfSeries"])
    ensures SeriesCount(j).Some? ==> SeriesCount(j).value == AsInt(j.fields["partOfSeries"].fields["numberOfSeasons"])
  {
  }

  /** Once the series tier has not answered, the top-level tier answers exactly when
      `"numberOfSeasons" in json_ld`, with that count. */
  lemma TopLevelTier(j: Json)
    requires SeasonsPayloadOk(j) && Truthy(j) && SeriesCount(j).None?
    ensures TopLevelCount(j).Some? <==> In("numberOfSeasons", j)
    ensures TopLevelCount(j).Some? ==> TopLevelCount(j).value == AsInt(j.fields["numberOfSeasons"])
  {
  }

  /** `re.search(r'season=(\d+)', href)` read with `int`. */
  function LinkSeason(href: string): (r: Option<int>)
    ensures r.Some? <==> exists i: nat :: PrefixedDigitsAt(href, "season=", i)
    ensures r.Some? ==> r.value >= 0
  {
    match SearchPrefixedDigits(href, "season=")
    case None => None
    case Some(m) => Some(DecimalValue(m.digits))
  }

  /** The season number of a link is `int()` of the digits `re.search` captures: those of
      the leftmost `season=` followed by a digit, taken as one maximal run. */
  lemma LinkSeasonValue(href: string)
    ensures LinkSeason(href).Some? ==>
      exists m :: IsFirstDigitsMatch(href, "season=", m) && LinkSeason(href).value == DecimalValue(m.digits)
  {
  }

  /** Every season number the links carry. */
  function LinkSeasons(hrefs: seq<string>): set<int>
  {
    set h | h in hrefs && LinkSeason(h).Some? :: LinkSeason(h).value
  }

  /** Each link contributes at most one season number. */
  lemma {:induction false} LinkSeasonsBound(hrefs: seq<string>)
    ensures |LinkSeasons(hrefs)| <= |hrefs|
    decreases |hrefs|
  {
    if hrefs != [] {
      var init, h := hrefs[..|hrefs| - 1], hrefs[|hrefs| - 1];
      assert hrefs == init + [h];
      LinkSeasonsSnoc(init, h);
      LinkSeasonsBound(init);
      var extra := if LinkSeason(h).Some? then {LinkSeason(h).value} else {};
      assert |LinkSeasons(init) + extra| <= |LinkSeasons(init)| + |extra|;
    }
  }

  /** Scanning one more link adds its season number, if it carries one. */
  lemma LinkSeasonsSnoc(hrefs: seq<string>, h: string)
    ensures LinkSeasons(hrefs + [h]) ==
      LinkSeasons(hrefs) + (if LinkSeason(h).Some? then {LinkSeason(h).value} else {})
  {
    var extra := if LinkSeason(h).Some? then {LinkSeason(h).value} else {};
    forall x | x in LinkSeasons(hrefs + [h]) ensures x in LinkSeasons(hrefs) + extra {
      var g :| g in hrefs + [h] && LinkSeason(g).Some? && LinkSeason(g).value == x;
      if g != h { assert g in hrefs; }
    }
    forall x | x in LinkSeasons(hrefs) ensures x in LinkSeasons(hrefs + [h]) {
      var g :| g in hrefs && LinkSeason(g).Some? && LinkSeason(g).value == x;
      assert g in hrefs + [h];
    }
  }

  /** The loop over the season links: the set of season numbers they carry. */
  method CollectLinkSeasons(hrefs: seq<string>) returns (found: set<int>)
    ensures found == LinkSeasons(hrefs)
  {
    found := {};
    for i := 0 to |hrefs|
      invariant found == LinkSeasons(hrefs[..i])
    {
      var season := LinkSeason(hrefs[i]);
      if season.Some? {
        found := found + {season.value};
      }
      assert hrefs[..i + 1] == hrefs[..i] + [hrefs[i]];
      LinkSeasonsSnoc(hrefs[..i], hrefs[i]);
    }
    assert hrefs[..|hrefs|] == hrefs;
  }

  /** `get_seasons` once the episodes page has been fetched and parsed. */
  method GetSeasons(known: Option<int>, jsonLd: Json, hrefs: seq<string>) returns (seasons: seq<int>)
    requires SeasonsPayloadOk(jsonLd)
    ensures KnownCountApplies(known) ==> seasons == OneTo(known.value)
    ensures !KnownCountApplies(known) && SeriesCount(jsonLd).Some? ==>
      seasons == OneTo(SeriesCount(jsonLd).value)
    ensures !KnownCountApplies(known) && SeriesCount(jsonLd).None? && TopLevelCount(jsonLd).Some? ==>
      seasons == OneTo(TopLevelCount(jsonLd).value)
    ensures !KnownCountApplies(known) && SeriesCount(jsonLd).None? && TopLevelCount(jsonLd).None? ==>
      seasons == if LinkSeasons(hrefs) != {} then SortedElements(LinkSeasons(hrefs)) else [1]
  {
    if known.Some? && known.value > 0 {
      return OneTo(known.value);
    }
    if Truthy(jsonLd) {
      if In("partOfSeries", jsonLd) {
        SeriesTier(jsonLd);
        var series := jsonLd.fields["partOfSeries"];
        if In("numberOfSeasons", series) {
          return OneTo(AsInt(series.fields["numberOfSeasons"]));
        }
      }
      assert SeriesCount(jsonLd).None?;
      TopLevelTier(jsonLd);
      if In("numberOfSeasons", jsonLd) {
        return OneTo(AsInt(jsonLd.fields["numberOfSeasons"]));
      }
    }
    if hrefs != [] {
      var found := CollectLinkSeasons(hrefs);
      if found != {} {
        return SortedElements(found);
      }
    }
    return [1];
  }

  /** A truthy array payload that holds neither key as an element raises nothing, and the
      JSON-LD tier yields no count for it: `get_seasons` goes on to the season links. */
  lemma ArrayPayloadSkipsJsonTier(items: seq<Json>)
    requires JStr("partOfSeries") !in items && JStr("numberOfSeasons") !in items
    ensures SeasonsPayloadOk(JArr(items))
    ensures SeriesCount(JArr(items)).None? && TopLevelCount(JArr(items)).None?
  {
  }

  /** When the link tier decides, its answer is non-empty and strictly ascending, and
      holds exactly the season numbers of the links. */
  lemma LinkTierShape(hrefs: seq<string>, x: int)
    requires LinkSeasons(hrefs) != {}
    ensures SortedElements(LinkSeasons(hrefs)) != []
    ensures StrictlyAscending(SortedElements(LinkSeasons(hrefs)))
    ensures x in SortedElements(LinkSeasons(hrefs)) <==>
      exists h :: h in hrefs && LinkSeason(h) == Some(x)
  {
    var s := LinkSeasons(hrefs);
    var y :| y in s;
    assert y in SortedElements(s);
  }
}
