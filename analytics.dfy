/** The analytics engine (`calculate_analytics`): rated episodes flattened across seasons,
    per-season averages of the seasons that have ratings, the first lowest and highest
    rated episodes, the overall average, and the best and worst seasons. Ratings are
    reals; `round(x, 2)` is the parameter `round2`. */
module Analytics {
  import opened Wrappers
  import opened Json
  import opened Records

  /** An entry of `all_episodes`. */
  datatype RatedEpisode = RatedEpisode(season: int, episode: int, title: Json, rating: real)

  /** An entry of `season_averages`. */
  datatype SeasonAverage = SeasonAverage(season: int, average: real, episodeCount: nat)

  datatype Summary = Summary(
    minEpisode: Option<RatedEpisode>,
    maxEpisode: Option<RatedEpisode>,
    overallAverage: Option<real>,
    seasonAverages: seq<SeasonAverage>,
    bestSeason: Option<SeasonAverage>,
    worstSeason: Option<SeasonAverage>,
    totalEpisodes: nat)

  /** The summary returned when no episode has a rating. */
  const NoData := Summary(None, None, None, [], None, None, 0)

  // ---------------------------------------------------------------------------
  // the specification of the two accumulations

  /** The rated episodes of one season, in order, tagged with the season number. */
  function RatedIn(season: int, eps: seq<Episode>): (r: seq<RatedEpisode>)
    ensures |r| <= |eps|
    ensures forall e :: e in r ==> e.season == season
  {
    if eps == [] then []
    else
      var last := eps[|eps| - 1];
      RatedIn(season, eps[..|eps| - 1]) +
        (if last.rating.Some? then [RatedEpisode(season, last.number, last.title, last.rating.value)] else [])
  }

  /** `all_episodes`: every rated episode, season by season. */
  function AllRated(seasons: seq<Season>): seq<RatedEpisode>
  {
    if seasons == [] then []
    else
      var last := seasons[|seasons| - 1];
      AllRated(seasons[..|seasons| - 1]) + RatedIn(last.number, last.episodes)
  }

  function Ratings(rs: seq<RatedEpisode>): (r: seq<real>)
    ensures |r| == |rs|
    ensures forall i :: 0 <= i < |rs| ==> r[i] == rs[i].rating
  {
    seq(|rs|, i requires 0 <= i < |rs| => rs[i].rating)
  }

  function Sum(xs: seq<real>): real
  {
    if xs == [] then 0.0 else Sum(xs[..|xs| - 1]) + xs[|xs| - 1]
  }

  function Mean(xs: seq<real>): real
    requires xs != []
  {
    Sum(xs) / |xs| as real
  }

  /** The entry of a season in `season_averages`, if it has a rated episode. */
  function SeasonEntry(s: Season): seq<SeasonAverage>
  {
    var rs := Ratings(RatedIn(s.number, s.episodes));
    if rs == [] then [] else [SeasonAverage(s.number, Mean(rs), |rs|)]
  }

  /** `season_averages`: one entry per season that has a rated episode, in input order. */
  function SeasonAverages(seasons: seq<Season>): seq<SeasonAverage>
  {
    if seasons == [] then []
    else SeasonAverages(seasons[..|seasons| - 1]) + SeasonEntry(seasons[|seasons| - 1])
  }

  function Averages(ss: seq<SeasonAverage>): (r: seq<real>)
    ensures |r| == |ss|
    ensures forall i :: 0 <= i < |ss| ==> r[i] == ss[i].average
  {
    seq(|ss|, i requires 0 <= i < |ss| => ss[i].average)
  }

  // ---------------------------------------------------------------------------
  // Python's min and max with a key: the first element whose key is extreme

  /** `min(range(len(xs)), key=xs.__getitem__)`: it replaces its candidate only by a strictly smaller value. */
  function MinIndex(xs: seq<real>): (k: nat)
    requires xs != []
    ensures k < |xs|
    ensures forall j :: 0 <= j < |xs| ==> xs[k] <= xs[j]
    ensures forall j :: 0 <= j < k ==> xs[j] > xs[k]
  {
    if |xs| == 1 then 0
    else
      var k := MinIndex(xs[..|xs| - 1]);
      if xs[|xs| - 1] < xs[k] then |xs| - 1 else k
  }

  /** `max(range(len(xs)), key=xs.__getitem__)`: it replaces its candidate only by a strictly larger value. */
  function MaxIndex(xs: seq<real>): (k: nat)
    requires xs != []
    ensures k < |xs|
    ensures forall j :: 0 <= j < |xs| ==> xs[j] <= xs[k]
    ensures forall j :: 0 <= j < k ==> xs[j] < xs[k]
  {
    if |xs| == 1 then 0
    else
      var k := MaxIndex(xs[..|xs| - 1]);
      if xs[|xs| - 1] > xs[k] then |xs| - 1 else k
  }

  // ---------------------------------------------------------------------------
  // the reduction

  /** The summary computed from the two accumulations. */
  function Summarize(all: seq<RatedEpisode>, averages: seq<SeasonAverage>, round2: real -> real): Summary
  {
    if all == [] then NoData
    else
      var rs := Ratings(all);
      Summary(
        Some(all[MinIndex(rs)]),
        Some(all[MaxIndex(rs)]),
        Some(round2(Mean(rs))),
        averages,
        if averages != [] then Some(averages[MaxIndex(Averages(averages))]) else None,
        if averages != [] then Some(averages[MinIndex(Averages(averages))]) else None,
        |all|)
  }

  /** What `calculate_analytics` returns for the enumerated seasons. */
  function Analysis(seasons: seq<Season>, round2: real -> real): Summary
  {
    Summarize(AllRated(seasons), SeasonAverages(seasons), round2)
  }

  /** `calculate_analytics`: the outer loop over the seasons accumulates `all_episodes`
      and `season_averages`; the reduction follows. */
  method CalculateAnalytics(seasons: seq<Season>, round2: real -> real) returns (summary: Summary)
    ensures summary == Analysis(seasons, round2)
  {
    var all: seq<RatedEpisode> := [];
    var averages: seq<SeasonAverage> := [];
    for i := 0 to |seasons|
      invariant all == AllRated(seasons[..i])
      invariant averages == SeasonAverages(seasons[..i])
    {
      var season := seasons[i];
      var rated, seasonRatings := RateSeason(season);
      all := all + rated;
      if seasonRatings != [] {
        averages := averages + [SeasonAverage(season.number, Sum(seasonRatings) / |seasonRatings| as real, |seasonRatings|)];
      }
      SeasonsSnoc(seasons, i);
    }
    assert seasons[..|seasons|] == seasons;
    summary := Summarize(all, averages, round2);
  }

  /** The inner loop of `calculate_analytics`: the rated episodes of one season, appended
      to `all_episodes`, and their ratings, collected in `season_ratings`. */
  method RateSeason(season: Season) returns (rated: seq<RatedEpisode>, ratings: seq<real>)
    ensures rated == RatedIn(season.number, season.episodes)
    ensures ratings == Ratings(rated)
  {
    rated, ratings := [], [];
    for j := 0 to |season.episodes|
      invariant rated == RatedIn(season.number, season.episodes[..j])
      invariant ratings == Ratings(rated)
    {
      var ep := season.episodes[j];
      RatedInSnoc(season.number, season.episodes, j);
      if ep.rating.Some? {
        var r := RatedEpisode(season.number, ep.number, ep.title, ep.rating.value);
        RatingsSnoc(rated, r);
        rated := rated + [r];
        ratings := ratings + [ep.rating.value];
      }
    }
    assert season.episodes[..|season.episodes|] == season.episodes;
  }

  lemma RatedInSnoc(season: int, eps: seq<Episode>, j: nat)
    requires j < |eps|
    ensures var e := eps[j];
      RatedIn(season, eps[..j + 1]) ==
        RatedIn(season, eps[..j]) + (if e.rating.Some? then [RatedEpisode(season, e.number, e.title, e.rating.value)] else [])
  {
    assert eps[..j + 1][..j] == eps[..j];
  }

  lemma RatingsSnoc(rs: seq<RatedEpisode>, e: RatedEpisode)
    ensures Ratings(rs + [e]) == Ratings(rs) + [e.rating]
  {
  }

  lemma SeasonsSnoc(seasons: seq<Season>, i: nat)
    requires i < |seasons|
    ensures AllRated(seasons[..i + 1]) == AllRated(seasons[..i]) + RatedIn(seasons[i].number, seasons[i].episodes)
    ensures SeasonAverages(seasons[..i + 1]) == SeasonAverages(seasons[..i]) + SeasonEntry(seasons[i])
  {
    assert seasons[..i + 1][..i] == seasons[..i];
  }

  // ---------------------------------------------------------------------------
  // reference counts, defined without building records

  /** The number of episodes of a season whose rating is not None. */
  function CountRated(eps: seq<Episode>): nat
  {
    if eps == [] then 0 else (if eps[0].rating.Some? then 1 else 0) + CountRated(eps[1..])
  }

  /** The number of rated episodes over all seasons. */
  function TotalRated(seasons: seq<Season>): nat
  {
    if seasons == [] then 0 else TotalRated(seasons[..|seasons| - 1]) + CountRated(seasons[|seasons| - 1].episodes)
  }

  /** The positions of the seasons that have a rated episode, in input order. */
  function AverageSources(seasons: seq<Season>): seq<nat>
  {
    if seasons == [] then []
    else
      AverageSources(seasons[..|seasons| - 1]) +
      (if CountRated(seasons[|seasons| - 1].episodes) > 0 then [|seasons| - 1] else [])
  }

  lemma {:induction false} CountRatedSnoc(eps: seq<Episode>, e: Episode)
    ensures CountRated(eps + [e]) == CountRated(eps) + (if e.rating.Some? then 1 else 0)
    decreases |eps|
  {
    if eps != [] {
      assert (eps + [e])[1..] == eps[1..] + [e];
      CountRatedSnoc(eps[1..], e);
    }
  }

  /** A season contributes one record per rated episode, in order. */
  lemma {:induction false} RatedInMatchesEpisodes(season: int, eps: seq<Episode>)
    ensures |RatedIn(season, eps)| == CountRated(eps)
    ensures forall e :: e in RatedIn(season, eps) <==>
      exists j :: 0 <= j < |eps| && eps[j].rating.Some? &&
        e == RatedEpisode(season, eps[j].number, eps[j].title, eps[j].rating.value)
    decreases |eps|
  {
    if eps != [] {
      var init := eps[..|eps| - 1];
      var last := eps[|eps| - 1];
      RatedInMatchesEpisodes(season, init);
      assert init + [last] == eps;
      CountRatedSnoc(init, last);
      forall e
        ensures e in RatedIn(season, eps) <==>
          exists j :: 0 <= j < |eps| && eps[j].rating.Some? &&
            e == RatedEpisode(season, eps[j].number, eps[j].title, eps[j].rating.value)
      {
        if e in RatedIn(season, init) {
          var j :| 0 <= j < |init| && init[j].rating.Some? &&
            e == RatedEpisode(season, init[j].number, init[j].title, init[j].rating.value);
          assert eps[j] == init[j];
        }
        if exists j :: 0 <= j < |eps| && eps[j].rating.Some? &&
            e == RatedEpisode(season, eps[j].number, eps[j].title, eps[j].rating.value) {
          var j :| 0 <= j < |eps| && eps[j].rating.Some? &&
            e == RatedEpisode(season, eps[j].number, eps[j].title, eps[j].rating.value);
          if j < |init| {
            assert init[j] == eps[j];
          }
        }
      }
    }
  }

  /** `total_episodes` counts the episodes whose rating is not None, and the all-None
      summary is returned exactly when there are none. */
  lemma {:induction false} TotalEpisodesCountsRatings(seasons: seq<Season>, round2: real -> real)
    ensures Analysis(seasons, round2).totalEpisodes == TotalRated(seasons)
    ensures TotalRated(seasons) == 0 <==> Analysis(seasons, round2) == NoData
    decreases |seasons|
  {
    AllRatedCount(seasons);
  }

  lemma {:induction false} AllRatedCount(seasons: seq<Season>)
    ensures |AllRated(seasons)| == TotalRated(seasons)
    decreases |seasons|
  {
    if seasons != [] {
      AllRatedCount(seasons[..|seasons| - 1]);
      var last := seasons[|seasons| - 1];
      RatedInMatchesEpisodes(last.number, last.episodes);
    }
  }

  /** The positions of the averaged seasons ascend, and they are exactly the seasons with
      a rated episode. */
  lemma {:induction false} AverageSourcesShape(seasons: seq<Season>)
    ensures var src := AverageSources(seasons);
      && (forall a, b :: 0 <= a < b < |src| ==> src[a] < src[b])
      && (forall k :: 0 <= k < |src| ==> src[k] < |seasons|)
      && (forall i :: 0 <= i < |seasons| ==> (i in src <==> CountRated(seasons[i].episodes) > 0))
    decreases |seasons|
  {
    if seasons != [] {
      var init := seasons[..|seasons| - 1];
      AverageSourcesShape(init);
      forall i | 0 <= i < |init|
        ensures i in AverageSources(seasons) <==> CountRated(seasons[i].episodes) > 0
      {
        assert seasons[i] == init[i];
      }
    }
  }

  /** The entry of a season in `season_averages`: its number, the mean of its ratings and
      its rated count. */
  predicate IsAverageOf(entry: SeasonAverage, s: Season)
  {
    var rs := Ratings(RatedIn(s.number, s.episodes));
    rs != [] && entry == SeasonAverage(s.number, Mean(rs), CountRated(s.episodes))
  }

  /** `season_averages` has one entry per averaged season position, in that order. */
  lemma {:induction false} SeasonAveragesShape(seasons: seq<Season>)
    ensures var src := AverageSources(seasons);
      var avgs := SeasonAverages(seasons);
      |src| == |avgs| &&
      forall k :: 0 <= k < |src| ==> src[k] < |seasons| && IsAverageOf(avgs[k], seasons[src[k]])
    decreases |seasons|
  {
    if seasons != [] {
      var init := seasons[..|seasons| - 1];
      var last := seasons[|seasons| - 1];
      SeasonAveragesShape(init);
      RatedInMatchesEpisodes(last.number, last.episodes);
      var src, avgs := AverageSources(init), SeasonAverages(init);
      assert AverageSources(seasons) == src + (if CountRated(last.episodes) > 0 then [|init|] else []);
      assert SeasonAverages(seasons) == avgs + SeasonEntry(last);
      forall k | 0 <= k < |src|
        ensures AverageSources(seasons)[k] < |seasons| && IsAverageOf(SeasonAverages(seasons)[k], seasons[AverageSources(seasons)[k]])
      {
        assert seasons[src[k]] == init[src[k]];
      }
    }
  }

  /** There is a season average exactly when there is a rated episode. */
  lemma {:induction false} SeasonAveragesPresent(seasons: seq<Season>)
    ensures SeasonAverages(seasons) == [] <==> AllRated(seasons) == []
    decreases |seasons|
  {
    if seasons != [] {
      var last := seasons[|seasons| - 1];
      SeasonAveragesPresent(seasons[..|seasons| - 1]);
      RatedInMatchesEpisodes(last.number, last.episodes);
    }
  }

  /** `min_episode` and `max_episode` are the first rated entries whose rating is lowest
      (highest). */
  lemma ExtremeEpisodesAreFirst(all: seq<RatedEpisode>, averages: seq<SeasonAverage>, round2: real -> real)
    requires all != []
    ensures var a := Summarize(all, averages, round2);
      && a.minEpisode.Some? && a.maxEpisode.Some?
      && (exists k :: 0 <= k < |all| && all[k] == a.minEpisode.value &&
            (forall j :: 0 <= j < |all| ==> a.minEpisode.value.rating <= all[j].rating) &&
            (forall j :: 0 <= j < k ==> all[j].rating > a.minEpisode.value.rating))
      && (exists k :: 0 <= k < |all| && all[k] == a.maxEpisode.value &&
            (forall j :: 0 <= j < |all| ==> all[j].rating <= a.maxEpisode.value.rating) &&
            (forall j :: 0 <= j < k ==> all[j].rating < a.maxEpisode.value.rating))
  {
    var rs := Ratings(all);
    var lo, hi := MinIndex(rs), MaxIndex(rs);
    assert Summarize(all, averages, round2).minEpisode == Some(all[lo]);
    assert Summarize(all, averages, round2).maxEpisode == Some(all[hi]);
  }

  /** `best_season` and `worst_season` are the first season averages that are highest
      (lowest). */
  lemma BestWorstSeasonsAreFirst(all: seq<RatedEpisode>, averages: seq<SeasonAverage>, round2: real -> real)
    requires all != [] && averages != []
    ensures var a := Summarize(all, averages, round2);
      && a.bestSeason.Some? && a.worstSeason.Some?
      && (exists k :: 0 <= k < |averages| && averages[k] == a.bestSeason.value &&
            (forall j :: 0 <= j < |averages| ==> averages[j].average <= a.bestSeason.value.average) &&
            (forall j :: 0 <= j < k ==> averages[j].average < a.bestSeason.value.average))
      && (exists k :: 0 <= k < |averages| && averages[k] == a.worstSeason.value &&
            (forall j :: 0 <= j < |averages| ==> a.worstSeason.value.average <= averages[j].average) &&
            (forall j :: 0 <= j < k ==> averages[j].average > a.worstSeason.value.average))
  {
    var vs := Averages(averages);
    var best, worst := MaxIndex(vs), MinIndex(vs);
    assert Summarize(all, averages, round2).bestSeason == Some(averages[best]);
    assert Summarize(all, averages, round2).worstSeason == Some(averages[worst]);
  }

  /** `best_season` and `worst_season` are present exactly when some episode is rated. */
  lemma BestWorstSeasonsPresent(seasons: seq<Season>, round2: real -> real)
    ensures Analysis(seasons, round2).bestSeason.Some? <==> AllRated(seasons) != []
    ensures Analysis(seasons, round2).worstSeason.Some? <==> AllRated(seasons) != []
  {
    SeasonAveragesPresent(seasons);
  }

  lemma {:induction false} SumBounds(xs: seq<real>, lo: real, hi: real)
    requires forall i :: 0 <= i < |xs| ==> lo <= xs[i] <= hi
    ensures lo * |xs| as real <= Sum(xs) <= hi * |xs| as real
    decreases |xs|
  {
    if xs != [] {
      SumBounds(xs[..|xs| - 1], lo, hi);
    }
  }

  lemma QuotientBounds(total: real, n: real, lo: real, hi: real)
    requires n > 0.0 && lo * n <= total <= hi * n
    ensures lo <= total / n <= hi
  {
    var q := total / n;
    assert q * n == total;
    assert (q - lo) * n >= 0.0;
    assert (hi - q) * n >= 0.0;
  }

  /** The unrounded mean of the ratings lies between the minimum and the maximum rating. */
  lemma MeanWithinExtremes(xs: seq<real>)
    requires xs != []
    ensures xs[MinIndex(xs)] <= Mean(xs) <= xs[MaxIndex(xs)]
  {
    SumBounds(xs, xs[MinIndex(xs)], xs[MaxIndex(xs)]);
    QuotientBounds(Sum(xs), |xs| as real, xs[MinIndex(xs)], xs[MaxIndex(xs)]);
  }

  /** The overall average, before rounding, lies between the minimum and maximum episodes' ratings. */
  lemma OverallAverageBetweenExtremes(seasons: seq<Season>, round2: real -> real)
    requires AllRated(seasons) != []
    ensures var a := Analysis(seasons, round2);
      var rs := Ratings(AllRated(seasons));
      && a.overallAverage == Some(round2(Mean(rs)))
      && a.minEpisode.value.rating <= Mean(rs) <= a.maxEpisode.value.rating
  {
    MeanWithinExtremes(Ratings(AllRated(seasons)));
  }
}
