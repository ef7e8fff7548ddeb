/** The episode extractor (`get_episode_ratings`) for one season's parsed page: records
    built from the JSON-LD `episode` list and stably sorted by episode number, and only
    when that list is not a non-empty list, the presentation-markup fallback. */
module Episodes {
  import opened Wrappers
  import opened Text
  import opened Json
  import opened Records
  import CssFallback

  // ---------------------------------------------------------------------------
  // the payload shapes on which the JSON-LD tier runs without raising

  /** The `episodeNumber` values covered: None, booleans, integers and strings of ASCII
      digits (`int()` and `str()` of these are modelled exactly). */
  predicate EpisodeNumberOk(v: Json)
  {
    v.JNull? || v.JBool? || v.JInt? || (v.JStr? && AllDigits(v.s))
  }

  /** `agg_rating.get(...)` runs only on a truthy `aggregateRating`, which must be an object. */
  predicate RatingBlockOk(v: Json)
  {
    Truthy(v) ==> v.JObj?
  }

  /** An entry of the `episode` list: an object (`ep_data.get` raises on anything else). */
  predicate EntryOk(e: Json)
  {
    && e.JObj?
    && ("episodeNumber" in e.fields ==> EpisodeNumberOk(e.fields["episodeNumber"]))
    && ("aggregateRating" in e.fields ==> RatingBlockOk(e.fields["aggregateRating"]))
  }

  /** `json_ld.get("episode", [])` of a truthy payload. */
  function EpisodeList(j: Json): Json
    requires Truthy(j) && j.JObj?
  {
    Get(j.fields, "episode", JArr([]))
  }

  predicate EpisodesPayloadOk(j: Json)
  {
    Truthy(j) ==> j.JObj? && (EpisodeList(j).JArr? ==> forall e :: e in EpisodeList(j).items ==> EntryOk(e))
  }

  /** The JSON-LD tier runs: the payload is truthy and its `episode` value is a non-empty list. */
  predicate JsonLdTierApplies(j: Json)
  {
    Truthy(j) && j.JObj? && EpisodeList(j).JArr? && EpisodeList(j).items != []
  }

  // ---------------------------------------------------------------------------
  // Python conversions of the entry's fields

  /** `str(v)` for a covered `episodeNumber` value. */
  function PyStr(v: Json): string
    requires EpisodeNumberOk(v)
  {
    match v
    case JNull => "None"
    case JBool(b) => if b then "True" else "False"
    case JInt(i) => IntToString(i)
    case JStr(s) => s
  }

  /** The number in a default title "Episode {episode_num}" reads back as the record's
      number: `int(str(v)) == int(v)` for a digit string and for a positive integer. */
  lemma PyStrReadsBack(v: Json)
    requires EpisodeNumberOk(v)
    ensures Truthy(v) && (v.JStr? || (v.JInt? && v.i > 0)) ==>
      AllDigits(PyStr(v)) && DecimalValue(PyStr(v)) == PyInt(v)
    ensures v.JInt? ==> PyStr(v) == IntToString(v.i)
    ensures v.JStr? ==> PyStr(v) == v.s
  {
    if v.JInt? {
      IntToStringReadsBack(v.i);
    }
  }

  /** `int(v)` for a truthy covered `episodeNumber` value. */
  function PyInt(v: Json): (n: int)
    requires EpisodeNumberOk(v) && Truthy(v)
    ensures v.JBool? ==> n == 1
    ensures v.JInt? ==> n == v.i
    ensures v.JStr? ==> n >= 0
  {
    match v
    case JBool(b) => 1
    case JInt(i) => i
    case JStr(s) => DecimalValue(s)
  }

  /** `float(v)`, with `ValueError` and `TypeError` swallowed into None. Strings are read by
      `parse`, which stands for Python's float parser. */
  function PyFloat(v: Json, parse: string -> Option<real>): (r: Option<real>)
    ensures v.JBool? ==> r == Some(if v.b then 1.0 else 0.0)
    ensures v.JInt? ==> r == Some(v.i as real)
    ensures v.JFloat? ==> r == Some(v.f)
    ensures v.JStr? ==> r == parse(v.s)
    ensures v.JNull? || v.JArr? || v.JObj? ==> r.None?
  {
    match v
    case JNull => None
    case JBool(b) => Some(if b then 1.0 else 0.0)
    case JInt(i) => Some(i as real)
    case JFloat(f) => Some(f)
    case JStr(s) => parse(s)
    case JArr(_) => None
    case JObj(_) => None
  }

  // ---------------------------------------------------------------------------
  // one record per entry

  /** `episode_num`: `int(episodeNumber)` when it is present and truthy, otherwise the
      1-based position `pos` of the entry. */
  function EntryNumber(fields: map<string, Json>, pos: int): (n: int)
    requires "episodeNumber" in fields ==> EpisodeNumberOk(fields["episodeNumber"])
    ensures "episodeNumber" !in fields || !Truthy(fields["episodeNumber"]) ==> n == pos
    ensures "episodeNumber" in fields && fields["episodeNumber"] == JBool(true) ==> n == 1
    ensures "episodeNumber" in fields && fields["episodeNumber"].JInt? && fields["episodeNumber"].i != 0 ==>
      n == fields["episodeNumber"].i
    ensures "episodeNumber" in fields && fields["episodeNumber"].JStr? && fields["episodeNumber"].s != [] ==>
      n == DecimalValue(fields["episodeNumber"].s)
  {
    if "episodeNumber" in fields && Truthy(fields["episodeNumber"]) then PyInt(fields["episodeNumber"]) else pos
  }

  /** `title`: the entry's `name` as it is, otherwise "Episode " followed by `str()` of the
      raw `episodeNumber` value (before `int()` and before the positional default), or of
      the position when the entry has no `episodeNumber`. */
  function EntryTitle(fields: map<string, Json>, pos: int): (t: Json)
    requires "episodeNumber" in fields ==> EpisodeNumberOk(fields["episodeNumber"])
    ensures "name" in fields ==> t == fields["name"]
    ensures "name" !in fields && "episodeNumber" !in fields ==> t == JStr("Episode " + IntToString(pos))
    ensures "name" !in fields && "episodeNumber" in fields ==>
      t == JStr("Episode " + PyStr(fields["episodeNumber"]))
  {
    if "name" in fields then fields["name"]
    else if "episodeNumber" in fields then JStr("Episode " + PyStr(fields["episodeNumber"]))
    else JStr("Episode " + IntToString(pos))
  }

  /** `rating`: `float(aggregateRating.ratingValue)` when the block is truthy and the value
      is not None; None otherwise and when `float` fails. */
  function EntryRating(fields: map<string, Json>, parse: string -> Option<real>): (r: Option<real>)
    requires "aggregateRating" in fields ==> RatingBlockOk(fields["aggregateRating"])
    ensures "aggregateRating" !in fields || !Truthy(fields["aggregateRating"]) ==> r.None?
    ensures r.Some? ==> var block := fields["aggregateRating"].fields;
      "ratingValue" in block && r == PyFloat(block["ratingValue"], parse)
    ensures ("aggregateRating" in fields && Truthy(fields["aggregateRating"]) &&
             "ratingValue" in fields["aggregateRating"].fields) ==>
      r == PyFloat(fields["aggregateRating"].fields["ratingValue"], parse)
  {
    var block := Get(fields, "aggregateRating", JObj(map[]));
    if !Truthy(block) then None
    else
      var value := Get(block.fields, "ratingValue", JNull);
      if value.JNull? then None else PyFloat(value, parse)
  }

  /** The record for an entry at 1-based position `pos`. */
  function EntryRecord(e: Json, pos: int, parse: string -> Option<real>): Episode
    requires EntryOk(e)
  {
    Episode(EntryNumber(e.fields, pos), EntryTitle(e.fields, pos), EntryRating(e.fields, parse))
  }

  /** The records of the JSON-LD tier before sorting: entry `i` at position `i + 1`. */
  function JsonLdRecords(entries: seq<Json>, parse: string -> Option<real>): (r: seq<Episode>)
    requires forall e :: e in entries ==> EntryOk(e)
    ensures |r| == |entries|
    ensures forall i :: 0 <= i < |entries| ==> r[i] == EntryRecord(entries[i], i + 1, parse)
  {
    seq(|entries|, i requires 0 <= i < |entries| => EntryRecord(entries[i], i + 1, parse))
  }

  /** The loop of the JSON-LD tier: the position of an entry is `len(episodes) + 1`. */
  method BuildJsonLdRecords(entries: seq<Json>, parse: string -> Option<real>) returns (episodes: seq<Episode>)
    requires forall e :: e in entries ==> EntryOk(e)
    ensures episodes == JsonLdRecords(entries, parse)
  {
    episodes := [];
    for i := 0 to |entries|
      invariant |episodes| == i
      invariant forall k :: 0 <= k < i ==> episodes[k] == EntryRecord(entries[k], k + 1, parse)
    {
      assert entries[i] in entries;
      var fields := entries[i].fields;
      var position := |episodes| + 1;
      var number := EntryNumber(fields, position);
      var title := EntryTitle(fields, position);
      var rating := EntryRating(fields, parse);
      episodes := episodes + [Episode(number, title, rating)];
    }
  }

  // ---------------------------------------------------------------------------
  // sorted(episodes, key=lambda x: x["episode_num"]), a stable sort

  predicate NumbersAscending(s: seq<Episode>)
  {
    forall i, j :: 0 <= i < j < |s| ==> s[i].number <= s[j].number
  }

  /** The records numbered `k`, in their order in `s`. */
  function WithNumber(s: seq<Episode>, k: int): seq<Episode>
  {
    if s == [] then []
    else (if s[0].number == k then [s[0]] else []) + WithNumber(s[1..], k)
  }

  /** Places `x` before the first record whose number is at least its own. */
  function InsertByNumber(x: Episode, sorted: seq<Episode>): (r: seq<Episode>)
    ensures |r| == |sorted| + 1
    ensures r[0] == x || (sorted != [] && r[0] == sorted[0])
  {
    if sorted == [] || x.number <= sorted[0].number then [x] + sorted
    else [sorted[0]] + InsertByNumber(x, sorted[1..])
  }

  lemma {:induction false} InsertAscending(x: Episode, sorted: seq<Episode>)
    requires NumbersAscending(sorted)
    ensures NumbersAscending(InsertByNumber(x, sorted))
  {
    if sorted != [] && x.number > sorted[0].number {
      InsertAscending(x, sorted[1..]);
      var r := InsertByNumber(x, sorted);
      assert r[1..] == InsertByNumber(x, sorted[1..]);
    }
  }

  lemma {:induction false} InsertMultiset(x: Episode, sorted: seq<Episode>)
    ensures multiset(InsertByNumber(x, sorted)) == multiset(sorted) + multiset{x}
  {
    if sorted != [] && x.number > sorted[0].number {
      InsertMultiset(x, sorted[1..]);
      assert sorted == [sorted[0]] + sorted[1..];
    }
  }

  /** Inserting `x` puts it before every record of its own number: the records of each
      number keep their order. */
  lemma {:induction false} InsertWithNumber(x: Episode, sorted: seq<Episode>, k: int)
    ensures WithNumber(InsertByNumber(x, sorted), k) ==
      if x.number == k then [x] + WithNumber(sorted, k) else WithNumber(sorted, k)
  {
    var r := InsertByNumber(x, sorted);
    if sorted == [] || x.number <= sorted[0].number {
      assert r[1..] == sorted;
    } else {
      InsertWithNumber(x, sorted[1..], k);
      assert r[1..] == InsertByNumber(x, sorted[1..]);
    }
  }

  /** A sort of `s` that keeps each number's records in order. */
  ghost predicate IsStableSort(r: seq<Episode>, s: seq<Episode>)
  {
    && |r| == |s|
    && NumbersAscending(r)
    && multiset(r) == multiset(s)
    && forall k :: WithNumber(r, k) == WithNumber(s, k)
  }

  /** Inserting the head of `s` into a stable sort of its tail is a stable sort of `s`. */
  lemma InsertHead(s: seq<Episode>, rest: seq<Episode>)
    requires s != [] && IsStableSort(rest, s[1..])
    ensures IsStableSort(InsertByNumber(s[0], rest), s)
  {
    InsertAscending(s[0], rest);
    InsertMultiset(s[0], rest);
    assert s == [s[0]] + s[1..];
    forall k ensures WithNumber(InsertByNumber(s[0], rest), k) == WithNumber(s, k) {
      InsertWithNumber(s[0], rest, k);
    }
  }

  /** Python's stable `sorted` by episode number: the records in ascending order of number,
      the same records, and those of equal number in the order they came. */
  function SortByNumber(s: seq<Episode>): (r: seq<Episode>)
    ensures IsStableSort(r, s)
  {
    if s == [] then []
    else
      var rest := SortByNumber(s[1..]);
      InsertHead(s, rest);
      InsertByNumber(s[0], rest)
  }

  // ---------------------------------------------------------------------------
  // the extractor

  /** `get_episode_ratings` on a parsed page. When the JSON-LD `episode` value is a
      non-empty list, the result is its records stably sorted and the markup is never
      read; otherwise it is the fallback's records, in document order. */
  method GetEpisodeRatings(jsonLd: Json, articles: seq<CssFallback.Container>,
                           listItems: seq<CssFallback.Container>, children: seq<CssFallback.Container>,
                           parse: string -> Option<real>)
    returns (episodes: seq<Episode>)
    requires EpisodesPayloadOk(jsonLd)
    ensures JsonLdTierApplies(jsonLd) ==>
      episodes == SortByNumber(JsonLdRecords(EpisodeList(jsonLd).items, parse))
    ensures !JsonLdTierApplies(jsonLd) ==>
      var items := CssFallback.ChooseContainers(articles, listItems, children);
      |episodes| == |items| &&
      forall i :: 0 <= i < |items| ==> episodes[i] == CssFallback.ItemRecord(items[i], i + 1)
  {
    if Truthy(jsonLd) {
      var list := Get(jsonLd.fields, "episode", JArr([]));
      if list.JArr? && list.items != [] {
        var records := BuildJsonLdRecords(list.items, parse);
        if records != [] {
          return SortByNumber(records);
        }
      }
    }
    episodes := CssFallback.FallbackEpisodes(articles, listItems, children);
  }
}
