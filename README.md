# IMDB episode-ratings scraper: a Dafny model of its decision logic

The scraper takes an IMDB show URL. It enumerates the show's seasons and extracts every
episode's title and rating, first from the episodes page's JSON-LD and otherwise from the
page markup. It then computes analytics over the ratings and writes a colour-coded
heat-map page. This project models every part of `imdb_scraper.py` that decides
something once the network and the HTML parser have done their work. It proves what
each part promises.

Modules, one per component:

- `Wrappers`: the `Option` datatype (Python `None`).
- `Text`: the ASCII character classes of `\d` and `\s`, `int()` of a digit string, and `str()` of an integer.
- `Scan`: explicit scanners for the regular expressions `tt\d+`, `season=(\d+)`, `E(\d+)` and `(\d+\.?\d*)`. Each returns the match `re.search` reports: the leftmost one, with every greedy part as long as it can be.
- `EpisodePrefix`: the scanner for `[ES]\d+\.?[ES]?\d*\s*[∙·]\s*(.+)`, which strips the episode code from a title. It returns the group of the leftmost match, including `(.+)`'s backtracking into `\s*`. A ghost description of a match (`PrefixMatchAt`) is its specification.
- `Json`: the decoded JSON-LD payload as a datatype, with Python truthiness, `dict.get`, `in`, and `int`-like values. `JNull` also stands for the `None` that `extract_json_ld` returns when the payload is missing or does not decode. Every caller tests both with `if json_ld:`.
- `Records`: the episode and season records.
- `ImdbId`: `get_imdb_id`.
- `ShowInfo`: the name and season-count decisions of `get_show_info`.
- `Ordering`: Python's `sorted` on a set of integers.
- `Seasons`: `get_seasons`'s four-tier precedence, with the link loop as an imperative method.
- `Episodes`: `get_episode_ratings`, covering:
  - the JSON-LD record loop, as an imperative method;
  - Python's stable `sorted` by episode number;
  - the hand-off to the fallback.
- `CssFallback`: `_get_episode_ratings_css_fallback`. It chooses the container tier and then, per container, the title, rating and number. Each container is abstracted to the texts its selectors matched.
- `Analytics`: `calculate_analytics`. The outer and inner loops are imperative methods, proved equal to recursive specifications. The properties are proved about those specifications.
- `Colors`: `get_rating_color`.
- `Slug`: `slugify`, and the output-file-name rule of `main`.
- `SlugSteps`: how the filter and the separator collapsing of `slugify` act on concatenated text.

Ratings are Dafny `real`s. Two numeric operations the scraper leaves to Python are parameters:
- `float()` of a JSON-LD rating string (line 152) is `parse: string -> Option<real>`, with `None` for `ValueError`;
- `round(x, 2)` is `round2: real -> real`.

The other `float()`, at line 219, reads only text matched by `(\d+\.?\d*)`. It is modelled as `Scan.NumberValue`, the exact decimal value of that text, and its rounding to binary is not modelled.

Payload shapes on which the source raises are excluded by preconditions. Examples are a truthy payload on which `in` raises (a number), an episode entry that is not an object, and a `numberOfSeasons` that `range` rejects. A truthy array or string payload is covered in `get_seasons` only, where `in` is list membership or substring search, as in Python. `get_show_info` and `get_episode_ratings` call `json_ld.get` on a truthy payload (lines 60 and 139), which raises `AttributeError` unless it is an object. So `ShowInfo.ShowPayloadOk` and `Episodes.EpisodesPayloadOk` require a truthy payload to be an object.

Where entries of the payload are Python values of any type, they are kept as `Json`. This applies to the show name and the JSON-LD episode title, which the source stores verbatim, `null` included. One consequence: a JSON-LD episode with `"episodeNumber": null` and no `name` is titled "Episode None", while its number becomes its position. `Episodes.EntryTitle` states this, as the source does it.

## Model

| member | source | states |
|---|---|---|
| ImdbId.GetImdbId | imdb_scraper.py:36-41 | None exactly when no `tt` followed by a digit occurs. Otherwise the result satisfies `IsFirstId`: it is a substring starting at some position, it is `tt` and at least one digit, the digit run cannot be extended, and no match starts earlier. |
| ImdbId.FirstIdUnique | imdb_scraper.py:38 | At most one (position, id) pair satisfies `IsFirstId`, so that description pins down the result of `GetImdbId`. |
| ImdbId.ResolveBareId | imdb_scraper.py:36-41 | A bare id `tt` + digits resolves to itself. |
| ImdbId.FirstIdAfterDigitFreeText | imdb_scraper.py:38-41 | In `pre + "tt" + digits + rest`, where `pre` holds no digit and `rest` does not start with one, the id is `"tt" + digits`. |
| Scan.FindPrefixedDigits | imdb_scraper.py:38 | The leftmost position at or after `from` where the prefix and a digit start, or None when there is none. |
| Scan.SearchPrefixedDigits | imdb_scraper.py:227 | A match exists exactly when the prefix followed by a digit occurs. It is the leftmost such occurrence, and its captured digits are the maximal digit run after the prefix. |
| Scan.SearchNumber | imdb_scraper.py:216 | A match exists exactly when the text holds a digit, and it starts at the first digit. It is greedy (`IsGreedyNumber`): the whole part is the entire digit run there, the point is taken exactly when `.` follows it, and then the fraction is the entire digit run after the point. Its text is the substring at its start. |
| Scan.NumberAt | imdb_scraper.py:216 | The number at a digit starts there and is greedy: whole digit run, a point exactly when one follows, then the whole digit run after it. |
| Scan.RunAt | imdb_scraper.py:216 | The entire digit run at a position: digits only, and not followed by a digit. |
| Scan.MaximalRunUnique | imdb_scraper.py:216 | Two entire digit runs from the same position are the same text. |
| Scan.GreedyNumberUnique | imdb_scraper.py:216 | Two greedy numbers that start at the same position are equal, so `SearchNumber`'s contract fixes its result. |
| Scan.GreedyNumberText | imdb_scraper.py:216-219 | The text of a greedy number, which `float()` reads, is the substring of the input it covers. |
| Scan.NumberValue | imdb_scraper.py:219 | `float()` of a matched number is at least the value of its whole part, so it is never negative. |
| EpisodePrefix.SearchEpisodePrefix | imdb_scraper.py:196 | A captured title is non-empty and holds no line feed. It exists only when a separator `∙` or `·` follows the start position. |
| EpisodePrefix.SearchEpisodePrefixSpec | imdb_scraper.py:196-198 | The scanner finds a title exactly when the pattern matches at or after the start. The title is then the group after the separator of the leftmost match (`FindsLeftmostMatch`). |
| EpisodePrefix.MatchAt | imdb_scraper.py:196 | An attempt at one position: a captured title is non-empty, holds no line feed, and follows a separator. |
| EpisodePrefix.MatchAtSpec | imdb_scraper.py:196 | An attempt at one position succeeds exactly when the pattern matches there. It then yields the group after that match's separator. |
| EpisodePrefix.PrefixMatchUnique | imdb_scraper.py:196 | A match at a position has one separator position only, because the code holds no separator. |
| EpisodePrefix.CodeEnd | imdb_scraper.py:196 | Where `[ES]\d+\.?[ES]?\d*` stops: within the text, and every character up to it can belong to a code. |
| EpisodePrefix.FindBullet | imdb_scraper.py:196 | The first separator `∙` or `·` at or after a position, or None when there is none. |
| EpisodePrefix.DropsEpisodeCode | imdb_scraper.py:196-198 | For a whole episode code, a separator, a space and a title that does not start with whitespace and has no line feed, the captured group is exactly the title. |
| EpisodePrefix.TailGroup | imdb_scraper.py:196 | The group of `\s*(.+)`, when it matches, is non-empty and holds no line feed. |
| EpisodePrefix.TailGroupSpec | imdb_scraper.py:196 | `\s*(.+)` matches exactly when a character other than a line feed follows. The group is then the line from the last position `\s*` can leave to `(.+)`. |
| EpisodePrefix.LineEnd | imdb_scraper.py:196 | Where `.` stops matching: the first line feed at or after `k`, or the end of the text. |
| Json.Truthy | imdb_scraper.py:137-157 | Python truthiness, as in `if json_ld:`, `if agg_rating:` and `if episode_num` (also at lines 59 and 103). `FalsyValues` states that exactly seven values are falsy: None, False, 0, 0.0, "", [] and {}. |
| Json.FalsyValues | imdb_scraper.py:137-157 | A decoded value is falsy exactly when it is one of None, False, 0, 0.0, "", [] and {}. |
| Json.Get | imdb_scraper.py:139-149 | `dict.get(key, default)`: the stored value when the key is present, otherwise the default. |
| Json.In | imdb_scraper.py:104-108 | Python's `key in v`: a key of an object, an element of an array, a substring of a string. It is defined only where `SupportsIn` holds, and `SeriesTier`, `TopLevelTier` and `ArrayPayloadSkipsJsonTier` state what `get_seasons` does with it. |
| Text.DecimalValue | imdb_scraper.py:116-118 | `int()` of a string of ASCII digits (also at lines 157 and 229). `DecimalValueCons` states that it is positional notation read from the left, `DecimalValueBound` that `k` digits give less than `10^k`, and `NatToStringRoundTrip` that it inverts `str()`. |
| Text.DecimalValueCons | imdb_scraper.py:116-118 | The leading digit `c` of `[c] + ds` weighs `10^|ds|`: the value is `c·10^|ds|` plus the value of `ds`. |
| Text.DecimalValueBound | imdb_scraper.py:116-118 | The value of `k` digits is below `10^k`. |
| Text.IntToString | imdb_scraper.py:203 | `str()` of an integer is non-empty. `IntToStringReadsBack` states how it reads back. |
| Text.IntToStringReadsBack | imdb_scraper.py:203 | `str(n)` starts with a digit exactly when `n >= 0`. Then it is all digits and `int()` of it is `n`. For `n < 0` it is `-` followed by digits whose value is `-n`. |
| Text.DigitRunLen | imdb_scraper.py:38 | The run of digits at `k` lies within the text, is all digits, and is not followed by a digit. |
| Text.MaximalDigitRun | imdb_scraper.py:38 | A digit run that cannot be extended has exactly the length `DigitRunLen` reports. |
| Text.NatToStringRoundTrip | imdb_scraper.py:203 | The decimal rendering that "Episode idx" uses reads back as the same number: `int(str(n)) == n`. |
| ShowInfo.GetShowInfo | imdb_scraper.py:56-69 | A JSON-LD name other than "Unknown Show" is kept whatever the headings say. Otherwise the hero title wins over the first `h1`, with the sentinel as last resort. The sentinel survives only when no heading was found or the heading reads as the sentinel. The season count is the payload's `numberOfSeasons`, or None. |
| Seasons.OneTo | imdb_scraper.py:92 | `list(range(1, n + 1))`: length `max(n, 0)`, with element `i` equal to `i + 1`. It is empty when `n <= 0`. |
| Seasons.LinkSeason | imdb_scraper.py:116-118 | A season number is read from an href exactly when `season=` followed by a digit occurs in it, and the number is non-negative. |
| Seasons.LinkSeasonValue | imdb_scraper.py:116-118 | The number read is `int()` of the digits `re.search` captures: the leftmost `season=` followed by a digit, and the whole digit run after it. |
| Seasons.SeriesCount | imdb_scraper.py:104-107 | The count `partOfSeries.numberOfSeasons`; `SeriesTier` states when it answers. |
| Seasons.SeriesTier | imdb_scraper.py:104-107 | Once `partOfSeries` is found in a truthy payload, the series tier answers exactly when `"numberOfSeasons" in series_data`, with that count. |
| Seasons.TopLevelCount | imdb_scraper.py:108-109 | The top-level `numberOfSeasons`; `TopLevelTier` states when it answers. |
| Seasons.TopLevelTier | imdb_scraper.py:108-109 | When the series tier has not answered, the top-level tier answers exactly when `"numberOfSeasons" in json_ld`, with that count. |
| Seasons.ArrayPayloadSkipsJsonTier | imdb_scraper.py:103-109 | A truthy array payload that holds neither key raises nothing and gives no count, so `get_seasons` goes on to the season links. |
| Seasons.LinkSeasons | imdb_scraper.py:114-118 | The set the link loop builds: the season numbers of the hrefs that carry one. `LinkSeasonsSnoc` states how one more href changes it, and `LinkSeasonsBound` bounds its size. |
| Seasons.LinkSeasonsBound | imdb_scraper.py:114-118 | Each link adds at most one season number, so the set has at most as many elements as there are links. |
| Seasons.LinkSeasonsSnoc | imdb_scraper.py:114-118 | Scanning one more link adds exactly its season number, if it has one, to the set. |
| Seasons.CollectLinkSeasons | imdb_scraper.py:114-118 | The loop over the links builds exactly the set of season numbers they carry. |
| Seasons.GetSeasons | imdb_scraper.py:80-122 | First success wins, in this order: a known count `n > 0` gives `[1..n]`; then `partOfSeries.numberOfSeasons` gives `OneTo` of it; then the top-level `numberOfSeasons` (both may give `[]`); then the sorted season numbers of the links when there are any; otherwise `[1]`. The JSON-LD tiers test keys with Python's `in`, so a truthy array or string payload that holds neither key reaches the link tier. |
| Seasons.LinkTierShape | imdb_scraper.py:112-120 | When the link tier decides, its result is non-empty and strictly ascending. A number occurs in it exactly when some href's first `season=(\d+)` reads as that number. |
| Ordering.SortedElements | imdb_scraper.py:120 | `sorted(set)`: strictly ascending, with exactly the set's elements, so its length is the set's size. |
| Ordering.LeastExists | imdb_scraper.py:120 | A non-empty finite set of integers has a least element, the first element `sorted` emits. |
| Episodes.PyStr | imdb_scraper.py:143 | `str()` of an `episodeNumber` value, used in the default title. `PyStrReadsBack` states what it gives for integers and strings. |
| Episodes.PyStrReadsBack | imdb_scraper.py:142-157 | `str()` of an integer is `IntToString`, and of a string is the string itself. For a digit string or a positive integer, `int()` of it equals `int()` of the value, so the number in "Episode {episode_num}" is the record's number. |
| Episodes.PyInt | imdb_scraper.py:157 | `int()` of a truthy episode number: `True` is 1, an integer is itself, and a digit string is non-negative. |
| Episodes.PyFloat | imdb_scraper.py:152-154 | `float()` of a rating value. Booleans give 1.0 or 0.0, integers and floats convert exactly, and strings go to `parse`. `None`, lists and dicts give None, as the swallowed `TypeError`. |
| Episodes.EntryNumber | imdb_scraper.py:142-157 | A missing or falsy `episodeNumber` gives the 1-based position. `True` gives 1. A non-zero integer is kept. A non-empty digit string is read as a decimal. |
| Episodes.EntryTitle | imdb_scraper.py:143 | The `name` value verbatim when present. Otherwise "Episode " and `str()` of the raw `episodeNumber`, or of the position when the entry has none. |
| Episodes.EntryRating | imdb_scraper.py:146-154 | A missing or falsy `aggregateRating` gives None. A rating is present only when `ratingValue` is present and converts, and it is that conversion. |
| Episodes.EntryRecord | imdb_scraper.py:156-160 | The record of one entry from its number, title and rating. |
| Episodes.JsonLdRecords | imdb_scraper.py:141-160 | One record per entry, in entry order: record `i` is the entry's record at position `i + 1`. |
| Episodes.BuildJsonLdRecords | imdb_scraper.py:141-160 | The loop that places each entry at position `len(episodes) + 1` builds exactly `JsonLdRecords`. |
| Episodes.InsertByNumber | imdb_scraper.py:163 | Insertion adds one record, and the inserted record or the old first record comes first. |
| Episodes.InsertAscending | imdb_scraper.py:163 | Insertion into a list ascending by number keeps it ascending. |
| Episodes.InsertMultiset | imdb_scraper.py:163 | Insertion adds exactly the inserted record to the multiset. |
| Episodes.InsertWithNumber | imdb_scraper.py:163 | Insertion puts a record before every record of its own number and leaves the other numbers' groups unchanged. |
| Episodes.InsertHead | imdb_scraper.py:163 | Inserting the head into a stable sort of the tail gives a stable sort of the whole list. |
| Episodes.SortByNumber | imdb_scraper.py:163 | `sorted(..., key=episode_num)`: the result is ascending by number and is a permutation of the input. For every number, its records keep their input order (stability). |
| Episodes.GetEpisodeRatings | imdb_scraper.py:125-166 | When the JSON-LD `episode` value is a non-empty list, the result is its records stably sorted, and the markup is never read. Otherwise it is the fallback's records for the chosen tier, in document order. |
| CssFallback.ChooseContainers | imdb_scraper.py:174-178 | The first tier that matched anything is used, and nothing from a later tier. |
| CssFallback.DivTitle | imdb_scraper.py:191-200 | The title from the title div; `DivTitleSpec` and `DivTitleShape` state what it is. |
| CssFallback.DivTitleSpec | imdb_scraper.py:191-200 | The div text as it is when the episode-code pattern matches nowhere. Otherwise the group after the separator of the leftmost match. |
| CssFallback.DivTitleShape | imdb_scraper.py:191-200 | A non-empty title-div text gives a non-empty title. The text is changed only when it holds a separator `∙` or `·`. |
| CssFallback.DivTitleDropsCode | imdb_scraper.py:194-198 | A div reading `code ∙ title` gives `title`, for any whole episode code and any title that does not start with whitespace and has no line feed. |
| CssFallback.SeasonEpisodeCode | imdb_scraper.py:196 | `S<digit>.E<digit> `, trailing space included, is a whole episode code. |
| CssFallback.DivTitleSeasonEpisode | imdb_scraper.py:194-198 | A div reading `S<digit>.E<digit> ∙ title`, such as "S1.E1 ∙ Pilot", gives the title. |
| CssFallback.ItemTitle | imdb_scraper.py:182-203 | The container's title; `ItemTitleChoice` states the precedence. |
| CssFallback.ItemTitleChoice | imdb_scraper.py:182-203 | Every title is non-empty. A non-empty link text wins. Otherwise a title div with non-empty stripped text supplies it. When the div is missing or its stripped text is empty, the title is "Episode idx". |
| CssFallback.ItemRating | imdb_scraper.py:206-221 | The container's rating; `ItemRatingShape` states it. |
| CssFallback.ItemRatingShape | imdb_scraper.py:206-221 | A rating is read exactly when a rating element matched and its text holds a digit. It is then `float()` of the greedy first number of that text, so it is never negative. |
| CssFallback.OneDecimalNumber | imdb_scraper.py:216 | In a text starting `<digit>.<digit>` and going on without a digit, as in "8.5/10", the first number is exactly those three characters. |
| CssFallback.OneDecimalValue | imdb_scraper.py:219 | `float("<w>.<f>")` is `w + f/10`. |
| CssFallback.ItemRatingOneDecimal | imdb_scraper.py:213-221 | A rating text such as "8.5/10" gives the rating 8.5. |
| CssFallback.ItemNumber | imdb_scraper.py:224-229 | The container's episode number; `ItemNumberChoice` states it. |
| CssFallback.ItemNumberChoice | imdb_scraper.py:224-229 | The number is the position unless the title div's text holds `E` followed by a digit. Then it is the value of the first such digit run. |
| CssFallback.ItemRecord | imdb_scraper.py:231-235 | The record built for one container from its number, title and rating. |
| CssFallback.FallbackEpisodes | imdb_scraper.py:169-237 | One record per container of the chosen tier, in document order. Record `i` is the container's record at 1-based position `i + 1`. |
| Analytics.RatedIn | imdb_scraper.py:247-254 | A season contributes at most one entry per episode, each tagged with the season's number. |
| Analytics.AllRated | imdb_scraper.py:245-254 | `all_episodes`: the rated episodes of every season, season by season in input order. `AllRatedCount` states its length and `ExtremeEpisodesAreFirst` what `min` and `max` choose from it. |
| Analytics.Mean | imdb_scraper.py:260 | `sum(xs) / len(xs)` of a non-empty list. `MeanWithinExtremes` states that it lies between the first minimum and the first maximum. |
| Analytics.SeasonAverages | imdb_scraper.py:257-262 | `season_averages`. `SeasonAveragesShape` states its entries, `AverageSourcesShape` which seasons they come from, and `SeasonAveragesPresent` when it is empty. |
| Analytics.RateSeason | imdb_scraper.py:246-255 | The inner loop appends exactly the season's rated episodes, in order, and collects exactly their ratings. |
| Analytics.Summarize | imdb_scraper.py:264-294 | The reduction over the two accumulations; the lemmas below state what each field is. |
| Analytics.Analysis | imdb_scraper.py:240-294 | `calculate_analytics` as a function of the seasons; the lemmas below characterise it. |
| Analytics.CalculateAnalytics | imdb_scraper.py:240-294 | The nested loops and the reduction compute exactly `Analysis`, which the lemmas below characterise. |
| Analytics.RatedInMatchesEpisodes | imdb_scraper.py:247-255 | A season's entries number exactly its rated episodes. An entry is present exactly when some episode with a rating yields it. |
| Analytics.AllRatedCount | imdb_scraper.py:293 | `all_episodes` has one entry per rated episode over all seasons. |
| Analytics.TotalEpisodesCountsRatings | imdb_scraper.py:264-273 | `total_episodes` equals the number of episodes whose rating is not None. The all-None summary (empty `season_averages`, total 0) is returned exactly when that number is 0. |
| Analytics.AverageSourcesShape | imdb_scraper.py:257-262 | The seasons that get an average are exactly those with a rated episode, in ascending input order. |
| Analytics.SeasonAveragesShape | imdb_scraper.py:257-262 | `season_averages` has one entry per such season, in input order. Each entry holds that season's number, the mean of its ratings, and its rated count. |
| Analytics.SeasonAveragesPresent | imdb_scraper.py:283-284 | `season_averages` is empty exactly when no episode is rated. |
| Analytics.MinIndex | imdb_scraper.py:276 | `min(..., key=rating)`: the chosen value is at most every value, and every earlier value is strictly greater, so the choice is the first minimum. |
| Analytics.MaxIndex | imdb_scraper.py:277 | `max(..., key=rating)`: the chosen value is at least every value, and every earlier value is strictly smaller, so the choice is the first maximum. |
| Analytics.ExtremeEpisodesAreFirst | imdb_scraper.py:276-277 | `min_episode` (`max_episode`) is an entry of `all_episodes` rated at most (at least) every entry, and it is the first such entry. |
| Analytics.BestWorstSeasonsAreFirst | imdb_scraper.py:283-284 | `best_season` (`worst_season`) is a season average at least (at most) every average, and it is the first such average. |
| Analytics.BestWorstSeasonsPresent | imdb_scraper.py:283-284 | `best_season` and `worst_season` are present exactly when some episode is rated. |
| Analytics.SumBounds | imdb_scraper.py:280 | A sum of values within `[lo, hi]` lies within `[lo·n, hi·n]`. |
| Analytics.QuotientBounds | imdb_scraper.py:280 | A total within `[lo·n, hi·n]`, divided by `n > 0`, lies within `[lo, hi]`. |
| Analytics.MeanWithinExtremes | imdb_scraper.py:280 | The mean of a non-empty list lies between its first minimum and its first maximum. |
| Analytics.OverallAverageBetweenExtremes | imdb_scraper.py:280-289 | `overall_average` is `round(mean, 2)`, and the unrounded mean lies between the ratings of `min_episode` and `max_episode`. |
| Colors.Reached | imdb_scraper.py:302-315 | The count of thresholds a rating reaches is at most the number of thresholds. |
| Colors.Bucket | imdb_scraper.py:302-315 | The bucket of a rating is a valid palette position. |
| Colors.RatingColor | imdb_scraper.py:297-315 | None is gray `#3d3d3d`. A rating gets the palette colour at the count of the thresholds 4, 5, 6, 7, 8 and 9 it reaches. |
| Colors.BucketSteps | imdb_scraper.py:302-314 | The bucket is the sum of the six threshold tests. |
| Colors.ReachedMonotone | imdb_scraper.py:302-315 | A higher rating reaches at least as many thresholds. |
| Colors.ColorMonotone | imdb_scraper.py:302-315 | A higher rating never gets a bucket further toward red. |
| Colors.ColorsDistinct | imdb_scraper.py:299-315 | Two ratings share a colour exactly when they share a bucket, and no rating is shown gray. |
| Colors.FourIsLightRed | imdb_scraper.py:302-315 | The lower boundaries are inclusive: 4.0 is light red `#f85149`, 3.9 is red and 9.0 is dark green. |
| Slug.LowerChar | imdb_scraper.py:376 | `str.lower()` on one ASCII character: the result is never upper case, and a character that is not upper case is unchanged. |
| Slug.Lower | imdb_scraper.py:376 | `text.lower()`: the same length, with each character lowered. |
| Slug.KeepSlugChars | imdb_scraper.py:377 | `re.sub(r'[^\w\s-]', '', ...)`: only word characters, whitespace and `-` remain. Text without upper case stays without it. Text made only of kept characters is unchanged. |
| Slug.DropSeparators | imdb_scraper.py:378 | Drops the leading run of `-` and whitespace: everything dropped is a separator, and the suffix left does not start with one. |
| Slug.CollapseSeparators | imdb_scraper.py:378 | `re.sub(r'[-\s]+', '-', ...)`: non-empty exactly when its input is. It starts with `-` exactly when its input starts with a separator. It never holds two dashes in a row. |
| Slug.CollapseGivesSlugChars | imdb_scraper.py:378 | Collapsing text of slug characters and whitespace leaves only slug characters. |
| Slug.CollapseFixed | imdb_scraper.py:378 | Collapsing text without whitespace or double dashes changes nothing. |
| Slug.StripLeading | imdb_scraper.py:379 | `lstrip('-')`: a suffix that does not start with `-`. Everything removed is a dash, and text not starting with `-` is unchanged. |
| Slug.StripTrailing | imdb_scraper.py:379 | `rstrip('-')`: a prefix that does not end with `-`. Everything removed is a dash, and text not ending with `-` is unchanged. |
| Slug.StripDashes | imdb_scraper.py:379 | `text.strip('-')`: `StripLeading`, then `StripTrailing`. |
| Slug.StripDashesGivesSlug | imdb_scraper.py:379 | Stripping dashes from slug characters without double dashes gives a slug. |
| Slug.Slugify | imdb_scraper.py:374-379 | `slugify`; the lemmas below state its output. |
| Slug.SlugifyGivesSlug | imdb_scraper.py:374-379 | Every result is a slug: only `a-z`, digits, `_` and `-`, no dash at either end, and no two dashes in a row. |
| Slug.SlugIsFixed | imdb_scraper.py:374-379 | `slugify` leaves every slug unchanged. |
| Slug.SlugifyIdempotent | imdb_scraper.py:374-379 | `slugify(slugify(t)) == slugify(t)`. |
| Slug.LowerOfLower | imdb_scraper.py:376 | Lowering twice is lowering once. |
| Slug.SlugifyKeepsWords | imdb_scraper.py:374-379 | `slugify` keeps every word character of the lowered text, in order. |
| Slug.WordChars | imdb_scraper.py:377 | The word characters of a text are never more than its characters. |
| SlugSteps.KeepSlugCharsAppend | imdb_scraper.py:377 | The filter of a concatenation is the concatenation of the filters. |
| SlugSteps.KeepSlugCharsOne | imdb_scraper.py:377 | One character survives the filter exactly when it is a word character, whitespace or `-`. |
| SlugSteps.DropSeparatorsRun | imdb_scraper.py:378 | A run of separators before text that does not start with one is dropped whole. |
| SlugSteps.DropSeparatorsAppend | imdb_scraper.py:378 | Dropping stops inside a text that ends with a non-separator, whatever follows it. |
| SlugSteps.CollapseRunSplit | imdb_scraper.py:378 | A maximal non-empty run of `-` and whitespace becomes one dash: collapsing `x + run + y` gives the collapse of `x`, then `-`, then the collapse of `y`. |
| SlugSteps.SlugifyJoinsSlugs | imdb_scraper.py:374-379 | Two non-empty slugs joined by any run of dashes and whitespace slugify to the two slugs joined by one dash. |
| Slug.OutputFilename | imdb_scraper.py:401-406 | The name always ends with `.html`. A non-empty `--output` that already ends with it is kept, and any other non-empty `--output` gets it appended. Otherwise the name is `slugify(name) + ".html"`. |

## Left out

- HTTP requests, and the pages' and scripts' text: page contents are inputs to the model.
- BeautifulSoup parsing and CSS selector matching: each selector's result is passed in, as optional texts, the list of matched `href`s, and the three container tiers.
- `json.loads` in `extract_json_ld`: the decoded payload is an input. A decode error or a missing script block is `JNull`.
- `float()` of a JSON-LD rating string (line 152) and `round(x, 2)`: they are the parameters `parse` and `round2`, and no property depends on what they compute. The `float()` of the markup rating at line 219 is `Scan.NumberValue`, the exact decimal value of the matched digits. Its rounding to the nearest double is not modelled.
- `Episodes.PyFloat`: gives `Some(i as real)` for every JSON integer. For an integer too large for a double, `float(rating_val)` at line 152 raises `OverflowError`, which the `except (ValueError, TypeError)` at line 153 does not catch. The model does not capture that crash, because Dafny's `real` has no overflow.
- Floating point: ratings, sums and averages are exact reals. The model does not capture the rounding of an IEEE sum, which depends on summation order. NaN and ±Infinity cannot be represented, although `json.loads` accepts them and `float("nan")` parses. The source's comparisons would send a NaN rating to dark green in `get_rating_color` (every `<` test is false).
- Poster URL selection in `get_show_info`: DOM querying with no decision logic.
- `scrape_show`, `generate_html` and the rest of `main` (argument parsing, printing, file writing): orchestration and I/O. The model therefore does not connect `get_show_info`'s `numberOfSeasons` to the `known_season_count` argument of `get_seasons`. `Seasons.GetSeasons` takes it as `Option<int>`.
- Unicode: `\d`, `\s`, `\w` and `str.lower()` are modelled on ASCII. `Slug.Slugify` and `Slug.OutputFilename` require an ASCII show name. The scanners treat every non-ASCII character, other than the two separators `∙` and `·`, as neither a digit nor whitespace.
- Slug.OutputFilename: takes the show name as a string. The source would pass a non-string JSON-LD `name` to `slugify`, which would raise there.
- Crash paths: payloads on which the source raises a `TypeError` or `AttributeError` are excluded by preconditions. These are a truthy payload on which `in` raises (a number or `true`), a truthy payload other than an object in `get_show_info` and `get_episode_ratings` (where `json_ld.get` raises `AttributeError`, lines 60 and 139), a non-object payload that holds `partOfSeries` as an element, a non-object episode entry or `aggregateRating`, a `partOfSeries` on which `in` raises or that is a non-object holding `numberOfSeasons`, and a non-integer `numberOfSeasons`. An `episodeNumber` that `int()` would reject is excluded too. The model also excludes float episode numbers, which `int()` truncates, and strings with signs or whitespace.
- Analytics.CalculateAnalytics: the inner loop over a season's episodes is the separate method `Analytics.RateSeason`, called once per season.
