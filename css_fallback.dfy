/** `_get_episode_ratings_css_fallback`: episode records read from the presentation markup.
    Selector matching is done by the caller; each episode container is abstracted to the
    texts the per-item logic reads. */
module CssFallback {
  import opened Wrappers
  import opened Text
  import opened Scan
  import opened EpisodePrefix
  import opened Json
  import opened Records

  /** The `div.ipc-title__text` of a container: `get_text(strip=True)`, read for the title,
      and `get_text()`, read for the episode number. */
  datatype TitleDiv = TitleDiv(stripped: string, raw: string)

  /** One episode container.
      `titleLink`: stripped text of the first element matched by the four title-link
      selectors tried in order; `titleDiv`: the title-text div; `ratingText`: stripped text
      of the first element matched by the four rating selectors tried in order. Each is
      None when nothing matched. */
  datatype Container = Container(titleLink: Option<string>, titleDiv: Option<TitleDiv>, ratingText: Option<string>)

  /** The containers used: the first of the three selector tiers
      (`article.episode-item-wrapper`, `div.list_item`,
      `[data-testid="episodes-container"] > div`) that matched anything. */
  function ChooseContainers(articles: seq<Container>, listItems: seq<Container>, children: seq<Container>): (items: seq<Container>)
    ensures articles != [] ==> items == articles
    ensures articles == [] && listItems != [] ==> items == listItems
    ensures articles == [] && listItems == [] ==> items == children
  {
    if articles != [] then articles else if listItems != [] then listItems else children
  }

  /** The title text of the div once a leading "S1.E1 ∙ " code is removed. */
  function DivTitle(d: TitleDiv): string
  {
    match SearchEpisodePrefix(d.stripped, 0)
    case Some(g) => g
    case None => d.stripped
  }

  /** A non-empty div text gives a non-empty title, and the text is changed only when it
      holds one of the separators `∙` or `·`. */
  lemma DivTitleShape(d: TitleDiv)
    ensures d.stripped != [] ==> DivTitle(d) != []
    ensures DivTitle(d) != d.stripped ==> exists p :: 0 <= p < |d.stripped| && IsBullet(d.stripped[p])
  {
  }

  /** DivTitle is what `re.sub` leaves of the leftmost episode-code match: the text as it
      is when the pattern matches nowhere, else the tail group after that match's separator. */
  lemma DivTitleSpec(d: TitleDiv)
    ensures !MatchFrom(d.stripped, 0) ==> DivTitle(d) == d.stripped
    ensures MatchFrom(d.stripped, 0) ==>
      exists i: nat, p: nat :: LeftmostMatch(d.stripped, 0, i, p) && TailGroup(d.stripped, p + 1) == Some(DivTitle(d))
  {
    SearchEpisodePrefixSpec(d.stripped, 0);
  }

  /** A div reading `code ∙ title` gives `title` once the code is removed. */
  lemma DivTitleDropsCode(code: string, b: char, t: string, raw: string)
    requires IsEpisodeCode(code) && IsBullet(b)
    requires t != [] && !IsSpace(t[0]) && NoLineFeed(t)
    ensures DivTitle(TitleDiv(code + [b] + " " + t, raw)) == t
  {
    DropsEpisodeCode(code, b, t);
  }

  /** A code of the form "S<digit>.E<digit> " is a whole episode code, its trailing space
      included. */
  lemma SeasonEpisodeCode(a: char, b: char)
    requires IsDigit(a) && IsDigit(b)
    ensures IsEpisodeCode(['S', a, '.', 'E', b, ' '])
  {
    var code := ['S', a, '.', 'E', b, ' '];
    assert code[1..2] == [a] && code[4..5] == [b];
    MaximalDigitRun(code, 1, 1);
    MaximalDigitRun(code, 4, 1);
    assert CodeEnd(code) == 5;
  }

  /** A div reading "S<a>.E<b> ∙ title", such as "S1.E1 ∙ Pilot", is shown as the title. */
  lemma DivTitleSeasonEpisode(a: char, b: char, t: string, raw: string)
    requires IsDigit(a) && IsDigit(b)
    requires t != [] && !IsSpace(t[0]) && NoLineFeed(t)
    ensures DivTitle(TitleDiv(['S', a, '.', 'E', b, ' ', '\U{2219}', ' '] + t, raw)) == t
  {
    var code := ['S', a, '.', 'E', b, ' '];
    SeasonEpisodeCode(a, b);
    assert code + ['\U{2219}'] + " " + t == ['S', a, '.', 'E', b, ' ', '\U{2219}', ' '] + t;
    DivTitleDropsCode(code, '\U{2219}', t, raw);
  }

  /** The episode title of the container at 1-based position `idx`. */
  function ItemTitle(c: Container, idx: int): string
  {
    var fromLink := if c.titleLink.Some? then c.titleLink.value else "";
    var title :=
      if fromLink != [] then fromLink
      else if c.titleDiv.Some? then DivTitle(c.titleDiv.value)
      else "";
    if title != [] then title else "Episode " + IntToString(idx)
  }

  /** Every title is non-empty: a non-empty link text is taken as it is, with no link text
      a title div with non-empty text supplies it, and with neither (a missing div or one whose
      stripped text is empty) it is "Episode idx". */
  lemma ItemTitleChoice(c: Container, idx: int)
    ensures ItemTitle(c, idx) != []
    ensures c.titleLink.Some? && c.titleLink.value != [] ==> ItemTitle(c, idx) == c.titleLink.value
    ensures (c.titleLink.None? || c.titleLink.value == []) && (c.titleDiv.None? || c.titleDiv.value.stripped == []) ==>
      ItemTitle(c, idx) == "Episode " + IntToString(idx)
    ensures (c.titleLink.None? || c.titleLink.value == []) && c.titleDiv.Some? && c.titleDiv.value.stripped != [] ==>
      ItemTitle(c, idx) == DivTitle(c.titleDiv.value) && DivTitle(c.titleDiv.value) != []
  {
    if c.titleDiv.Some? {
      DivTitleShape(c.titleDiv.value);
    }
  }

  /** The rating: the first number in the rating element's text, read as a decimal. */
  function ItemRating(c: Container): Option<real>
  {
    if c.ratingText.None? then None
    else
      match SearchNumber(c.ratingText.value)
      case None => None
      case Some(m) => Some(NumberValue(m))
  }

  /** A rating is read exactly when the rating text holds a digit, and it is not negative. */
  lemma ItemRatingShape(c: Container)
    ensures ItemRating(c).Some? <==> c.ratingText.Some? && exists i :: 0 <= i < |c.ratingText.value| && IsDigit(c.ratingText.value[i])
    ensures ItemRating(c).Some? ==> ItemRating(c).value >= 0.0
    ensures ItemRating(c).Some? ==> ItemRating(c) == Some(NumberValue(SearchNumber(c.ratingText.value).value))
  {
    if c.ratingText.Some? {
      var r := SearchNumber(c.ratingText.value);
      assert r.Some? ==> ItemRating(c) == Some(NumberValue(r.value));
    }
  }

  /** In a text that starts "<w>.<f>" and goes on with no digit, the first number is
      exactly that. */
  lemma OneDecimalNumber(s: string, w: char, f: char, rest: string)
    requires IsDigit(w) && IsDigit(f) && (rest == [] || !IsDigit(rest[0]))
    requires s == [w, '.', f] + rest
    ensures SearchNumber(s) == Some(NumberMatch(0, [w], true, [f]))
  {
    var m := NumberMatch(0, [w], true, [f]);
    assert s[0..1] == [w] && s[1] == '.' && s[2..3] == [f];
    assert MaximalRunAt(s, 0, [w]) && MaximalRunAt(s, 2, [f]);
    assert IsGreedyNumber(s, m);
    GreedyNumberUnique(s, m, SearchNumber(s).value);
  }

  /** The value of "<w>.<f>". */
  lemma OneDecimalValue(w: char, f: char)
    requires IsDigit(w) && IsDigit(f)
    ensures NumberValue(NumberMatch(0, [w], true, [f])) == DigitValue(w) as real + DigitValue(f) as real / 10.0
  {
    assert DecimalValue([w]) == DigitValue(w) by {
      assert [w][..0] == [];
    }
    assert DecimalValue([f]) == DigitValue(f) by {
      assert [f][..0] == [];
    }
  }

  /** A rating text with one decimal, such as "8.5/10", gives that decimal. */
  lemma ItemRatingOneDecimal(c: Container, w: char, f: char, rest: string)
    requires IsDigit(w) && IsDigit(f) && (rest == [] || !IsDigit(rest[0]))
    requires c.ratingText == Some([w, '.', f] + rest)
    ensures ItemRating(c) == Some(DigitValue(w) as real + DigitValue(f) as real / 10.0)
  {
    OneDecimalNumber(c.ratingText.value, w, f, rest);
    OneDecimalValue(w, f);
  }

  /** The episode number: the digits after the first `E` followed by a digit in the
      title div's text, else the position `idx`. */
  function ItemNumber(c: Container, idx: int): int
  {
    if c.titleDiv.None? then idx
    else
      match SearchPrefixedDigits(c.titleDiv.value.raw, "E")
      case None => idx
      case Some(m) => DecimalValue(m.digits)
  }

  /** The number is the position unless the div text has `E` and a digit; then it is the
      first such digit run's value. */
  lemma ItemNumberChoice(c: Container, idx: int)
    ensures c.titleDiv.None? ==> ItemNumber(c, idx) == idx
    ensures c.titleDiv.Some? && (forall i: nat :: !PrefixedDigitsAt(c.titleDiv.value.raw, "E", i)) ==> ItemNumber(c, idx) == idx
    ensures c.titleDiv.Some? && (exists i: nat :: PrefixedDigitsAt(c.titleDiv.value.raw, "E", i)) ==>
      ItemNumber(c, idx) >= 0 && ItemNumber(c, idx) == DecimalValue(SearchPrefixedDigits(c.titleDiv.value.raw, "E").value.digits)
  {
  }

  /** The record built for the container at 1-based position `idx`. */
  function ItemRecord(c: Container, idx: int): Episode
  {
    Episode(ItemNumber(c, idx), JStr(ItemTitle(c, idx)), ItemRating(c))
  }

  /** `_get_episode_ratings_css_fallback` over the abstracted containers: one record per
      container of the chosen tier, in document order. */
  method FallbackEpisodes(articles: seq<Container>, listItems: seq<Container>, children: seq<Container>)
    returns (episodes: seq<Episode>)
    ensures var items := ChooseContainers(articles, listItems, children);
      |episodes| == |items| && forall i :: 0 <= i < |items| ==> episodes[i] == ItemRecord(items[i], i + 1)
  {
    var items := articles;
    if items == [] {
      items := listItems;
    }
    if items == [] {
      items := children;
    }
    assert items == ChooseContainers(articles, listItems, children);
    episodes := [];
    for i := 0 to |items|
      invariant |episodes| == i
      invariant forall j :: 0 <= j < i ==> episodes[j] == ItemRecord(items[j], j + 1)
    {
      var idx := i + 1;
      episodes := episodes + [ItemRecord(items[i], idx)];
    }
  }
}
