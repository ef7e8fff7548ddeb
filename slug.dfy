/** `slugify` and the output file name chosen by the command line: a show name becomes a
    lower-case, dash-separated file stem. The model is over ASCII text, where Python's
    `\w` is `[A-Za-z0-9_]`, `\s` is the ASCII whitespace and `lower` maps `A`-`Z` only. */
module Slug {
  import opened Wrappers
  import opened Text

  predicate IsAscii(s: string) { forall i :: 0 <= i < |s| ==> s[i] < '\U{80}' }

  predicate IsUpper(c: char) { 'A' <= c <= 'Z' }

  predicate IsWordChar(c: char) { 'a' <= c <= 'z' || IsUpper(c) || IsDigit(c) || c == '_' }

  /** Characters that survive `re.sub(r'[^\w\s-]', '', ...)`. */
  predicate IsKept(c: char) { IsWordChar(c) || IsSpace(c) || c == '-' }

  /** Characters in a run replaced by `re.sub(r'[-\s]+', '-', ...)`. */
  predicate IsSeparator(c: char) { IsSpace(c) || c == '-' }

  /** The characters a slug is made of. */
  predicate IsSlugChar(c: char) { 'a' <= c <= 'z' || IsDigit(c) || c == '_' || c == '-' }

  predicate SlugOrSpaceText(s: string) { forall i :: 0 <= i < |s| ==> IsSlugChar(s[i]) || IsSpace(s[i]) }

  predicate SlugText(s: string) { forall i :: 0 <= i < |s| ==> IsSlugChar(s[i]) }

  /** No two adjacent dashes. */
  predicate NoDoubleDash(s: string)
    decreases |s|
  {
    |s| < 2 || ((s[0] != '-' || s[1] != '-') && NoDoubleDash(s[1..]))
  }

  /** A well-formed slug: slug characters only, no leading, trailing or doubled dash. */
  predicate IsSlug(s: string)
  {
    && SlugText(s)
    && (s != [] ==> s[0] != '-' && s[|s| - 1] != '-')
    && NoDoubleDash(s)
  }

  function LowerChar(c: char): (d: char)
    ensures !IsUpper(d)
    ensures !IsUpper(c) ==> d == c
  {
    if IsUpper(c) then (c as int + 32) as char else c
  }

  /** `text.lower()`. */
  function Lower(s: string): (r: string)
    ensures |r| == |s|
    ensures forall i :: 0 <= i < |s| ==> r[i] == LowerChar(s[i])
  {
    seq(|s|, i requires 0 <= i < |s| => LowerChar(s[i]))
  }

  /** `re.sub(r'[^\w\s-]', '', text)`: the kept characters, in order. */
  function KeepSlugChars(s: string): (r: string)
    ensures forall i :: 0 <= i < |r| ==> IsKept(r[i])
    ensures (forall i :: 0 <= i < |s| ==> !IsUpper(s[i])) ==> forall i :: 0 <= i < |r| ==> !IsUpper(r[i])
    ensures (forall i :: 0 <= i < |s| ==> IsKept(s[i])) ==> r == s
  {
    if s == [] then []
    else (if IsKept(s[0]) then [s[0]] else []) + KeepSlugChars(s[1..])
  }

  /** The text after a run of separators at its start. */
  function DropSeparators(s: string): (r: string)
    ensures |r| <= |s|
    ensures r == s[|s| - |r|..]
    ensures r != [] ==> !IsSeparator(r[0])
    ensures forall i :: 0 <= i < |s| - |r| ==> IsSeparator(s[i])
  {
    if s != [] && IsSeparator(s[0]) then DropSeparators(s[1..]) else s
  }

  /** `re.sub(r'[-\s]+', '-', text)`: every maximal run of dashes and whitespace becomes one dash. */
  function CollapseSeparators(s: string): (r: string)
    ensures r != [] <==> s != []
    ensures r != [] ==> (r[0] == '-' <==> IsSeparator(s[0]))
    ensures NoDoubleDash(r)
    decreases |s|
  {
    if s == [] then []
    else if IsSeparator(s[0]) then
      var tail := CollapseSeparators(DropSeparators(s[1..]));
      assert (['-'] + tail)[1..] == tail;
      ['-'] + tail
    else
      var tail := CollapseSeparators(s[1..]);
      assert ([s[0]] + tail)[1..] == tail;
      [s[0]] + tail
  }

  lemma SuffixSlugOrSpace(s: string, k: nat)
    requires k <= |s| && SlugOrSpaceText(s)
    ensures SlugOrSpaceText(s[k..])
  {
    forall i | 0 <= i < |s| - k
      ensures IsSlugChar(s[k..][i]) || IsSpace(s[k..][i])
    {
      assert s[k..][i] == s[k + i];
    }
  }

  lemma ConsSlugText(c: char, t: string)
    requires IsSlugChar(c) && SlugText(t)
    ensures SlugText([c] + t)
  {
    forall i | 0 <= i < 1 + |t|
      ensures IsSlugChar(([c] + t)[i])
    {
      if i > 0 {
        assert ([c] + t)[i] == t[i - 1];
      }
    }
  }

  /** Collapsing turns text of slug characters and whitespace into slug characters only. */
  lemma {:induction false} CollapseGivesSlugChars(s: string)
    requires SlugOrSpaceText(s)
    ensures SlugText(CollapseSeparators(s))
    decreases |s|
  {
    if s != [] {
      var t := s[1..];
      SuffixSlugOrSpace(s, 1);
      if IsSeparator(s[0]) {
        var rest := DropSeparators(t);
        SuffixSlugOrSpace(t, |t| - |rest|);
        CollapseGivesSlugChars(rest);
        ConsSlugText('-', CollapseSeparators(rest));
      } else {
        CollapseGivesSlugChars(t);
        ConsSlugText(s[0], CollapseSeparators(t));
      }
    }
  }

  /** Text with no whitespace and no doubled dash is left as it is by collapsing. */
  lemma {:induction false} CollapseFixed(s: string)
    requires forall i :: 0 <= i < |s| ==> !IsSpace(s[i])
    requires NoDoubleDash(s)
    ensures CollapseSeparators(s) == s
    decreases |s|
  {
    if s != [] {
      var t := s[1..];
      TailHasNoSpace(s);
      assert NoDoubleDash(t);
      CollapseFixed(t);
      CollapseFirst(s);
      assert s == [s[0]] + t;
    }
  }

  lemma TailHasNoSpace(s: string)
    requires s != [] && forall i :: 0 <= i < |s| ==> !IsSpace(s[i])
    ensures forall i :: 0 <= i < |s| - 1 ==> !IsSpace(s[1..][i])
  {
    forall i | 0 <= i < |s| - 1
      ensures !IsSpace(s[1..][i])
    {
      assert s[1..][i] == s[i + 1];
    }
  }

  /** Without whitespace and doubled dashes, a dash is a run of its own. */
  lemma CollapseFirst(s: string)
    requires s != [] && !IsSpace(s[0]) && (|s| > 1 ==> !IsSpace(s[1]))
    requires NoDoubleDash(s)
    ensures CollapseSeparators(s) == [s[0]] + CollapseSeparators(s[1..])
  {
    if IsSeparator(s[0]) && |s| > 1 {
      assert s[1..][0] == s[1];
      assert DropSeparators(s[1..]) == s[1..];
    }
  }

  /** `text.lstrip('-')`. */
  function StripLeading(s: string): (r: string)
    ensures |r| <= |s| && r == s[|s| - |r|..]
    ensures r != [] ==> r[0] != '-'
    ensures forall i :: 0 <= i < |s| - |r| ==> s[i] == '-'
    ensures s == [] || s[0] != '-' ==> r == s
  {
    if s != [] && s[0] == '-' then StripLeading(s[1..]) else s
  }

  /** `text.rstrip('-')`. */
  function StripTrailing(s: string): (r: string)
    ensures |r| <= |s| && r == s[..|r|]
    ensures r != [] ==> r[|r| - 1] != '-'
    ensures forall i :: |r| <= i < |s| ==> s[i] == '-'
    ensures s == [] || s[|s| - 1] != '-' ==> r == s
  {
    if s != [] && s[|s| - 1] == '-' then StripTrailing(s[..|s| - 1]) else s
  }

  /** `text.strip('-')`. */
  function StripDashes(s: string): string
  {
    StripTrailing(StripLeading(s))
  }

  /** `slugify`. */
  function Slugify(text: string): string
    requires IsAscii(text)
  {
    StripDashes(CollapseSeparators(KeepSlugChars(Lower(text))))
  }

  /** The word characters of a text, in order. */
  function WordChars(s: string): (r: string)
    ensures |r| <= |s|
  {
    if s == [] then [] else (if IsWordChar(s[0]) then [s[0]] else []) + WordChars(s[1..])
  }

  // ---------------------------------------------------------------------------
  // properties

  lemma {:induction false} NoDoubleDashSuffix(s: string, k: nat)
    requires k <= |s| && NoDoubleDash(s)
    ensures NoDoubleDash(s[k..])
    decreases k
  {
    if k > 0 {
      var t := s[1..];
      assert NoDoubleDash(t);
      NoDoubleDashSuffix(t, k - 1);
      assert t[k - 1..] == s[k..];
    }
  }

  lemma {:induction false} NoDoubleDashPrefix(s: string, n: nat)
    requires n <= |s| && NoDoubleDash(s)
    ensures NoDoubleDash(s[..n])
    decreases n
  {
    if n >= 2 {
      var t := s[1..];
      assert NoDoubleDash(t);
      NoDoubleDashPrefix(t, n - 1);
      assert s[..n][1..] == t[..n - 1];
      assert s[..n][0] == s[0] && s[..n][1] == s[1];
    }
  }

  lemma SuffixSlugChars(s: string, k: nat)
    requires k <= |s| && SlugText(s)
    ensures SlugText(s[k..])
  {
    forall i | 0 <= i < |s| - k
      ensures IsSlugChar(s[k..][i])
    {
      assert s[k..][i] == s[k + i];
    }
  }

  lemma PrefixSlugChars(s: string, n: nat)
    requires n <= |s| && SlugText(s)
    ensures SlugText(s[..n])
  {
    forall i | 0 <= i < n
      ensures IsSlugChar(s[..n][i])
    {
      assert s[..n][i] == s[i];
    }
  }

  /** Stripping the dashes of a text made of slug characters with no doubled dash gives a slug. */
  lemma StripDashesGivesSlug(s: string)
    requires SlugText(s)
    requires NoDoubleDash(s)
    ensures IsSlug(StripDashes(s))
  {
    var l := StripLeading(s);
    var k := |s| - |l|;
    SuffixSlugChars(s, k);
    NoDoubleDashSuffix(s, k);
    var r := StripTrailing(l);
    PrefixSlugChars(l, |r|);
    NoDoubleDashPrefix(l, |r|);
    if r != [] {
      assert r[0] == l[0];
    }
  }

  /** Every character left after lowering and filtering is a slug character or whitespace. */
  lemma KeptLowerChars(text: string)
    requires IsAscii(text)
    ensures SlugOrSpaceText(KeepSlugChars(Lower(text)))
  {
    var k := KeepSlugChars(Lower(text));
    assert forall i :: 0 <= i < |Lower(text)| ==> !IsUpper(Lower(text)[i]);
    assert forall i :: 0 <= i < |k| ==> IsKept(k[i]) && !IsUpper(k[i]);
  }

  /** The output of `slugify` is lower-case letters, digits, `_` and single dashes, with
      no dash at either end. */
  lemma SlugifyGivesSlug(text: string)
    requires IsAscii(text)
    ensures IsSlug(Slugify(text))
  {
    var k := KeepSlugChars(Lower(text));
    KeptLowerChars(text);
    CollapseGivesSlugChars(k);
    StripDashesGivesSlug(CollapseSeparators(k));
  }

  lemma {:induction false} LowerOfLower(s: string)
    requires forall i :: 0 <= i < |s| ==> !IsUpper(s[i])
    ensures Lower(s) == s
  {
  }

  /** A slug is its own slug: `slugify` is idempotent. */
  lemma SlugifyIdempotent(text: string)
    requires IsAscii(text)
    ensures IsAscii(Slugify(text))
    ensures Slugify(Slugify(text)) == Slugify(text)
  {
    var s := Slugify(text);
    SlugifyGivesSlug(text);
    SlugIsFixed(s);
  }

  /** Each step of `slugify` leaves a slug unchanged. */
  lemma SlugIsFixed(s: string)
    requires IsSlug(s)
    ensures IsAscii(s)
    ensures Slugify(s) == s
  {
    LowerKeepFixed(s);
    CollapseFixed(s);
    StripFixed(s);
  }

  lemma LowerKeepFixed(s: string)
    requires SlugText(s)
    ensures IsAscii(s)
    ensures KeepSlugChars(Lower(s)) == s
    ensures forall i :: 0 <= i < |s| ==> !IsSpace(s[i])
  {
    LowerOfLower(s);
    assert forall i :: 0 <= i < |s| ==> IsKept(s[i]);
  }

  lemma StripFixed(s: string)
    requires s != [] ==> s[0] != '-' && s[|s| - 1] != '-'
    ensures StripDashes(s) == s
  {
    assert StripLeading(s) == s;
  }

  lemma {:induction false} WordCharsAppend(a: string, b: string)
    ensures WordChars(a + b) == WordChars(a) + WordChars(b)
    decreases |a|
  {
    if a == [] {
      assert a + b == b;
    } else {
      var head := if IsWordChar(a[0]) then [a[0]] else [];
      assert (a + b)[0] == a[0];
      assert (a + b)[1..] == a[1..] + b;
      WordCharsAppend(a[1..], b);
      assert WordChars(a + b) == head + WordChars(a[1..] + b);
      assert WordChars(a) == head + WordChars(a[1..]);
    }
  }

  lemma {:induction false} WordCharsOfDashes(s: string)
    requires forall i :: 0 <= i < |s| ==> s[i] == '-'
    ensures WordChars(s) == []
    decreases |s|
  {
    if s != [] {
      WordCharsOfDashes(s[1..]);
    }
  }

  lemma {:induction false} WordCharsKept(s: string)
    ensures WordChars(KeepSlugChars(s)) == WordChars(s)
    decreases |s|
  {
    if s != [] {
      WordCharsKept(s[1..]);
      WordCharsAppend(if IsKept(s[0]) then [s[0]] else [], KeepSlugChars(s[1..]));
    }
  }

  lemma {:induction false} WordCharsDropSeparators(s: string)
    ensures WordChars(DropSeparators(s)) == WordChars(s)
    decreases |s|
  {
    if s != [] && IsSeparator(s[0]) {
      WordCharsDropSeparators(s[1..]);
    }
  }

  lemma {:induction false} WordCharsCollapse(s: string)
    ensures WordChars(CollapseSeparators(s)) == WordChars(s)
    decreases |s|
  {
    if s != [] {
      var t := s[1..];
      if IsSeparator(s[0]) {
        var rest := DropSeparators(t);
        WordCharsCollapse(rest);
        WordCharsDropSeparators(t);
        WordCharsCollapseRun(s);
      } else {
        WordCharsCollapse(t);
        WordCharsCollapseChar(s);
      }
    }
  }

  lemma WordCharsCollapseRun(s: string)
    requires s != [] && IsSeparator(s[0])
    ensures WordChars(CollapseSeparators(s)) == WordChars(CollapseSeparators(DropSeparators(s[1..])))
    ensures WordChars(s) == WordChars(s[1..])
  {
    WordCharsSkipSeparator(s);
    CollapseRunStep(s);
    WordCharsCons('-', CollapseSeparators(DropSeparators(s[1..])));
  }

  lemma WordCharsCons(c: char, t: string)
    ensures WordChars([c] + t) == (if IsWordChar(c) then [c] else []) + WordChars(t)
  {
    assert ([c] + t)[0] == c;
    assert ([c] + t)[1..] == t;
  }

  lemma WordCharsSkipSeparator(s: string)
    requires s != [] && IsSeparator(s[0])
    ensures WordChars(s) == WordChars(s[1..])
  {
  }

  lemma CollapseRunStep(s: string)
    requires s != [] && IsSeparator(s[0])
    ensures CollapseSeparators(s) == ['-'] + CollapseSeparators(DropSeparators(s[1..]))
  {
  }

  lemma WordCharsCollapseChar(s: string)
    requires s != [] && !IsSeparator(s[0])
    ensures WordChars(CollapseSeparators(s)) ==
      (if IsWordChar(s[0]) then [s[0]] else []) + WordChars(CollapseSeparators(s[1..]))
    ensures WordChars(s) == (if IsWordChar(s[0]) then [s[0]] else []) + WordChars(s[1..])
  {
    var tail := CollapseSeparators(s[1..]);
    assert CollapseSeparators(s) == [s[0]] + tail;
    assert ([s[0]] + tail)[1..] == tail;
  }

  lemma WordCharsStrip(s: string)
    ensures WordChars(StripDashes(s)) == WordChars(s)
  {
    WordCharsStripLeading(s);
    WordCharsStripTrailing(StripLeading(s));
  }

  lemma WordCharsStripLeading(s: string)
    ensures WordChars(StripLeading(s)) == WordChars(s)
  {
    var l := StripLeading(s);
    var dashes := s[..|s| - |l|];
    assert s == dashes + l;
    WordCharsAppend(dashes, l);
    WordCharsOfDashes(dashes);
  }

  lemma WordCharsStripTrailing(s: string)
    ensures WordChars(StripTrailing(s)) == WordChars(s)
  {
    var r := StripTrailing(s);
    var dashes := s[|r|..];
    assert s == r + dashes;
    WordCharsAppend(r, dashes);
    WordCharsOfDashes(dashes);
  }

  /** `slugify` keeps every word character of the lowered text, in order: it only drops
      other characters and rewrites separators as dashes. */
  lemma SlugifyKeepsWords(text: string)
    requires IsAscii(text)
    ensures WordChars(Slugify(text)) == WordChars(Lower(text))
  {
    var k := KeepSlugChars(Lower(text));
    WordCharsKept(Lower(text));
    WordCharsCollapse(k);
    WordCharsStrip(CollapseSeparators(k));
  }

  lemma EndsWithAppended(s: string, suffix: string)
    ensures EndsWith(s + suffix, suffix)
  {
    assert (s + suffix)[|s|..] == suffix;
  }

  /** The output file name: `--output` when given (a non-empty argument), with `.html`
      appended unless it already ends so; otherwise the slug of the show name plus `.html`. */
  function OutputFilename(output: Option<string>, showName: string): (name: string)
    requires output.None? || output.value == [] ==> IsAscii(showName)
    ensures EndsWith(name, ".html")
    ensures output.Some? && output.value != [] && EndsWith(output.value, ".html") ==> name == output.value
    ensures output.Some? && output.value != [] && !EndsWith(output.value, ".html") ==> name == output.value + ".html"
    ensures output.None? || output.value == [] ==> name == Slugify(showName) + ".html"
  {
    if output.Some? && output.value != [] then
      if EndsWith(output.value, ".html") then output.value
      else
        EndsWithAppended(output.value, ".html");
        output.value + ".html"
    else
      EndsWithAppended(Slugify(showName), ".html");
      Slugify(showName) + ".html"
  }
}
