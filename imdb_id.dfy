/** The identifier resolver: the title id (`tt` followed by digits) inside a show URL. */
module ImdbId {
  import opened Wrappers
  import opened Text
  import opened Scan

  /** `id` is the text of the first match of `tt\d+` in `url`, which starts at `i`:
      no match starts earlier, and the digit run cannot be extended. */
  ghost predicate IsFirstId(url: string, i: nat, id: string)
  {
    && i + |id| <= |url| && url[i..i + |id|] == id
    && |id| >= 3 && id[..2] == "tt" && AllDigits(id[2..])
    && (i + |id| == |url| || !IsDigit(url[i + |id|]))
    && forall j: nat :: j < i ==> !PrefixedDigitsAt(url, "tt", j)
  }

  /** `get_imdb_id`: the first `tt\d+` in the URL; None where the source raises
      ValueError because there is none. */
  function GetImdbId(url: string): (r: Option<string>)
    ensures r.None? <==> forall i: nat :: !PrefixedDigitsAt(url, "tt", i)
    ensures r.Some? ==> exists i: nat :: IsFirstId(url, i, r.value)
  {
    match SearchPrefixedDigits(url, "tt")
    case None => None
    case Some(m) =>
      var id := url[m.start..m.start + 2 + |m.digits|];
      assert id[..2] == "tt" && id[2..] == m.digits;
      assert IsFirstId(url, m.start, id);
      Some(id)
  }

  /** The identifier's position is a match of `tt\d+`. */
  lemma FirstIdMatches(url: string, i: nat, id: string)
    requires IsFirstId(url, i, id)
    ensures PrefixedDigitsAt(url, "tt", i)
  {
    assert url[i..i + 2] == id[..2];
    assert url[i + 2] == id[2..][0];
  }

  /** The description in IsFirstId admits one identifier only, so it specifies GetImdbId. */
  lemma FirstIdUnique(url: string, i: nat, a: string, j: nat, b: string)
    requires IsFirstId(url, i, a) && IsFirstId(url, j, b)
    ensures i == j && a == b
  {
    FirstIdMatches(url, i, a);
    FirstIdMatches(url, j, b);
    assert i == j;
    assert url[i + 2..i + |a|] == a[2..] && url[i + 2..i + |b|] == b[2..];
    MaximalDigitRun(url, i + 2, |a| - 2);
    MaximalDigitRun(url, i + 2, |b| - 2);
  }

  /** Resolving an identifier that is already bare gives it back unchanged. */
  lemma ResolveBareId(id: string)
    requires |id| >= 3 && id[..2] == "tt" && AllDigits(id[2..])
    ensures GetImdbId(id) == Some(id)
  {
    assert id[0..2] == id[..2];
    assert PrefixedDigitsAt(id, "tt", 0) by { assert IsDigit(id[2..][0]); }
    assert IsFirstId(id, 0, id) by { assert id[0..|id|] == id; }
    var r := GetImdbId(id);
    var k: nat :| IsFirstId(id, k, r.value);
    FirstIdUnique(id, k, r.value, 0, id);
  }

  /** In a URL whose text before the first `tt` holds no digit, that `tt` and the
      digits after it are the identifier. */
  lemma FirstIdAfterDigitFreeText(pre: string, digits: string, rest: string)
    requires forall k :: 0 <= k < |pre| ==> !IsDigit(pre[k])
    requires digits != [] && AllDigits(digits)
    requires rest == [] || !IsDigit(rest[0])
    ensures GetImdbId(pre + "tt" + digits + rest) == Some("tt" + digits)
  {
    var url := pre + "tt" + digits + rest;
    var id := "tt" + digits;
    assert url[|pre|..|pre| + |id|] == id;
    assert id[..2] == "tt" && id[2..] == digits;
    forall j: nat | j < |pre| ensures !PrefixedDigitsAt(url, "tt", j) {
      assert url[j + 2] == if j + 2 < |pre| then pre[j + 2] else 't';
    }
    if rest != [] {
      assert url[|pre| + |id|] == rest[0];
    }
    assert IsFirstId(url, |pre|, id);
    assert PrefixedDigitsAt(url, "tt", |pre|) by {
      assert url[|pre|..|pre| + 2] == "tt" && url[|pre| + 2] == digits[0];
    }
    var r := GetImdbId(url);
    var k: nat :| IsFirstId(url, k, r.value);
    FirstIdUnique(url, k, r.value, |pre|, id);
  }
}
