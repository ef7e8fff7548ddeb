/** An explicit scanner for the episode-code prefix of an episode title,
    `re.search(r'[ES]\d+\.?[ES]?\d*\s*[∙·]\s*(.+)', title).group(1)`. `re.search`
    reports the match that starts leftmost; for that start, the one its backtracking
    finds first. */
module EpisodePrefix {
  import opened Wrappers
  import opened Text

  predicate IsEpisodeLetter(c: char) { c == 'E' || c == 'S' }

  /** The two separators of the character class `[∙·]`: U+2219 and U+00B7. */
  predicate IsBullet(c: char) { c == '\U{2219}' || c == '\U{B7}' }

  /** `u` matches `[ES]\d+\.?[ES]?\d*\s*` as a whole. Each optional part is taken
      whenever it is present: leaving it out could never let the rest match. */
  predicate IsEpisodeCode(u: string)
  {
    && |u| >= 2 && IsEpisodeLetter(u[0]) && IsDigit(u[1])
    && forall q :: CodeEnd(u) <= q < |u| ==> IsSpace(u[q])
  }

  /** A character `[ES]\d+\.?[ES]?\d*` can match. */
  predicate IsCodeChar(c: char) { IsEpisodeLetter(c) || IsDigit(c) || c == '.' }

  /** Where `[ES]\d+\.?[ES]?\d*` stops in `u`, each optional part taken when present. */
  function CodeEnd(u: string): (e: nat)
    requires |u| >= 2
    ensures e <= |u|
    ensures forall q :: 1 <= q < e ==> IsCodeChar(u[q])
  {
    DigitsEnd(u, OptionalLetterEnd(u, OptionalPointEnd(u, DigitsEnd(u, 1))))
  }

  /** Where `\d*` stops when it starts at `k`. */
  function DigitsEnd(u: string, k: nat): (e: nat)
    requires k <= |u|
    ensures k <= e <= |u|
    ensures forall q :: k <= q < e ==> IsDigit(u[q])
  {
    DigitRunIsDigits(u, k);
    k + DigitRunLen(u, k)
  }

  /** Where `\.?` stops when it starts at `k`. */
  function OptionalPointEnd(u: string, k: nat): (e: nat)
    requires k <= |u|
    ensures k <= e <= |u|
    ensures forall q :: k <= q < e ==> u[q] == '.'
  {
    if k < |u| && u[k] == '.' then k + 1 else k
  }

  /** Where `[ES]?` stops when it starts at `k`. */
  function OptionalLetterEnd(u: string, k: nat): (e: nat)
    requires k <= |u|
    ensures k <= e <= |u|
    ensures forall q :: k <= q < e ==> IsEpisodeLetter(u[q])
  {
    if k < |u| && IsEpisodeLetter(u[k]) then k + 1 else k
  }

  lemma DigitRunIsDigits(s: string, k: nat)
    requires k <= |s|
    ensures forall q :: k <= q < k + DigitRunLen(s, k) ==> IsDigit(s[q])
  {
    var e := k + DigitRunLen(s, k);
    forall q | k <= q < e ensures IsDigit(s[q]) {
      assert s[k..e][q - k] == s[q];
    }
  }

  /** Leftmost separator `[∙·]` at or after `from`. */
  function FindBullet(s: string, from: nat): (r: Option<nat>)
    requires from <= |s|
    ensures r.Some? ==> from <= r.value < |s| && IsBullet(s[r.value])
    ensures r.Some? ==> forall j :: from <= j < r.value ==> !IsBullet(s[j])
    ensures r.None? ==> forall j :: from <= j < |s| ==> !IsBullet(s[j])
    decreases |s| - from
  {
    if from == |s| then None
    else if IsBullet(s[from]) then Some(from)
    else FindBullet(s, from + 1)
  }

  /** `t` holds no line feed: all of it lies on one line. */
  predicate NoLineFeed(t: string) { forall i :: 0 <= i < |t| ==> t[i] != '\n' }

  /** Where `.` (any character but a line feed) stops matching, from position `k`. */
  function LineEnd(s: string, k: nat): (e: nat)
    requires k <= |s|
    ensures k <= e <= |s| && (e == |s| || s[e] == '\n')
    ensures forall j :: k <= j < e ==> s[j] != '\n'
    decreases |s| - k
  {
    if k == |s| || s[k] == '\n' then k else LineEnd(s, k + 1)
  }

  /** Largest position in [k, w) that does not hold a line feed. */
  function LastNonNewline(s: string, k: nat, w: nat): (r: Option<nat>)
    requires k <= w <= |s|
    ensures r.Some? ==> k <= r.value < w && s[r.value] != '\n'
    ensures r.Some? ==> forall j :: r.value < j < w ==> s[j] == '\n'
    ensures r.None? ==> forall j :: k <= j < w ==> s[j] == '\n'
    decreases w - k
  {
    if w == k then None
    else if s[w - 1] != '\n' then Some(w - 1)
    else LastNonNewline(s, k, w - 1)
  }

  /** `.+` can start at `j` once `\s*` has matched from `k`: only whitespace lies between,
      and `s[j]` is not a line feed. */
  ghost predicate IsTailStart(s: string, k: nat, j: nat)
  {
    k <= j < |s| && s[j] != '\n' && forall q :: k <= q < j ==> IsSpace(s[q])
  }

  lemma SpaceRunIsSpaces(s: string, k: nat)
    requires k <= |s|
    ensures forall q :: k <= q < k + SpaceRunLen(s, k) ==> IsSpace(s[q])
  {
    var w := k + SpaceRunLen(s, k);
    forall q | k <= q < w ensures IsSpace(s[q]) {
      assert s[k..w][q - k] == s[q];
    }
  }

  /** Group 1 of `\s*(.+)` matched at position `k`: the greedy `\s*` first, and when
      it leaves nothing for `.+`, handing characters back one at a time. */
  function TailGroup(s: string, k: nat): (g: Option<string>)
    requires k <= |s|
    ensures g.Some? ==> g.value != [] && NoLineFeed(g.value)
  {
    var w := k + SpaceRunLen(s, k);
    if w < |s| then Some(s[w..LineEnd(s, w)])
    else
      match LastNonNewline(s, k, w)
      case None => None
      case Some(j) => Some(s[j..LineEnd(s, j)])
  }

  /** When the whitespace run from `k` ends before the text does, `.+` starts where
      the run ends, and nowhere later. */
  lemma TailStartAtRunEnd(s: string, k: nat, w: nat)
    requires k <= |s| && w == k + SpaceRunLen(s, k) && w < |s|
    ensures IsTailStart(s, k, w)
    ensures forall q: nat :: w < q ==> !IsTailStart(s, k, q)
  {
    SpaceRunIsSpaces(s, k);
    assert !IsSpace(s[w]);
  }

  /** When only whitespace follows `k`, `.+` starts at the last character that is not a
      line feed, and nowhere later. */
  lemma TailStartAtLast(s: string, k: nat, j: nat)
    requires k <= j < |s| && AllSpacesFrom(s, k) && s[j] != '\n'
    requires forall q :: j < q < |s| ==> s[q] == '\n'
    ensures IsTailStart(s, k, j)
    ensures forall q: nat :: j < q ==> !IsTailStart(s, k, q)
  {
  }

  /** All characters from `k` on are whitespace. */
  ghost predicate AllSpacesFrom(s: string, k: nat)
  {
    forall q :: k <= q < |s| ==> IsSpace(s[q])
  }

  /** `TailGroup` finds a group exactly when some character after `k` is not a line feed,
      and the group starts at the last position `.+` can start at and runs to the end
      of the line. */
  lemma TailGroupSpec(s: string, k: nat)
    requires k <= |s|
    ensures TailGroup(s, k).Some? <==> exists j :: k <= j < |s| && s[j] != '\n'
    ensures TailGroup(s, k).Some? ==>
      exists j: nat :: IsTailStart(s, k, j) && (forall q: nat :: j < q ==> !IsTailStart(s, k, q)) &&
                       TailGroup(s, k).value == s[j..LineEnd(s, j)]
  {
    var w := k + SpaceRunLen(s, k);
    if w < |s| {
      TailStartAtRunEnd(s, k, w);
    } else {
      SpaceRunIsSpaces(s, k);
      assert AllSpacesFrom(s, k);
      match LastNonNewline(s, k, w)
      case None =>
      case Some(j) =>
        TailStartAtLast(s, k, j);
    }
  }

  /** The group the pattern captures when its match starts at `i`, if it matches there.
      The separator of such a match is the first one after `i`, since the code before
      it contains none. */
  function MatchAt(s: string, i: nat): (r: Option<string>)
    requires i < |s|
    ensures r.Some? ==> r.value != [] && NoLineFeed(r.value)
    ensures r.Some? ==> exists p :: i < p < |s| && IsBullet(s[p])
  {
    if !IsEpisodeLetter(s[i]) then None
    else
      match FindBullet(s, i + 1)
      case None => None
      case Some(p) => if IsEpisodeCode(s[i..p]) then TailGroup(s, p + 1) else None
  }

  /** `re.search(r'[ES]\d+\.?[ES]?\d*\s*[∙·]\s*(.+)', s[from..]).group(1)` read on `s`:
      the first position from `from` on where the pattern matches. */
  function SearchEpisodePrefix(s: string, from: nat): (r: Option<string>)
    requires from <= |s|
    ensures r.Some? ==> r.value != [] && NoLineFeed(r.value)
    ensures r.Some? ==> exists p :: from <= p < |s| && IsBullet(s[p])
    decreases |s| - from
  {
    if from == |s| then None
    else if MatchAt(s, from).Some? then MatchAt(s, from)
    else SearchEpisodePrefix(s, from + 1)
  }

  /** No character of an episode code is a separator `∙` or `·`. */
  lemma CodeHasNoBullet(u: string)
    requires IsEpisodeCode(u)
    ensures forall q :: 0 <= q < |u| ==> !IsBullet(u[q])
  {
  }

  /** The same, read on the text the code was cut from. */
  lemma CodeHasNoBulletAt(s: string, i: nat, p: nat)
    requires i <= p <= |s| && IsEpisodeCode(s[i..p])
    ensures forall q :: i <= q < p ==> !IsBullet(s[q])
  {
    CodeHasNoBullet(s[i..p]);
    forall q | i <= q < p ensures !IsBullet(s[q]) {
      assert s[i..p][q - i] == s[q];
    }
  }

  /** The pattern `[ES]\d+\.?[ES]?\d*\s*[∙·]\s*(.+)` matches at `i` with its separator at
      `p`: the code spans `s[i..p]`, `s[p]` is `∙` or `·`, and `\s*(.+)` can match after it. */
  ghost predicate PrefixMatchAt(s: string, i: nat, p: nat)
  {
    && i < p < |s| && IsEpisodeCode(s[i..p]) && IsBullet(s[p])
    && exists j :: p < j < |s| && s[j] != '\n'
  }

  /** The pattern matches somewhere at or after `from`. */
  ghost predicate MatchFrom(s: string, from: nat)
  {
    exists i: nat, p: nat :: from <= i && PrefixMatchAt(s, i, p)
  }

  /** `(i, p)` is the match `re.search` reports when it starts scanning at `from`. */
  ghost predicate LeftmostMatch(s: string, from: nat, i: nat, p: nat)
  {
    from <= i && PrefixMatchAt(s, i, p) && forall i2: nat, p2: nat :: from <= i2 < i ==> !PrefixMatchAt(s, i2, p2)
  }

  /** A match at `i` has one separator position only: the code holds no separator. */
  lemma PrefixMatchUnique(s: string, i: nat, p: nat, p2: nat)
    requires PrefixMatchAt(s, i, p) && PrefixMatchAt(s, i, p2)
    ensures p == p2
  {
    CodeHasNoBulletAt(s, i, p);
    CodeHasNoBulletAt(s, i, p2);
  }

  /** No match starts at a position that does not hold `E` or `S`. */
  lemma NoMatchAtNonLetter(s: string, i: nat)
    requires i < |s| && !IsEpisodeLetter(s[i])
    ensures forall p: nat :: !PrefixMatchAt(s, i, p)
  {
    forall p: nat | i < p < |s| ensures !IsEpisodeCode(s[i..p]) {
      assert s[i..p][0] == s[i];
    }
  }

  /** A separator inside `s[i..p2]` keeps it from being an episode code. */
  lemma BulletEndsCode(s: string, i: nat, p: nat, p2: nat)
    requires i < p < p2 <= |s| && IsBullet(s[p])
    ensures !IsEpisodeCode(s[i..p2])
  {
    if IsEpisodeCode(s[i..p2]) {
      CodeHasNoBulletAt(s, i, p2);
      assert false;
    }
  }

  /** When the first separator after `i` does not complete a match, nothing matches at `i`. */
  lemma NoMatchPastBullet(s: string, i: nat, p: nat)
    requires i < p < |s| && IsBullet(s[p]) && forall j :: i < j < p ==> !IsBullet(s[j])
    requires !PrefixMatchAt(s, i, p)
    ensures forall p2: nat :: !PrefixMatchAt(s, i, p2)
  {
    forall p2: nat | p < p2 < |s| ensures !IsEpisodeCode(s[i..p2]) {
      BulletEndsCode(s, i, p, p2);
    }
  }

  /** Without a separator after `i`, nothing matches at `i`. */
  lemma NoMatchWithoutBullet(s: string, i: nat)
    requires i < |s| && forall j :: i < j < |s| ==> !IsBullet(s[j])
    ensures forall p: nat :: !PrefixMatchAt(s, i, p)
  {
  }

  /** The two facts `SearchEpisodePrefixSpec` states about scanning from `from`. */
  ghost predicate FindsLeftmostMatch(s: string, from: nat)
    requires from <= |s|
  {
    var r := SearchEpisodePrefix(s, from);
    && (r.Some? <==> MatchFrom(s, from))
    && (r.Some? ==> exists i: nat, p: nat :: LeftmostMatch(s, from, i, p) && r == TailGroup(s, p + 1))
  }

  /** Without a match at `from`, a match at or after `from` is one at or after `from + 1`. */
  lemma MatchFromShift(s: string, from: nat)
    requires from < |s| && forall p: nat :: !PrefixMatchAt(s, from, p)
    ensures MatchFrom(s, from) <==> MatchFrom(s, from + 1)
  {
    if MatchFrom(s, from) {
      var i: nat, p: nat :| from <= i && PrefixMatchAt(s, i, p);
      assert from + 1 <= i;
    }
  }

  /** Without a match at `from`, the leftmost match from `from + 1` is the leftmost from `from`. */
  lemma LeftmostShift(s: string, from: nat, i: nat, p: nat)
    requires from < |s| && forall p: nat :: !PrefixMatchAt(s, from, p)
    requires LeftmostMatch(s, from + 1, i, p)
    ensures LeftmostMatch(s, from, i, p)
  {
    forall i2: nat, p2: nat | from <= i2 < i ensures !PrefixMatchAt(s, i2, p2) {
      if i2 > from {
        assert from + 1 <= i2 < i;
      }
    }
  }

  /** Without a match at `from`, scanning from `from` finds what scanning from `from + 1` finds. */
  lemma NoMatchHereShift(s: string, from: nat)
    requires from < |s| && forall p: nat :: !PrefixMatchAt(s, from, p)
    requires SearchEpisodePrefix(s, from) == SearchEpisodePrefix(s, from + 1)
    requires FindsLeftmostMatch(s, from + 1)
    ensures FindsLeftmostMatch(s, from)
  {
    MatchFromShift(s, from);
    var r := SearchEpisodePrefix(s, from);
    if r.Some? {
      var i: nat, p: nat :| LeftmostMatch(s, from + 1, i, p) && r == TailGroup(s, p + 1);
      LeftmostShift(s, from, i, p);
    }
  }

  /** `r` is what the pattern captures at position `i`: a group exactly when the pattern
      matches there, and then the tail after that match's separator. */
  ghost predicate CapturesAt(s: string, i: nat, r: Option<string>)
  {
    && (r.Some? <==> exists p: nat :: PrefixMatchAt(s, i, p))
    && forall p: nat :: PrefixMatchAt(s, i, p) ==> r == TailGroup(s, p + 1)
  }

  /** At a separator `p` that is the first after `i`, `MatchAt` decides on `s[i..p]`. */
  lemma MatchAtBullet(s: string, i: nat, p: nat)
    requires i < |s| && IsEpisodeLetter(s[i]) && FindBullet(s, i + 1) == Some(p)
    ensures MatchAt(s, i) == if IsEpisodeCode(s[i..p]) then TailGroup(s, p + 1) else None
  {
  }

  /** A code followed by its first separator and a tail: the pattern matches at `i`
      with that separator only. */
  lemma MatchWithTail(s: string, i: nat, p: nat, r: Option<string>)
    requires PrefixMatchAt(s, i, p) && TailGroup(s, p + 1).Some? && r == TailGroup(s, p + 1)
    ensures CapturesAt(s, i, r)
  {
    forall p2: nat | PrefixMatchAt(s, i, p2) ensures r == TailGroup(s, p2 + 1) {
      PrefixMatchUnique(s, i, p, p2);
    }
  }

  /** The pattern matches at `i` with the first separator after it, if at all. */
  lemma MatchAtFound(s: string, i: nat, p: nat)
    requires i < |s| && IsEpisodeLetter(s[i]) && FindBullet(s, i + 1) == Some(p)
    requires IsEpisodeCode(s[i..p])
    ensures CapturesAt(s, i, MatchAt(s, i))
  {
    MatchAtBullet(s, i, p);
    TailGroupSpec(s, p + 1);
    if TailGroup(s, p + 1).Some? {
      assert PrefixMatchAt(s, i, p);
      MatchWithTail(s, i, p, MatchAt(s, i));
    } else {
      assert !PrefixMatchAt(s, i, p);
      NoMatchPastBullet(s, i, p);
    }
  }

  /** `MatchAt` agrees with the pattern at every position. */
  lemma MatchAtSpec(s: string, i: nat)
    requires i < |s|
    ensures CapturesAt(s, i, MatchAt(s, i))
  {
    if !IsEpisodeLetter(s[i]) {
      NoMatchAtNonLetter(s, i);
    } else {
      match FindBullet(s, i + 1)
      case None =>
        NoMatchWithoutBullet(s, i);
      case Some(p) =>
        MatchAtBullet(s, i, p);
        if IsEpisodeCode(s[i..p]) {
          MatchAtFound(s, i, p);
        } else {
          NoMatchPastBullet(s, i, p);
        }
    }
  }

  /** Nothing matches at the end of the text. */
  lemma NoMatchAtEnd(s: string)
    ensures FindsLeftmostMatch(s, |s|)
  {
  }

  /** A match at `from` is the leftmost one from `from`, and the scan stops there. */
  lemma MatchHere(s: string, from: nat)
    requires from < |s| && CapturesAt(s, from, MatchAt(s, from)) && MatchAt(s, from).Some?
    ensures FindsLeftmostMatch(s, from)
  {
    var p: nat :| PrefixMatchAt(s, from, p);
    assert LeftmostMatch(s, from, from, p);
    assert SearchEpisodePrefix(s, from) == MatchAt(s, from);
  }

  /** One step of the scan: what holds from `from + 1` holds from `from`. */
  lemma SearchStep(s: string, from: nat)
    requires from < |s| && FindsLeftmostMatch(s, from + 1)
    ensures FindsLeftmostMatch(s, from)
  {
    MatchAtSpec(s, from);
    if MatchAt(s, from).Some? {
      MatchHere(s, from);
    } else {
      NoMatchHereShift(s, from);
    }
  }

  /** `SearchEpisodePrefix` is `re.search`: it finds a title exactly when the pattern
      matches at or after `from`, and the title is the group after the leftmost match. */
  lemma {:induction false} SearchEpisodePrefixSpec(s: string, from: nat)
    requires from <= |s|
    ensures FindsLeftmostMatch(s, from)
    decreases |s| - from
  {
    if from == |s| {
      NoMatchAtEnd(s);
    } else {
      SearchEpisodePrefixSpec(s, from + 1);
      SearchStep(s, from);
    }
  }

  /** After one space and a title that starts with no whitespace and runs to the end
      without a line feed, the group of `\s*(.+)` is the title. */
  lemma TailAfterSpace(s: string, k: nat, t: string)
    requires k + 1 + |t| == |s| && s[k] == ' ' && s[k + 1..] == t
    requires t != [] && !IsSpace(t[0]) && NoLineFeed(t)
    ensures TailGroup(s, k) == Some(t)
  {
    assert s[k + 1] == t[0];
    assert SpaceRunLen(s, k + 1) == 0;
    assert SpaceRunLen(s, k) == 1;
    LineEndOfLastLine(s, k + 1);
    assert s[k + 1..LineEnd(s, k + 1)] == t;
  }

  /** On a last line without a line feed, `.` matches to the end of the text. */
  lemma {:induction false} LineEndOfLastLine(s: string, k: nat)
    requires k <= |s| && NoLineFeed(s[k..])
    ensures LineEnd(s, k) == |s|
    decreases |s| - k
  {
    if k < |s| {
      assert s[k] == s[k..][0];
      assert s[k + 1..] == s[k..][1..];
      LineEndOfLastLine(s, k + 1);
    }
  }

  /** The first separator at or after `from` is the one `FindBullet` reports. */
  lemma {:induction false} FindBulletAt(s: string, from: nat, p: nat)
    requires from <= p < |s| && IsBullet(s[p])
    requires forall j :: from <= j < p ==> !IsBullet(s[j])
    ensures FindBullet(s, from) == Some(p)
    decreases p - from
  {
    if from < p {
      FindBulletAt(s, from + 1, p);
    }
  }

  /** The same, read on a text whose code ends at `p`. */
  lemma DropsEpisodeCodeAt(s: string, p: nat)
    requires 0 < p && p + 2 < |s| && IsEpisodeCode(s[0..p]) && IsBullet(s[p]) && s[p + 1] == ' '
    requires !IsSpace(s[p + 2]) && NoLineFeed(s[p + 2..])
    ensures SearchEpisodePrefix(s, 0) == Some(s[p + 2..])
  {
    assert s[0..p][0] == s[0];
    CodeHasNoBulletAt(s, 0, p);
    FindBulletAt(s, 1, p);
    TailAfterSpace(s, p + 1, s[p + 2..]);
    MatchAtBullet(s, 0, p);
  }

  /** A text made of an episode code, a separator, a space and a title that starts with
      no whitespace and has no line feed gives exactly that title. */
  lemma DropsEpisodeCode(code: string, b: char, t: string)
    requires IsEpisodeCode(code) && IsBullet(b)
    requires t != [] && !IsSpace(t[0]) && NoLineFeed(t)
    ensures SearchEpisodePrefix(code + [b] + " " + t, 0) == Some(t)
  {
    var s := code + [b] + " " + t;
    var p := |code|;
    assert s[0..p] == code;
    assert s[p] == b && s[p + 1] == ' ' && s[p + 2] == t[0];
    assert s[p + 2..] == t;
    DropsEpisodeCodeAt(s, p);
  }
}
