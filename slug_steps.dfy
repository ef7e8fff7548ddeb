/** How the steps of `slugify` act on pieces of text: the character filter works
    character by character, and collapsing turns each maximal run of dashes and whitespace
    into one dash while leaving the text around it to be collapsed on its own. */
module SlugSteps {
  import opened Slug

  lemma AppendAssoc(p: string, q: string, r: string)
    ensures p + (q + r) == (p + q) + r
  {
  }

  lemma TailOfAppend(x: string, z: string)
    requires x != []
    ensures (x + z)[0] == x[0] && (x + z)[1..] == x[1..] + z
  {
  }

  /** Filtering works character by character: the filter of a concatenation is the
      concatenation of the filters. */
  lemma {:induction false} KeepSlugCharsAppend(a: string, b: string)
    ensures KeepSlugChars(a + b) == KeepSlugChars(a) + KeepSlugChars(b)
    decreases |a|
  {
    if a == [] {
      assert a + b == b;
    } else {
      var head := if IsKept(a[0]) then [a[0]] else [];
      TailOfAppend(a, b);
      KeepSlugCharsAppend(a[1..], b);
      AppendAssoc(head, KeepSlugChars(a[1..]), KeepSlugChars(b));
    }
  }

  /** A single character survives the filter exactly when it is a kept character. */
  lemma KeepSlugCharsOne(c: char)
    ensures KeepSlugChars([c]) == if IsKept(c) then [c] else []
  {
    assert [c][1..] == [];
  }

  /** A run of separators in front of text that does not start with one is dropped whole. */
  lemma {:induction false} DropSeparatorsRun(run: string, y: string)
    requires forall i :: 0 <= i < |run| ==> IsSeparator(run[i])
    requires y == [] || !IsSeparator(y[0])
    ensures DropSeparators(run + y) == y
    decreases |run|
  {
    if run == [] {
      assert run + y == y;
    } else {
      assert (run + y)[0] == run[0];
      assert (run + y)[1..] == run[1..] + y;
      DropSeparatorsRun(run[1..], y);
    }
  }

  /** Dropping leading separators stops inside `a` when `a` ends with another character. */
  lemma {:induction false} DropSeparatorsAppend(a: string, b: string)
    requires a != [] && !IsSeparator(a[|a| - 1])
    ensures DropSeparators(a + b) == DropSeparators(a) + b
    decreases |a|
  {
    assert (a + b)[0] == a[0];
    if IsSeparator(a[0]) {
      assert |a| > 1;
      assert (a + b)[1..] == a[1..] + b;
      DropSeparatorsAppend(a[1..], b);
    }
  }

  /** A maximal run of separators between two texts becomes a single dash: collapsing
      `x + run + y` collapses `x` and `y` on their own and puts one `-` between them. */
  lemma {:induction false} CollapseRunSplit(x: string, run: string, y: string)
    requires run != [] && forall i :: 0 <= i < |run| ==> IsSeparator(run[i])
    requires x == [] || !IsSeparator(x[|x| - 1])
    requires y == [] || !IsSeparator(y[0])
    ensures CollapseSeparators(x + run + y) == CollapseSeparators(x) + "-" + CollapseSeparators(y)
    decreases |x|
  {
    if x == [] {
      CollapseRunAlone(run, y);
    } else if IsSeparator(x[0]) {
      DropKeepsLast(x[1..]);
      CollapseRunSplit(DropSeparators(x[1..]), run, y);
      CollapseRunAfterRun(x, run, y);
    } else {
      CollapseRunSplit(x[1..], run, y);
      CollapseRunAfterChar(x, run, y);
    }
  }

  /** The base case: a run at the start becomes the leading dash. */
  lemma CollapseRunAlone(run: string, y: string)
    requires run != [] && forall i :: 0 <= i < |run| ==> IsSeparator(run[i])
    requires y == [] || !IsSeparator(y[0])
    ensures CollapseSeparators([] + run + y) == CollapseSeparators([]) + "-" + CollapseSeparators(y)
  {
    var s := run + y;
    assert [] + run == run;
    TailOfAppend(run, y);
    DropSeparatorsRun(run[1..], y);
    CollapseLeadingRun(s, y);
    assert CollapseSeparators([]) + "-" == "-";
  }

  /** Text that starts with a separator and continues, past its leading run, with `rest`. */
  lemma CollapseLeadingRun(s: string, rest: string)
    requires s != [] && IsSeparator(s[0]) && DropSeparators(s[1..]) == rest
    ensures CollapseSeparators(s) == "-" + CollapseSeparators(rest)
  {
    CollapseRunStep(s);
  }

  /** Dropping the leading separators of text that ends with another character leaves a
      non-empty suffix with the same last character. */
  lemma DropKeepsLast(t: string)
    requires t != [] && !IsSeparator(t[|t| - 1])
    ensures DropSeparators(t) != [] && |DropSeparators(t)| <= |t|
    ensures DropSeparators(t)[|DropSeparators(t)| - 1] == t[|t| - 1]
  {
  }

  /** The step past a leading run of `x`. */
  lemma CollapseRunAfterRun(x: string, run: string, y: string)
    requires |x| > 1 && IsSeparator(x[0]) && !IsSeparator(x[|x| - 1])
    requires CollapseSeparators(DropSeparators(x[1..]) + run + y) ==
      CollapseSeparators(DropSeparators(x[1..])) + "-" + CollapseSeparators(y)
    ensures CollapseSeparators(x + run + y) == CollapseSeparators(x) + "-" + CollapseSeparators(y)
  {
    var x2 := DropSeparators(x[1..]);
    var a := CollapseSeparators(x2);
    var b := CollapseSeparators(y);
    AppendAssoc(x, run, y);
    TailOfAppend(x, run + y);
    DropSeparatorsAppend(x[1..], run + y);
    AppendAssoc(x2, run, y);
    CollapseLeadingRun(x + (run + y), x2 + run + y);
    CollapseLeadingRun(x, x2);
    AppendAssoc("-", a + "-", b);
    AppendAssoc("-", a, "-");
  }

  /** The step past a leading character of `x` that is not a separator. */
  lemma CollapseRunAfterChar(x: string, run: string, y: string)
    requires x != [] && !IsSeparator(x[0])
    requires CollapseSeparators(x[1..] + run + y) == CollapseSeparators(x[1..]) + "-" + CollapseSeparators(y)
    ensures CollapseSeparators(x + run + y) == CollapseSeparators(x) + "-" + CollapseSeparators(y)
  {
    var a := CollapseSeparators(x[1..]);
    var b := CollapseSeparators(y);
    AppendAssoc(x, run, y);
    TailOfAppend(x, run + y);
    AppendAssoc(x[1..], run, y);
    CollapseKeepsChar(x + (run + y));
    CollapseKeepsChar(x);
    AppendAssoc([x[0]], a + "-", b);
    AppendAssoc([x[0]], a, "-");
  }

  /** A character other than a separator is copied by collapsing. */
  lemma CollapseKeepsChar(s: string)
    requires s != [] && !IsSeparator(s[0])
    ensures CollapseSeparators(s) == [s[0]] + CollapseSeparators(s[1..])
  {
  }

  /** Characters that `lower` and the filter leave as they are. */
  predicate IsPlain(c: char) { c < '\U{80}' && !IsUpper(c) && IsKept(c) }

  lemma SlugCharsArePlain(x: string)
    requires SlugText(x)
    ensures forall i :: 0 <= i < |x| ==> IsPlain(x[i])
  {
  }

  lemma JoinIsPlain(x: string, run: string, y: string)
    requires forall i :: 0 <= i < |x| ==> IsPlain(x[i])
    requires forall i :: 0 <= i < |run| ==> IsPlain(run[i])
    requires forall i :: 0 <= i < |y| ==> IsPlain(y[i])
    ensures forall i :: 0 <= i < |x + run + y| ==> IsPlain((x + run + y)[i])
  {
  }

  /** Plain text is left as it is by lowering and filtering. */
  lemma PlainIsFiltered(t: string)
    requires forall i :: 0 <= i < |t| ==> IsPlain(t[i])
    ensures IsAscii(t) && KeepSlugChars(Lower(t)) == t
  {
    LowerOfLower(t);
  }

  /** Two slugs joined by a run of separators collapse to the slugs joined by one dash. */
  lemma JoinCollapses(x: string, run: string, y: string)
    requires IsSlug(x) && IsSlug(y) && x != [] && y != []
    requires run != [] && forall i :: 0 <= i < |run| ==> IsSeparator(run[i])
    ensures CollapseSeparators(x + run + y) == x + "-" + y
  {
    LowerKeepFixed(x);
    LowerKeepFixed(y);
    CollapseFixed(x);
    CollapseFixed(y);
    CollapseRunSplit(x, run, y);
  }

  /** Two slugs joined by any run of dashes and whitespace slugify to the two slugs
      joined by one dash. */
  lemma SlugifyJoinsSlugs(x: string, run: string, y: string)
    requires IsSlug(x) && IsSlug(y) && x != [] && y != []
    requires run != [] && forall i :: 0 <= i < |run| ==> IsSeparator(run[i])
    ensures IsAscii(x + run + y)
    ensures Slugify(x + run + y) == x + "-" + y
  {
    SlugCharsArePlain(x);
    SlugCharsArePlain(y);
    JoinIsPlain(x, run, y);
    PlainIsFiltered(x + run + y);
    JoinCollapses(x, run, y);
    var j := x + "-" + y;
    assert j[0] == x[0] && j[|j| - 1] == y[|y| - 1];
    StripFixed(j);
  }
}
