/**
  The placeholder rewrites applied to a post's HTML after the heading ids:
  display math `$$X$$`, then inline math `$X$` (X a non-empty run without `$`),
  each a global left-to-right `String.replace`, and finally every literal
  `<BlogDemo />` tag becomes the mount point of the demo component.
 */
module MathRewrite {
  import opened Wrappers

  /** The delimiter of a math span: `d` dollars. */
  function Dollars(d: nat): (r: string)
    ensures |r| == d && forall i :: 0 <= i < d ==> r[i] == '$'
  {
    seq(d, i => '$')
  }

  predicate DollarFree(s: string) { forall i :: 0 <= i < |s| ==> s[i] != '$' }

  /** The length of the `$`-free run `s` starts with: the greedy `[^$]+` group. */
  function NonDollarRun(s: string): (n: nat)
    ensures n <= |s| && DollarFree(s[..n])
    ensures n < |s| ==> s[n] == '$'
  {
    if s != [] && s[0] != '$' then
      var n := NonDollarRun(s[1..]);
      assert s[..n + 1] == [s[0]] + s[1..][..n];
      n + 1
    else 0
  }

  /** `d` dollars, a `[^$]+` group of length `n`, then `d` dollars match at the start of `s`. */
  predicate SpanAt(s: string, d: nat, n: nat) {
    n >= 1 && 2 * d + n <= |s| && s[..d] == Dollars(d)
    && DollarFree(s[d..d + n]) && s[d + n..2 * d + n] == Dollars(d)
  }

  /** Only the whole `$`-free run can be the group of a match: every shorter choice is followed by
      a character that is not `$`, and a longer one would hold a `$`. */
  lemma SpanLength(s: string, d: nat, m: nat)
    requires d >= 1 && SpanAt(s, d, m)
    ensures m == NonDollarRun(s[d..])
  {
    var n := NonDollarRun(s[d..]);
    assert s[d..][..m] == s[d..d + m];
    assert s[d..][m] == s[d + m..2 * d + m][0];
  }

  /** The group length of the match at the start of `s`, if the pattern matches there. */
  function MatchAt(s: string, d: nat): (r: Option<nat>)
    requires d >= 1
    ensures r.Some? ==> SpanAt(s, d, r.value)
    ensures forall n: nat :: SpanAt(s, d, n) ==> r == Some(n)
  {
    var n := if |s| >= d then NonDollarRun(s[d..]) else 0;
    assert forall m: nat :: SpanAt(s, d, m) ==> m == n by {
      forall m: nat | SpanAt(s, d, m) ensures m == n {
        SpanLength(s, d, m);
      }
    }
    if |s| >= d && s[..d] == Dollars(d) && n >= 1 && 2 * d + n <= |s|
       && s[d + n..2 * d + n] == Dollars(d) then
      assert s[d..d + n] == s[d..][..n];
      Some(n)
    else None
  }

  /** No match starts at a character other than `$`. */
  lemma MatchAtNotDollar(s: string, d: nat)
    requires d >= 1 && s != [] && s[0] != '$'
    ensures MatchAt(s, d) == None
  {
    assert |s| >= d ==> s[..d][0] == s[0];
  }

  /** A global `replace(/D([^$]+)D/g, open + "$1" + close)` with `D` the delimiter of length `d`:
      matches are taken leftmost first and never overlap. */
  function ReplaceSpans(s: string, d: nat, open: string, close: string): string
    requires d >= 1
    decreases |s|
  {
    if s == [] then []
    else match MatchAt(s, d)
      case Some(n) => open + s[d..d + n] + close + ReplaceSpans(s[2 * d + n..], d, open, close)
      case None => [s[0]] + ReplaceSpans(s[1..], d, open, close)
  }

  const DisplayOpen: string := "<div class=\"math-display\">\\["
  const DisplayClose: string := "\\]</div>"
  const InlineOpen: string := "<span class=\"math-inline\">\\("
  const InlineClose: string := "\\)</span>"

  function DisplaySpan(x: string): string { DisplayOpen + x + DisplayClose }

  function InlineSpan(x: string): string { InlineOpen + x + InlineClose }

  /** The first replacement: `$$X$$` becomes a display-math container. */
  function DisplayPass(s: string): string { ReplaceSpans(s, 2, DisplayOpen, DisplayClose) }

  /** The second replacement: `$X$` becomes an inline-math container. */
  function InlinePass(s: string): string { ReplaceSpans(s, 1, InlineOpen, InlineClose) }

  /** Both math rewrites, display math first. */
  function RewriteMath(s: string): string { InlinePass(DisplayPass(s)) }

  /** Text without `$` passes through a math rewrite unchanged. */
  lemma {:induction false} ReplaceSpansDollarFree(s: string, d: nat, open: string, close: string)
    requires d >= 1 && DollarFree(s)
    ensures ReplaceSpans(s, d, open, close) == s
    decreases |s|
  {
    if s != [] {
      MatchAtNotDollar(s, d);
      ReplaceSpansDollarFree(s[1..], d, open, close);
    }
  }

  /** A `$`-free prefix is copied, and the rewrite continues after it. */
  lemma {:induction false} ReplaceSpansAfterPrefix(p: string, s: string, d: nat, open: string, close: string)
    requires d >= 1 && DollarFree(p)
    ensures ReplaceSpans(p + s, d, open, close) == p + ReplaceSpans(s, d, open, close)
    decreases |p|
  {
    if p != [] {
      MatchAtNotDollar(p + s, d);
      assert (p + s)[1..] == p[1..] + s;
      ReplaceSpansAfterPrefix(p[1..], s, d, open, close);
    } else {
      assert p + s == s;
    }
  }

  /** The parts of `D X D s`: the pattern matches at its start with `X` as the group. */
  lemma SpanOfParts(x: string, s: string, d: nat)
    requires d >= 1 && |x| >= 1 && DollarFree(x)
    ensures var t := Dollars(d) + x + Dollars(d) + s;
            SpanAt(t, d, |x|) && t[d..d + |x|] == x && t[2 * d + |x|..] == s
  {
    var a := Dollars(d);
    var t := a + x + a + s;
    assert t[..d] == a;
    assert t[d..d + |x|] == x;
    assert t[d + |x|..2 * d + |x|] == a;
    assert t[2 * d + |x|..] == s;
  }

  /** A span `D X D` at the start of the text is wrapped, and the rewrite continues after it. */
  lemma ReplaceSpansOfSpan(x: string, s: string, d: nat, open: string, close: string)
    requires d >= 1 && |x| >= 1 && DollarFree(x)
    ensures ReplaceSpans(Dollars(d) + x + Dollars(d) + s, d, open, close)
            == open + x + close + ReplaceSpans(s, d, open, close)
  {
    var t := Dollars(d) + x + Dollars(d) + s;
    SpanOfParts(x, s, d);
    assert MatchAt(t, d) == Some(|x|);
  }

  /** `$$X$$` after `$`-free text becomes a display container around exactly `X`. */
  lemma DisplayOfSpan(p: string, x: string, s: string)
    requires DollarFree(p) && |x| >= 1 && DollarFree(x)
    ensures DisplayPass(p + "$$" + x + "$$" + s) == p + DisplaySpan(x) + DisplayPass(s)
  {
    assert Dollars(2) == "$$";
    assert p + "$$" + x + "$$" + s == p + (Dollars(2) + x + Dollars(2) + s);
    ReplaceSpansAfterPrefix(p, Dollars(2) + x + Dollars(2) + s, 2, DisplayOpen, DisplayClose);
    ReplaceSpansOfSpan(x, s, 2, DisplayOpen, DisplayClose);
  }

  /** `$X$` after `$`-free text becomes an inline container around exactly `X`. */
  lemma InlineOfSpan(p: string, x: string, s: string)
    requires DollarFree(p) && |x| >= 1 && DollarFree(x)
    ensures InlinePass(p + "$" + x + "$" + s) == p + InlineSpan(x) + InlinePass(s)
  {
    assert Dollars(1) == "$";
    assert p + "$" + x + "$" + s == p + (Dollars(1) + x + Dollars(1) + s);
    ReplaceSpansAfterPrefix(p, Dollars(1) + x + Dollars(1) + s, 1, InlineOpen, InlineClose);
    ReplaceSpansOfSpan(x, s, 1, InlineOpen, InlineClose);
  }

  /** The display container of `$`-free math holds no `$` for the inline pass to find. */
  lemma DisplaySpanDollarFree(x: string)
    requires DollarFree(x)
    ensures DollarFree(DisplaySpan(x))
  {
    assert DollarFree(DisplayOpen) && DollarFree(DisplayClose);
  }

  /** Display math is rewritten first, and the inline pass leaves the display container it produced
      alone: after `$`-free text, `$$X$$` ends up as the display container of `X`. */
  lemma MathOfDisplay(p: string, x: string, s: string)
    requires DollarFree(p) && |x| >= 1 && DollarFree(x)
    ensures RewriteMath(p + "$$" + x + "$$" + s) == p + DisplaySpan(x) + RewriteMath(s)
  {
    DisplayOfSpan(p, x, s);
    DisplaySpanDollarFree(x);
    assert DollarFree(p + DisplaySpan(x));
    ReplaceSpansAfterPrefix(p + DisplaySpan(x), DisplayPass(s), 1, InlineOpen, InlineClose);
  }

  /** Text without `$` is left as it is by both math passes. */
  lemma MathOfDollarFree(s: string)
    requires DollarFree(s)
    ensures RewriteMath(s) == s
  {
    ReplaceSpansDollarFree(s, 2, DisplayOpen, DisplayClose);
    ReplaceSpansDollarFree(s, 1, InlineOpen, InlineClose);
  }

  /** The display pass on `$ $$X$$ $`: only the `$$X$$` in the middle is a display span. */
  lemma DisplayPassLoneDollars(x: string)
    requires |x| >= 1 && DollarFree(x)
    ensures DisplayPass("$ $$" + x + "$$ $") == "$ " + DisplaySpan(x) + " $"
  {
    var u := "$ $$" + x + "$$ $";
    assert MatchAt(u, 2) == None by {
      assert u[..2][1] == ' ';
    }
    assert DisplayPass(u) == "$" + DisplayPass(u[1..]);
    assert u[1..] == " " + "$$" + x + "$$" + " $";
    DisplayOfSpan(" ", x, " $");
    MatchAtNotDollar(" $", 2);
    assert DisplayPass(" $") == " " + DisplayPass("$");
    assert MatchAt("$", 2) == None;
    assert DisplayPass("$") == "$" + DisplayPass([]);
  }

  /** A lone `$` before a display span is not protected: in `$ $$X$$ $` the inline pass wraps the
      display container the first pass produced. */
  lemma InlineWrapsDisplayAfterLoneDollar(x: string)
    requires |x| >= 1 && DollarFree(x)
    ensures RewriteMath("$ $$" + x + "$$ $") == InlineSpan(" " + DisplaySpan(x) + " ")
  {
    DisplayPassLoneDollars(x);
    var d := DisplaySpan(x);
    DisplaySpanDollarFree(x);
    var m := " " + d + " ";
    assert DollarFree(m) by {
      assert forall i :: 0 < i < |m| - 1 ==> m[i] == d[i - 1];
    }
    assert "$ " + d + " $" == "$" + m + "$";
    InlineOfWholeSpan(m);
  }

  /** A text that is one inline span `$X$` becomes one inline container. */
  lemma InlineOfWholeSpan(x: string)
    requires |x| >= 1 && DollarFree(x)
    ensures InlinePass("$" + x + "$") == InlineSpan(x)
  {
    ReplaceSpansOfSpan(x, [], 1, InlineOpen, InlineClose);
    assert Dollars(1) + x + Dollars(1) + [] == "$" + x + "$";
  }

  const DemoPlaceholder: string := "<BlogDemo />"
  const DemoMount: string := "<div data-component=\"BlogDemo\"></div>"

  /** `pat` occurs in `s` at index `i`. */
  predicate OccursAt(s: string, pat: string, i: nat) {
    i + |pat| <= |s| && s[i..i + |pat|] == pat
  }

  /** A global `replace` of a literal, non-empty pattern: occurrences are replaced from left to
      right, and the scan resumes after each replaced occurrence. */
  function ReplaceAll(s: string, pat: string, rep: string): string
    requires |pat| >= 1
    decreases |s|
  {
    if |s| < |pat| then s
    else if s[..|pat|] == pat then rep + ReplaceAll(s[|pat|..], pat, rep)
    else [s[0]] + ReplaceAll(s[1..], pat, rep)
  }

  /** `replace(/<BlogDemo \/>/g, …)`: no placeholder is left behind, not even one formed across a
      replaced mount point. */
  function ReplaceDemo(s: string): (r: string)
    ensures NoOccurrence(r, DemoPlaceholder)
  {
    assert HeadUnique(DemoPlaceholder);
    assert NoStartWithin(DemoMount, DemoPlaceholder);
    ReplaceAllLeavesNone(s, DemoPlaceholder, DemoMount);
    ReplaceAll(s, DemoPlaceholder, DemoMount)
  }

  /** Without an occurrence nothing is replaced. */
  lemma {:induction false} ReplaceAllAbsent(s: string, pat: string, rep: string)
    requires |pat| >= 1
    requires forall i :: 0 <= i <= |s| ==> !OccursAt(s, pat, i)
    ensures ReplaceAll(s, pat, rep) == s
    decreases |s|
  {
    if |s| >= |pat| {
      assert !OccursAt(s, pat, 0);
      forall i | 0 <= i <= |s[1..]| ensures !OccursAt(s[1..], pat, i) {
        assert !OccursAt(s, pat, i + 1);
        if i + |pat| <= |s[1..]| {
          assert s[1..][i..i + |pat|] == s[i + 1..i + 1 + |pat|];
        }
      }
      ReplaceAllAbsent(s[1..], pat, rep);
    }
  }

  /** An occurrence always changes the text, when the replacement differs from the pattern within
      their common length. */
  lemma {:induction false} ReplaceAllPresent(s: string, pat: string, rep: string, i: nat, k: nat)
    requires |pat| >= 1 && k < |pat| && k < |rep| && pat[k] != rep[k]
    requires OccursAt(s, pat, i)
    ensures ReplaceAll(s, pat, rep) != s
    decreases i
  {
    if i > 0 && s[..|pat|] != pat {
      assert s[1..][i - 1..i - 1 + |pat|] == s[i..i + |pat|];
      ReplaceAllPresent(s[1..], pat, rep, i - 1, k);
      assert ReplaceAll(s, pat, rep)[1..] == ReplaceAll(s[1..], pat, rep);
    } else {
      assert s[..|pat|] == pat;
      var r := ReplaceAll(s, pat, rep);
      assert r == rep + ReplaceAll(s[|pat|..], pat, rep);
      assert r[k] == rep[k];
      assert s[k] == pat[k];
    }
  }

  /** `pat` occurs nowhere in `s`. */
  predicate NoOccurrence(s: string, pat: string) {
    forall i :: 0 <= i <= |s| ==> !OccursAt(s, pat, i)
  }

  /** The first occurrence of `pat` in `s` at or before an occurrence at `j`. */
  lemma {:induction false} FirstOccurrence(s: string, pat: string, j: nat) returns (k: nat)
    requires OccursAt(s, pat, j)
    ensures k <= j && OccursAt(s, pat, k)
    ensures forall i :: 0 <= i < k ==> !OccursAt(s, pat, i)
    decreases j
  {
    if forall i :: 0 <= i < j ==> !OccursAt(s, pat, i) {
      k := j;
    } else {
      var i :| 0 <= i < j && OccursAt(s, pat, i);
      k := FirstOccurrence(s, pat, i);
    }
  }

  /** Dropping the first character shifts every occurrence one place to the left. */
  lemma OccursAtTail(s: string, pat: string, i: nat)
    requires s != []
    ensures OccursAt(s[1..], pat, i) <==> OccursAt(s, pat, i + 1)
  {
    if i + |pat| <= |s[1..]| {
      assert s[1..][i..i + |pat|] == s[i + 1..i + 1 + |pat|];
    }
  }

  /** No occurrence before `k` in `s` means none before `k - 1` in its tail. */
  lemma NoneBeforeTail(s: string, pat: string, k: nat)
    requires s != [] && k >= 1
    requires forall i :: 0 <= i < k ==> !OccursAt(s, pat, i)
    ensures forall i :: 0 <= i < k - 1 ==> !OccursAt(s[1..], pat, i)
  {
    forall i | 0 <= i < k - 1 ensures !OccursAt(s[1..], pat, i) {
      OccursAtTail(s, pat, i);
    }
  }

  /** A character put in front of the tail's splice gives the splice of the whole text. */
  lemma ConsSplice(s: string, k: nat, rep: string, after: string, rt: string)
    requires 1 <= k <= |s| && rt == s[1..][..k - 1] + rep + after
    ensures [s[0]] + rt == s[..k] + rep + after
  {
    assert [s[0]] + s[1..][..k - 1] == s[..k];
  }

  /** A first occurrence at `k >= 1` is the first occurrence of the tail, at `k - 1`. */
  lemma TailHasFirst(s: string, pat: string, k: nat)
    requires |pat| >= 1 && 1 <= k && OccursAt(s, pat, k)
    requires forall i :: 0 <= i < k ==> !OccursAt(s, pat, i)
    ensures s != [] && !OccursAt(s, pat, 0) && k + |pat| <= |s|
    ensures OccursAt(s[1..], pat, k - 1)
    ensures forall i :: 0 <= i < k - 1 ==> !OccursAt(s[1..], pat, i)
  {
    OccursAtTail(s, pat, k - 1);
    NoneBeforeTail(s, pat, k);
  }

  /** The first occurrence at the very start. */
  lemma AtFirstBase(s: string, pat: string, rep: string)
    requires |pat| >= 1 && OccursAt(s, pat, 0)
    ensures ReplaceAll(s, pat, rep) == s[..0] + rep + ReplaceAll(s[|pat|..], pat, rep)
  {
    assert s[..|pat|] == pat;
    assert s[..0] + rep == rep;
  }

  /** One step of the scan past a position where `pat` does not occur, given the result for the tail. */
  lemma AtFirstStep(s: string, pat: string, rep: string, k: nat, after: string)
    requires |pat| >= 1 && 1 <= k && k + |pat| <= |s| && !OccursAt(s, pat, 0)
    requires after == ReplaceAll(s[k + |pat|..], pat, rep)
    requires ReplaceAll(s[1..], pat, rep) == s[1..][..k - 1] + rep + ReplaceAll(s[1..][k - 1 + |pat|..], pat, rep)
    ensures ReplaceAll(s, pat, rep) == s[..k] + rep + after
  {
    assert s[1..][k - 1 + |pat|..] == s[k + |pat|..];
    assert s[..|pat|] != pat;
    ConsSplice(s, k, rep, after, ReplaceAll(s[1..], pat, rep));
  }

  /** The scan copies the text before the first occurrence, replaces that occurrence, and resumes
      after it. */
  lemma {:induction false} ReplaceAllAtFirst(s: string, pat: string, rep: string, k: nat)
    requires |pat| >= 1 && OccursAt(s, pat, k)
    requires forall i :: 0 <= i < k ==> !OccursAt(s, pat, i)
    ensures ReplaceAll(s, pat, rep) == s[..k] + rep + ReplaceAll(s[k + |pat|..], pat, rep)
    decreases k
  {
    if k == 0 {
      AtFirstBase(s, pat, rep);
    } else {
      TailHasFirst(s, pat, k);
      ReplaceAllAtFirst(s[1..], pat, rep, k - 1);
      AtFirstStep(s, pat, rep, k, ReplaceAll(s[k + |pat|..], pat, rep));
    }
  }

  /** The first character of `pat` does not recur in it. */
  predicate HeadUnique(pat: string) {
    |pat| >= 2 && forall j :: 1 <= j < |pat| ==> pat[j] != pat[0]
  }

  /** No occurrence of `pat` can start inside `rep`: wherever `rep` holds the first character of
      `pat`, the next character of `rep` is not the second one. */
  predicate NoStartWithin(rep: string, pat: string) {
    |pat| >= 2 && forall j :: 0 <= j < |rep| && rep[j] == pat[0] ==> j + 1 < |rep| && rep[j + 1] != pat[1]
  }

  /** In the output of one replacement step, an occurrence can lie neither in the copied text,
      which holds none before the first occurrence, nor across or inside the replacement. */
  lemma NoOccurrenceAroundFirst(s: string, pat: string, rep: string, k: nat, rest: string)
    requires HeadUnique(pat) && NoStartWithin(rep, pat) && rep != [] && rep[0] == pat[0]
    requires k <= |s| && forall i :: 0 <= i < k ==> !OccursAt(s, pat, i)
    requires NoOccurrence(rest, pat)
    ensures NoOccurrence(s[..k] + rep + rest, pat)
  {
    var x := s[..k] + rep + rest;
    forall i | 0 <= i <= |x| ensures !OccursAt(x, pat, i) {
      if i + |pat| > |x| {
      } else if i + |pat| <= k {
        assert x[i..i + |pat|] == s[i..i + |pat|];
        assert !OccursAt(s, pat, i);
      } else if i < k {
        assert pat[k - i] != pat[0];
        assert x[i..i + |pat|][k - i] == rep[0];
      } else if i < k + |rep| {
        if rep[i - k] != pat[0] {
          assert x[i..i + |pat|][0] == rep[i - k];
        } else {
          assert i - k + 1 < |rep| && rep[i - k + 1] != pat[1];
          assert x[i..i + |pat|][1] == rep[i - k + 1];
        }
      } else {
        assert x[i..i + |pat|] == rest[i - k - |rep|..i - k - |rep| + |pat|];
        assert !OccursAt(rest, pat, i - k - |rep|);
      }
    }
  }

  /** The replace is global: when the pattern's first character does not recur in it and no
      occurrence can start inside the replacement, the output holds no occurrence at all. */
  lemma {:induction false} ReplaceAllLeavesNone(s: string, pat: string, rep: string)
    requires HeadUnique(pat) && NoStartWithin(rep, pat) && rep != [] && rep[0] == pat[0]
    ensures NoOccurrence(ReplaceAll(s, pat, rep), pat)
    decreases |s|
  {
    if NoOccurrence(s, pat) {
      ReplaceAllAbsent(s, pat, rep);
    } else {
      var j :| 0 <= j <= |s| && OccursAt(s, pat, j);
      var k := FirstOccurrence(s, pat, j);
      ReplaceAllAtFirst(s, pat, rep, k);
      ReplaceAllLeavesNone(s[k + |pat|..], pat, rep);
      NoOccurrenceAroundFirst(s, pat, rep, k, ReplaceAll(s[k + |pat|..], pat, rep));
    }
  }

  /** The demo rewrite changes the HTML exactly when it contains a `<BlogDemo />` tag. */
  lemma ReplaceDemoChangesIff(s: string)
    ensures ReplaceDemo(s) == s <==> forall i :: 0 <= i <= |s| ==> !OccursAt(s, DemoPlaceholder, i)
  {
    if forall i :: 0 <= i <= |s| ==> !OccursAt(s, DemoPlaceholder, i) {
      ReplaceAllAbsent(s, DemoPlaceholder, DemoMount);
    } else {
      var i :| 0 <= i <= |s| && OccursAt(s, DemoPlaceholder, i);
      assert DemoPlaceholder[1] != DemoMount[1];
      ReplaceAllPresent(s, DemoPlaceholder, DemoMount, i, 1);
    }
  }
}
