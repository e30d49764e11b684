/**
  The heading-id derivation of the blog pipeline: a heading's text is
  lower-cased, every character other than a word character, whitespace or a
  hyphen is removed, each whitespace run becomes one hyphen, each hyphen run
  is collapsed to one hyphen, and one hyphen at either end is removed.
 */
module Slug {
  import opened Strings

  predicate IsHyphen(c: char) { c == '-' }

  /** A character an id may hold: a lower-case ASCII letter, a digit, `_` or `-`. */
  predicate IsSlugChar(c: char) { IsLowerOrDigit(c) || c == '_' || c == '-' }

  predicate NoDoubleHyphen(s: string) {
    forall i :: 0 <= i < |s| - 1 ==> !(s[i] == '-' && s[i + 1] == '-')
  }

  /** What every generated id looks like. */
  predicate IsSlug(s: string) {
    && (forall i :: 0 <= i < |s| ==> IsSlugChar(s[i]))
    && NoDoubleHyphen(s)
    && (s != [] ==> s[0] != '-' && s[|s| - 1] != '-')
  }

  /** The characters `/[^\w\s-]/g` keeps. */
  predicate Kept(c: char) { IsWordChar(c) || IsSpace(c) || c == '-' }

  /** `.replace(/[^\w\s-]/g, '')` */
  function StripSpecial(s: string): (r: string)
    ensures forall c :: c in r ==> c in s && Kept(c)
    ensures (forall i :: 0 <= i < |s| ==> Kept(s[i])) ==> r == s
    ensures |s| == 1 ==> r == if Kept(s[0]) then s else []
  {
    if s == [] then []
    else if Kept(s[0]) then [s[0]] + StripSpecial(s[1..])
    else StripSpecial(s[1..])
  }

  /** The removal works character by character: on `a + b` it is the removal on `a`, then on `b`.
      With the single-character case above, this determines `StripSpecial` completely. */
  lemma {:induction false} StripSpecialAppend(a: string, b: string)
    ensures StripSpecial(a + b) == StripSpecial(a) + StripSpecial(b)
    decreases |a|
  {
    if a == [] {
      assert a + b == b;
    } else {
      assert (a + b)[0] == a[0] && (a + b)[1..] == a[1..] + b;
      StripSpecialAppend(a[1..], b);
    }
  }

  /** The rest of `s` after its leading run of `p` characters. */
  function DropRun(s: string, p: char -> bool): (r: string)
    ensures |r| <= |s| && r == s[|s| - |r|..]
    ensures r == [] || !p(r[0])
  {
    if s != [] && p(s[0]) then DropRun(s[1..], p) else s
  }

  /** `.replace(/p+/g, '-')`: every maximal run of `p` characters becomes a single hyphen. */
  function ReplaceRuns(s: string, p: char -> bool): (r: string)
    ensures |r| <= |s|
    ensures !p('-') ==> forall i :: 0 <= i < |r| ==> !p(r[i])
    decreases |s|
  {
    if s == [] then []
    else if p(s[0]) then "-" + ReplaceRuns(DropRun(s[1..], p), p)
    else [s[0]] + ReplaceRuns(s[1..], p)
  }

  /** `.replace(/^-|-$/g, '')`: one leading and one trailing hyphen are removed. */
  function TrimHyphen(s: string): (r: string)
    ensures |r| <= |s| <= |r| + 2
    ensures s != [] && s[0] != '-' && s[|s| - 1] != '-' ==> r == s
    ensures |s| >= 2 && s[0] == '-' && s[|s| - 1] == '-' ==> r == s[1..|s| - 1]
    ensures s != [] && s[0] == '-' && (|s| == 1 || s[|s| - 1] != '-') ==> r == s[1..]
    ensures s != [] && s[0] != '-' && s[|s| - 1] == '-' ==> r == s[..|s| - 1]
  {
    var t := if s != [] && s[0] == '-' then s[1..] else s;
    if t != [] && t[|t| - 1] == '-' then t[..|t| - 1] else t
  }

  /** The id the table of contents gives a heading whose (trimmed) text is `text`: it holds only
      lower-case ASCII letters, digits, `_` and `-`, never two hyphens in a row, and no hyphen at
      either end. */
  function Slugify(text: string): (r: string)
    ensures IsSlug(r)
  {
    var lower := ToLower(text);
    var kept := StripSpecial(lower);
    var spaced := ReplaceRuns(kept, IsSpace);
    var collapsed := ReplaceRuns(spaced, IsHyphen);
    assert forall c :: c in kept ==> IsSlugChar(c) || IsSpace(c) by {
      forall c | c in kept ensures IsSlugChar(c) || IsSpace(c) {
        var i :| 0 <= i < |lower| && lower[i] == c;
      }
    }
    ReplaceRunsChars(kept, IsSpace);
    ReplaceRunsChars(spaced, IsHyphen);
    ReplaceRunsNoDoubleHyphen(spaced);
    TrimHyphenIsSlug(collapsed);
    TrimHyphen(collapsed)
  }

  /** Every character of `ReplaceRuns(s, p)` is a hyphen or a character of `s` outside the run class. */
  lemma {:induction false} ReplaceRunsChars(s: string, p: char -> bool)
    ensures forall c :: c in ReplaceRuns(s, p) ==> c == '-' || (c in s && !p(c))
    decreases |s|
  {
    if s == [] {
    } else if p(s[0]) {
      var t := DropRun(s[1..], p);
      ReplaceRunsChars(t, p);
      assert forall c :: c in t ==> c in s;
    } else {
      ReplaceRunsChars(s[1..], p);
      assert forall c :: c in s[1..] ==> c in s;
    }
  }

  /** The first character of `ReplaceRuns(s, p)` is the hyphen of a leading run, or `s[0]` itself. */
  lemma ReplaceRunsHead(s: string, p: char -> bool)
    requires s != []
    ensures ReplaceRuns(s, p) != []
    ensures ReplaceRuns(s, p)[0] == if p(s[0]) then '-' else s[0]
  {
  }

  /** After hyphen runs are collapsed, no two hyphens are adjacent. */
  lemma {:induction false} ReplaceRunsNoDoubleHyphen(s: string)
    ensures NoDoubleHyphen(ReplaceRuns(s, IsHyphen))
    decreases |s|
  {
    if s == [] {
    } else if IsHyphen(s[0]) {
      var t := DropRun(s[1..], IsHyphen);
      ReplaceRunsNoDoubleHyphen(t);
      if t != [] { ReplaceRunsHead(t, IsHyphen); }
    } else {
      ReplaceRunsNoDoubleHyphen(s[1..]);
    }
  }

  /** Trimming one hyphen at each end of a string without adjacent hyphens yields a slug. */
  lemma TrimHyphenIsSlug(s: string)
    requires forall c :: c in s ==> IsSlugChar(c)
    requires NoDoubleHyphen(s)
    ensures IsSlug(TrimHyphen(s))
  {
    var t := if s != [] && s[0] == '-' then s[1..] else s;
    assert NoDoubleHyphen(t);
    assert t != [] ==> t[0] != '-';
    var r := if t != [] && t[|t| - 1] == '-' then t[..|t| - 1] else t;
    assert r != [] && r == t[..|t| - 1] ==> t[|t| - 2] == r[|r| - 1];
    assert forall i :: 0 <= i < |r| ==> r[i] in s;
  }

  /** Runs of a class that does not occur leave the string unchanged. */
  lemma {:induction false} ReplaceRunsAbsent(s: string, p: char -> bool)
    requires forall i :: 0 <= i < |s| ==> !p(s[i])
    ensures ReplaceRuns(s, p) == s
    decreases |s|
  {
    if s != [] {
      ReplaceRunsAbsent(s[1..], p);
    }
  }

  /** Collapsing hyphen runs leaves a string without adjacent hyphens unchanged. */
  lemma {:induction false} CollapseFixesNoDoubleHyphen(s: string)
    requires NoDoubleHyphen(s)
    ensures ReplaceRuns(s, IsHyphen) == s
    decreases |s|
  {
    if s == [] {
    } else if IsHyphen(s[0]) {
      assert s[1..] == [] || s[1] != '-';
      assert DropRun(s[1..], IsHyphen) == s[1..];
      CollapseFixesNoDoubleHyphen(s[1..]);
    } else {
      CollapseFixesNoDoubleHyphen(s[1..]);
    }
  }

  /** Each step of the chain leaves a slug unchanged. */
  lemma SlugStepsFix(s: string)
    requires IsSlug(s)
    ensures ToLower(s) == s && StripSpecial(s) == s && TrimHyphen(s) == s
  {
    SlugIsLower(s);
    SlugIsKept(s);
    SlugHasNoEndHyphen(s);
  }

  /** `[^\w\s-]` removal leaves an id alone. */
  lemma SlugIsKept(s: string)
    requires IsSlug(s)
    ensures StripSpecial(s) == s
  {
    forall i | 0 <= i < |s| ensures Kept(s[i]) {
      assert IsSlugChar(s[i]);
    }
  }

  /** Trimming hyphens leaves an id alone. */
  lemma SlugHasNoEndHyphen(s: string)
    requires IsSlug(s)
    ensures TrimHyphen(s) == s
  {
  }

  /** Lower-casing leaves an id alone. */
  lemma SlugIsLower(s: string)
    requires IsSlug(s)
    ensures ToLower(s) == s
  {
    forall i | 0 <= i < |s| ensures LowerChar(s[i]) == s[i] {
      assert IsSlugChar(s[i]);
    }
  }

  /** A slug has no whitespace. */
  lemma SlugHasNoSpace(s: string)
    requires IsSlug(s)
    ensures forall i :: 0 <= i < |s| ==> !IsSpace(s[i])
  {
    forall i | 0 <= i < |s| ensures !IsSpace(s[i]) {
      assert IsSlugChar(s[i]);
    }
  }

  /** A slug is its own slug. */
  lemma SlugIsFixpoint(s: string)
    requires IsSlug(s)
    ensures Slugify(s) == s
  {
    SlugStepsFix(s);
    SlugHasNoSpace(s);
    ReplaceRunsAbsent(s, IsSpace);
    CollapseFixesNoDoubleHyphen(s);
  }

  /** Skipping a run of `p` characters that ends where `b` starts leaves `b`. */
  lemma {:induction false} DropRunOfRun(w: string, b: string, p: char -> bool)
    requires forall i :: 0 <= i < |w| ==> p(w[i])
    requires b == [] || !p(b[0])
    ensures DropRun(w + b, p) == b
    decreases |w|
  {
    if w == [] {
      assert w + b == b;
    } else {
      assert (w + b)[1..] == w[1..] + b;
      DropRunOfRun(w[1..], b, p);
    }
  }

  /** A run that ends inside `x` is skipped without looking at what follows `x`. */
  lemma {:induction false} DropRunAppend(x: string, y: string, p: char -> bool)
    requires x != [] && !p(x[|x| - 1])
    ensures DropRun(x, p) != [] && DropRun(x + y, p) == DropRun(x, p) + y
    decreases |x|
  {
    if p(x[0]) {
      assert (x + y)[1..] == x[1..] + y;
      DropRunAppend(x[1..], y, p);
    }
  }

  /** `ReplaceRuns` on a text that starts with a run character. */
  lemma ReplaceRunsAtRun(s: string, p: char -> bool)
    requires s != [] && p(s[0])
    ensures ReplaceRuns(s, p) == "-" + ReplaceRuns(DropRun(s[1..], p), p)
  {
  }

  /** `ReplaceRuns` on a text that starts with any other character. */
  lemma ReplaceRunsAtOther(s: string, p: char -> bool)
    requires s != [] && !p(s[0])
    ensures ReplaceRuns(s, p) == [s[0]] + ReplaceRuns(s[1..], p)
  {
  }

  /** A run of `p` characters of length at least one: the elements `w` and `b` of `ReplaceRunsJoin`. */
  predicate IsRun(w: string, p: char -> bool)
  {
    |w| >= 1 && forall i :: 0 <= i < |w| ==> p(w[i])
  }

  /** The join with nothing before the run. */
  lemma JoinAtRun(a: string, w: string, b: string, p: char -> bool)
    requires a == [] && IsRun(w, p)
    requires b == [] || !p(b[0])
    ensures ReplaceRuns(a + w + b, p) == ReplaceRuns(a, p) + "-" + ReplaceRuns(b, p)
  {
    var s := w + b;
    assert a + w + b == s && s[0] == w[0] && s[1..] == w[1..] + b;
    ReplaceRunsAtRun(s, p);
    DropRunOfRun(w[1..], b, p);
    assert ReplaceRuns(a, p) + "-" == "-";
  }

  /** Head and tail of a three-part concatenation whose first part is not empty. */
  lemma HeadTail3<T>(a: seq<T>, w: seq<T>, b: seq<T>)
    requires a != []
    ensures (a + w + b)[0] == a[0] && (a + w + b)[1..] == a[1..] + w + b
  {
    assert (a + w + b)[1..] == a[1..] + w + b;
  }

  /** Regrouping a prefix in front of a three-part concatenation. */
  lemma Regroup<T>(x: seq<T>, l: seq<T>, m: seq<T>, r: seq<T>)
    ensures x + (l + m + r) == (x + l) + m + r
  {
    assert x + (l + m + r) == (x + l) + m + r;
  }

  /** One step of the join past a kept first character, given the join for the rest. */
  lemma JoinStepOther(a: string, w: string, b: string, p: char -> bool)
    requires a != [] && !p(a[0])
    requires ReplaceRuns(a[1..] + w + b, p) == ReplaceRuns(a[1..], p) + "-" + ReplaceRuns(b, p)
    ensures ReplaceRuns(a + w + b, p) == ReplaceRuns(a, p) + "-" + ReplaceRuns(b, p)
  {
    HeadTail3(a, w, b);
    ReplaceRunsAtOther(a + w + b, p);
    ReplaceRunsAtOther(a, p);
    Regroup([a[0]], ReplaceRuns(a[1..], p), "-", ReplaceRuns(b, p));
  }

  /** One step of the join past a leading run of `a`, given the join for what follows that run. */
  lemma JoinStepRun(a: string, w: string, b: string, p: char -> bool, d: string)
    requires a != [] && p(a[0]) && d == DropRun(a[1..], p)
    requires DropRun(a[1..] + w + b, p) == d + w + b
    requires ReplaceRuns(d + w + b, p) == ReplaceRuns(d, p) + "-" + ReplaceRuns(b, p)
    ensures ReplaceRuns(a + w + b, p) == ReplaceRuns(a, p) + "-" + ReplaceRuns(b, p)
  {
    HeadTail3(a, w, b);
    ReplaceRunsAtRun(a + w + b, p);
    ReplaceRunsAtRun(a, p);
    Regroup("-", ReplaceRuns(d, p), "-", ReplaceRuns(b, p));
  }

  /** Associativity of a three-part concatenation. */
  lemma Assoc3<T>(x: seq<T>, y: seq<T>, z: seq<T>)
    ensures x + (y + z) == x + y + z
  {
  }

  /** The last element of a suffix is the last element of the whole. */
  lemma LastOfSuffix<T>(s: seq<T>, d: seq<T>)
    requires d != [] && |d| <= |s| && d == s[|s| - |d|..]
    ensures d[|d| - 1] == s[|s| - 1]
  {
  }

  /** What follows the leading run of `a`, when `a` ends outside the run class. */
  lemma RestAfterRun(a: string, w: string, b: string, p: char -> bool) returns (d: string)
    requires a != [] && p(a[0]) && !p(a[|a| - 1])
    ensures d == DropRun(a[1..], p) && d != [] && |d| < |a| && !p(d[|d| - 1])
    ensures DropRun(a[1..] + w + b, p) == d + w + b
  {
    var t := a[1..];
    d := DropRun(t, p);
    assert t != [] && !p(t[|t| - 1]) by {
      LastOfSuffix(a, t);
    }
    assert d != [] && DropRun(t + (w + b), p) == d + (w + b) by {
      DropRunAppend(t, w + b, p);
    }
    assert d[|d| - 1] == t[|t| - 1] by {
      LastOfSuffix(t, d);
    }
    assert t + (w + b) == t + w + b && d + (w + b) == d + w + b by {
      Assoc3(t, w, b);
      Assoc3(d, w, b);
    }
  }

  /** A maximal run `w` of `p` characters between `a` and `b` becomes exactly one hyphen, and each
      side is replaced on its own. */
  lemma {:induction false} ReplaceRunsJoin(a: string, w: string, b: string, p: char -> bool)
    requires a == [] || !p(a[|a| - 1])
    requires IsRun(w, p)
    requires b == [] || !p(b[0])
    ensures ReplaceRuns(a + w + b, p) == ReplaceRuns(a, p) + "-" + ReplaceRuns(b, p)
    decreases |a|
  {
    if a == [] {
      JoinAtRun(a, w, b, p);
    } else if !p(a[0]) {
      ReplaceRunsJoin(a[1..], w, b, p);
      JoinStepOther(a, w, b, p);
    } else {
      var d := RestAfterRun(a, w, b, p);
      ReplaceRunsJoin(d, w, b, p);
      JoinStepRun(a, w, b, p, d);
    }
  }

  /** Text that lower-casing and the special-character removal leave alone. */
  predicate Settled(s: string) {
    forall i :: 0 <= i < |s| ==> LowerChar(s[i]) == s[i] && Kept(s[i])
  }

  lemma SlugSettled(s: string)
    requires IsSlug(s)
    ensures Settled(s)
  {
    forall i | 0 <= i < |s| ensures LowerChar(s[i]) == s[i] && Kept(s[i]) {
      assert IsSlugChar(s[i]);
    }
  }

  lemma SpaceSettled(s: string)
    requires AllSpace(s)
    ensures Settled(s)
  {
    forall i | 0 <= i < |s| ensures LowerChar(s[i]) == s[i] && Kept(s[i]) {
      assert IsSpace(s[i]);
    }
  }

  lemma SettledAppend(x: string, y: string)
    requires Settled(x) && Settled(y)
    ensures Settled(x + y)
  {
    forall i | 0 <= i < |x + y| ensures LowerChar((x + y)[i]) == (x + y)[i] && Kept((x + y)[i]) {
      if i < |x| {
        assert (x + y)[i] == x[i];
      } else {
        assert (x + y)[i] == y[i - |x|];
      }
    }
  }

  /** Two ids around white space: lower-casing and the special-character removal change nothing. */
  lemma JoinIsLowerKept(a: string, w: string, b: string)
    requires IsSlug(a) && IsSlug(b) && AllSpace(w)
    ensures ToLower(a + w + b) == a + w + b && StripSpecial(a + w + b) == a + w + b
  {
    SlugSettled(a);
    SpaceSettled(w);
    SlugSettled(b);
    SettledAppend(a, w);
    SettledAppend(a + w, b);
    var x := a + w + b;
    assert ToLower(x) == x;
  }

  /** Two ids joined by one hyphen have no two adjacent hyphens. */
  lemma JoinNoDoubleHyphen(a: string, b: string)
    requires IsSlug(a) && IsSlug(b) && a != [] && b != []
    ensures NoDoubleHyphen(a + "-" + b)
  {
    var y := a + "-" + b;
    forall i | 0 <= i < |y| - 1 ensures !(y[i] == '-' && y[i + 1] == '-') {
      if i < |a| - 1 {
        assert y[i] == a[i] && y[i + 1] == a[i + 1];
      } else if i == |a| - 1 {
        assert y[i] == a[|a| - 1];
      } else if i == |a| {
        assert y[i + 1] == b[0];
      } else {
        assert y[i] == b[i - |a| - 1] && y[i + 1] == b[i - |a|];
      }
    }
  }

  /** The hyphens of an id sit where the text had white space: two ids separated by a whitespace
      run give the two joined by one hyphen. */
  lemma SlugifyJoin(a: string, w: string, b: string)
    requires IsSlug(a) && IsSlug(b) && a != [] && b != []
    requires |w| >= 1 && AllSpace(w)
    ensures Slugify(a + w + b) == a + "-" + b
  {
    var x, y := a + w + b, a + "-" + b;
    calc {
      Slugify(x);
    ==
      TrimHyphen(ReplaceRuns(ReplaceRuns(StripSpecial(ToLower(x)), IsSpace), IsHyphen));
    ==  { JoinIsLowerKept(a, w, b); }
      TrimHyphen(ReplaceRuns(ReplaceRuns(x, IsSpace), IsHyphen));
    ==  { SlugHasNoSpace(a);
          SlugHasNoSpace(b);
          ReplaceRunsJoin(a, w, b, IsSpace);
          ReplaceRunsAbsent(a, IsSpace);
          ReplaceRunsAbsent(b, IsSpace); }
      TrimHyphen(ReplaceRuns(y, IsHyphen));
    ==  { JoinNoDoubleHyphen(a, b);
          CollapseFixesNoDoubleHyphen(y); }
      TrimHyphen(y);
    ==  { assert y[0] == a[0] && y[|y| - 1] == b[|b| - 1]; }
      y;
    }
  }

  /** The word characters `\w` of `s`, in order. */
  function WordChars(s: string): string {
    if s == [] then [] else (if IsWordChar(s[0]) then [s[0]] else []) + WordChars(s[1..])
  }

  lemma WordCharsCons(c: char, t: string)
    ensures WordChars([c] + t) == (if IsWordChar(c) then [c] else []) + WordChars(t)
  {
    assert ([c] + t)[1..] == t;
  }

  lemma {:induction false} WordCharsAppend(a: string, b: string)
    ensures WordChars(a + b) == WordChars(a) + WordChars(b)
    decreases |a|
  {
    if a == [] {
      assert a + b == b;
    } else {
      assert a + b == [a[0]] + (a[1..] + b);
      WordCharsCons(a[0], a[1..] + b);
      WordCharsAppend(a[1..], b);
    }
  }

  /** Removing the characters outside `[\w\s-]` keeps every word character. */
  lemma {:induction false} WordCharsStrip(s: string)
    ensures WordChars(StripSpecial(s)) == WordChars(s)
    decreases |s|
  {
    if s != [] {
      WordCharsStrip(s[1..]);
      if Kept(s[0]) {
        WordCharsCons(s[0], StripSpecial(s[1..]));
      }
    }
  }

  /** Skipping a run of non-word characters skips no word character. */
  lemma {:induction false} WordCharsDropRun(s: string, p: char -> bool)
    requires forall c :: p(c) ==> !IsWordChar(c)
    ensures WordChars(DropRun(s, p)) == WordChars(s)
    decreases |s|
  {
    if s != [] && p(s[0]) {
      WordCharsDropRun(s[1..], p);
    }
  }

  /** Replacing runs of non-word characters by a hyphen keeps the word characters. */
  lemma {:induction false} WordCharsReplaceRuns(s: string, p: char -> bool)
    requires forall c :: p(c) ==> !IsWordChar(c)
    ensures WordChars(ReplaceRuns(s, p)) == WordChars(s)
    decreases |s|
  {
    if s == [] {
    } else if p(s[0]) {
      var t := DropRun(s[1..], p);
      WordCharsReplaceRuns(t, p);
      WordCharsDropRun(s[1..], p);
      WordCharsCons('-', ReplaceRuns(t, p));
    } else {
      WordCharsReplaceRuns(s[1..], p);
      WordCharsCons(s[0], ReplaceRuns(s[1..], p));
    }
  }

  /** Trimming edge hyphens keeps the word characters. */
  lemma WordCharsTrimHyphen(s: string)
    ensures WordChars(TrimHyphen(s)) == WordChars(s)
  {
    var t := if s != [] && s[0] == '-' then s[1..] else s;
    assert WordChars(t) == WordChars(s);
    if t != [] && t[|t| - 1] == '-' {
      assert t == t[..|t| - 1] + ['-'];
      WordCharsAppend(t[..|t| - 1], ['-']);
    }
  }

  /** The id consists of the lower-cased word characters of the text, in order, with hyphens
      between them: dropping its hyphens gives exactly the word characters of the lower-cased
      text. */
  lemma SlugWordChars(text: string)
    ensures forall i :: 0 <= i < |Slugify(text)| ==> Slugify(text)[i] == '-' || IsWordChar(Slugify(text)[i])
    ensures WordChars(Slugify(text)) == WordChars(ToLower(text))
  {
    var kept := StripSpecial(ToLower(text));
    var spaced := ReplaceRuns(kept, IsSpace);
    WordCharsStrip(ToLower(text));
    WordCharsReplaceRuns(kept, IsSpace);
    WordCharsReplaceRuns(spaced, IsHyphen);
    WordCharsTrimHyphen(ReplaceRuns(spaced, IsHyphen));
  }

  /** Slugifying an id the pipeline already produced returns the same id. */
  lemma SlugifyIdempotent(text: string)
    ensures Slugify(Slugify(text)) == Slugify(text)
  {
    SlugIsFixpoint(Slugify(text));
  }
}
