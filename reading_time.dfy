/**
  The reading-time estimate of a post: the markdown body is split at every
  run of `\s` characters, as `split(/\s+/)` does, and the number of pieces,
  read at 200 words per minute, is rounded up to whole minutes.
 */
module Reading {
  import opened Strings

  /** `s.split(/\s+/)`: the pieces between maximal whitespace runs. A leading or trailing run
      yields an empty first or last piece, and the empty text yields one empty piece. */
  function Split(s: string): (pieces: seq<string>)
    ensures |pieces| >= 1
    decreases |s|
  {
    if s == [] then [[]]
    else if IsSpace(s[0]) then [[]] + Split(s[SpaceRun(s)..])
    else
      var r := Split(s[1..]);
      [[s[0]] + r[0]] + r[1..]
  }

  /** The characters of `s` that are not whitespace, in order. */
  function NonSpace(s: string): string {
    if s == [] then [] else (if IsSpace(s[0]) then [] else [s[0]]) + NonSpace(s[1..])
  }

  function Concat(pieces: seq<string>): string {
    if pieces == [] then [] else pieces[0] + Concat(pieces[1..])
  }

  /** The number of maximal whitespace runs in `s`: the indices where a run begins. */
  function RunCount(s: string): (n: nat)
    ensures n <= |s|
  {
    if s == [] then 0
    else
      var last := if IsSpace(s[|s| - 1]) && (|s| == 1 || !IsSpace(s[|s| - 2])) then 1 else 0;
      RunCount(s[..|s| - 1]) + last
  }

  /** The pieces hold no whitespace, every piece other than the first and the last is a word, and
      together they spell out the text without its whitespace. */
  lemma SplitPieces(s: string)
    ensures forall k :: 0 <= k < |Split(s)| ==> AllNonSpace(Split(s)[k])
    ensures forall k :: 0 < k < |Split(s)| - 1 ==> Split(s)[k] != []
    ensures Concat(Split(s)) == NonSpace(s)
  {
    SplitNoSpace(s);
    SplitInnerWords(s);
    SplitConcat(s);
  }

  lemma {:induction false} SplitNoSpace(s: string)
    ensures forall k :: 0 <= k < |Split(s)| ==> AllNonSpace(Split(s)[k])
    decreases |s|
  {
    if s == [] {
    } else if IsSpace(s[0]) {
      SplitNoSpace(s[SpaceRun(s)..]);
    } else {
      var r := Split(s[1..]);
      SplitNoSpace(s[1..]);
      assert AllNonSpace([s[0]] + r[0]);
    }
  }

  lemma {:induction false} SplitInnerWords(s: string)
    ensures forall k :: 0 < k < |Split(s)| - 1 ==> Split(s)[k] != []
    decreases |s|
  {
    if s == [] {
    } else if IsSpace(s[0]) {
      var t := s[SpaceRun(s)..];
      SplitInnerWords(t);
      SplitHead(t);
    } else {
      SplitInnerWords(s[1..]);
    }
  }

  lemma {:induction false} SplitConcat(s: string)
    ensures Concat(Split(s)) == NonSpace(s)
    decreases |s|
  {
    if s == [] {
    } else if IsSpace(s[0]) {
      var n := SpaceRun(s);
      var t := s[n..];
      SplitConcat(t);
      assert s == s[..n] + t;
      NonSpaceOfSpaces(s[..n], t);
      var ps := Split(s);
      assert ps == [[]] + Split(t);
      assert ps[1..] == Split(t);
    } else {
      var r := Split(s[1..]);
      SplitConcat(s[1..]);
      assert Split(s) == [[s[0]] + r[0]] + r[1..];
      ConcatCons(s[0], r);
    }
  }

  /** Prefixing the first piece with a character prefixes the concatenation with it. */
  lemma ConcatCons(c: char, r: seq<string>)
    requires |r| >= 1
    ensures Concat([[c] + r[0]] + r[1..]) == [c] + Concat(r)
  {
    ConcatPrepend([c] + r[0], r[1..]);
    ConcatPrepend(r[0], r[1..]);
    assert [r[0]] + r[1..] == r;
    AppendAssoc([c], r[0], Concat(r[1..]));
  }

  lemma AppendAssoc(a: string, b: string, c: string)
    ensures (a + b) + c == a + (b + c)
  {
  }

  lemma ConcatPrepend(a: string, t: seq<string>)
    ensures Concat([a] + t) == a + Concat(t)
  {
    assert ([a] + t)[1..] == t;
  }

  predicate AllNonSpace(w: string) { forall i :: 0 <= i < |w| ==> !IsSpace(w[i]) }

  /** A text that starts with a non-space character has a non-empty first piece. */
  lemma SplitHead(s: string)
    ensures s != [] && !IsSpace(s[0]) ==> Split(s)[0] != []
  {
  }

  /** Leading whitespace contributes nothing to `NonSpace`. */
  lemma {:induction false} NonSpaceOfSpaces(w: string, t: string)
    requires AllSpace(w)
    ensures NonSpace(w + t) == NonSpace(t)
    decreases |w|
  {
    if w != [] {
      assert (w + t)[0] == w[0];
      assert (w + t)[1..] == w[1..] + t;
      NonSpaceOfSpaces(w[1..], t);
    } else {
      assert w + t == t;
    }
  }

  /** Each whitespace run adds one piece: the word count is one more than the number of runs. */
  lemma {:induction false} SplitCount(s: string)
    ensures |Split(s)| == 1 + RunCount(s)
    decreases |s|
  {
    if s == [] {
    } else if IsSpace(s[0]) {
      var n := SpaceRun(s);
      var t := s[n..];
      SplitCount(t);
      RunCountAfterRun(s, n);
    } else {
      SplitCount(s[1..]);
      RunCountAfterWord(s);
    }
  }

  /** A text starting with a non-space character has as many runs as its tail. */
  lemma RunCountAfterWord(s: string)
    requires s != [] && !IsSpace(s[0])
    ensures RunCount(s) == RunCount(s[1..])
  {
    RunCountSplit([s[0]], s[1..]);
    assert [s[0]] + s[1..] == s;
  }

  /** A text starting with a whitespace run of length `n` has one run more than the rest after it. */
  lemma RunCountAfterRun(s: string, n: nat)
    requires 1 <= n <= |s| && AllSpace(s[..n]) && (n < |s| ==> !IsSpace(s[n]))
    ensures RunCount(s) == 1 + RunCount(s[n..])
  {
    RunCountSplit(s[..n], s[n..]);
    assert s[..n] + s[n..] == s;
    RunCountOfSpaces(s[..n]);
  }

  /** A non-empty all-whitespace text is one run. */
  lemma {:induction false} RunCountOfSpaces(w: string)
    requires |w| >= 1 && AllSpace(w)
    ensures RunCount(w) == 1
    decreases |w|
  {
    if |w| > 1 {
      RunCountOfSpaces(w[..|w| - 1]);
    }
  }

  /** Runs of `a + b` are the runs of each, when `a` does not end in whitespace or `b` does not
      start with it (so no run straddles the join). */
  lemma {:induction false} RunCountSplit(a: string, b: string)
    requires a == [] || b == [] || !IsSpace(a[|a| - 1]) || !IsSpace(b[0])
    ensures RunCount(a + b) == RunCount(a) + RunCount(b)
    decreases |b|
  {
    if b == [] {
      assert a + b == a;
    } else {
      var b' := b[..|b| - 1];
      assert (a + b)[..|a + b| - 1] == a + b';
      if |b| == 1 {
        assert a + b' == a;
      } else {
        RunCountSplit(a, b');
        assert (a + b)[|a + b| - 2] == b[|b| - 2];
      }
    }
  }

  /** `Math.ceil(wordCount / 200)`: the least number of minutes in which the words are read at
      200 a minute. */
  function Minutes(words: nat): (m: nat)
    ensures 200 * m >= words
    ensures m == 0 || 200 * (m - 1) < words
  {
    (words + 199) / 200
  }

  /** The reading time of a body, in minutes: at least one, even for an empty body, and the
      rounded-up quotient of the word count by 200. */
  function ReadingTime(content: string): (minutes: nat)
    ensures minutes >= 1
    ensures 200 * (minutes - 1) < |Split(content)| <= 200 * minutes
  {
    Minutes(|Split(content)|)
  }
}
