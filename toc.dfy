/**
  Table-of-contents extraction: every line of a markdown body that matches
  the ATX heading pattern `^(#{1,6})\s+(.+)$` (multiline mode) yields an item
  `{id, text, level}`, in document order. The line is the unit of matching;
  `level` is the number of leading `#`, `text` the trimmed rest of the line and
  `id` its slug.
 */
module TocExtract {
  import opened Wrappers
  import opened Strings
  import opened Slug

  datatype TocItem = TocItem(id: string, text: string, level: nat)

  /** What every extracted item satisfies. */
  predicate WellFormedItem(item: TocItem) {
    1 <= item.level <= 6 && IsTrimmed(item.text) && item.id == Slugify(item.text)
  }

  /** The lines of `s` as multiline `^` and `$` delimit them: `s` cut at every line terminator. */
  function Lines(s: string): (r: seq<string>)
    ensures |r| >= 1
    ensures forall k :: 0 <= k < |r| ==> NoLineTerminator(r[k])
  {
    if s == [] then [[]]
    else if IsLineTerminator(s[0]) then [[]] + Lines(s[1..])
    else
      var r := Lines(s[1..]);
      [[s[0]] + r[0]] + r[1..]
  }

  /** A run of `k` hash characters, the opening of a level-`k` heading. */
  function Hashes(k: nat): (r: string)
    ensures |r| == k && forall i :: 0 <= i < k ==> r[i] == '#'
  {
    seq(k, i => '#')
  }

  /** The number of `#` characters `line` starts with. */
  function LeadingHashes(line: string): (n: nat)
    ensures n <= |line| && line[..n] == Hashes(n)
    ensures n < |line| ==> line[n] != '#'
  {
    if line != [] && line[0] == '#' then
      var n := LeadingHashes(line[1..]);
      assert line[..n + 1] == [line[0]] + line[1..][..n];
      n + 1
    else 0
  }

  /** Where the group `(.+)` starts in `rest`, the part of the line after the hashes: the greedy
      `\s+` takes the whole whitespace run but leaves `.+` at least one character. */
  function CaptureStart(rest: string): (m: nat)
    requires |rest| >= 2 && IsSpace(rest[0])
    ensures 1 <= m < |rest| && AllSpace(rest[..m])
  {
    var w := SpaceRun(rest);
    var m := if w < |rest| - 1 then w else |rest| - 1;
    assert AllSpace(rest[..m]) by { assert rest[..m] == rest[..w][..m]; }
    m
  }

  /** The regular expression can match `line` given its `h` leading hashes: at most six of them,
      then a whitespace character, then at least one more character for `.+`. */
  predicate StartsHeading(line: string, h: nat) {
    1 <= h <= 6 && h + 2 <= |line| && IsSpace(line[h])
  }

  /** The text of a heading line: the group `(.+)`, trimmed. */
  function HeadingText(line: string, h: nat): string
    requires StartsHeading(line, h)
  {
    Trim(line[h + CaptureStart(line[h..])..])
  }

  /** The item a single line yields, if it is a heading. */
  function ParseHeading(line: string): (r: Option<TocItem>)
    ensures r.Some? ==> r.value.level == LeadingHashes(line) && WellFormedItem(r.value)
    ensures LeadingHashes(line) > 6 ==> r.None?
  {
    var h := LeadingHashes(line);
    if StartsHeading(line, h) then
      var text := HeadingText(line, h);
      Some(TocItem(Slugify(text), text, h))
    else None
  }

  /** `line` is `#`×k, a non-empty whitespace run `ws`, then a non-empty rest `g`:
      one way the pattern `^(#{1,6})\s+(.+)$` can match it. */
  ghost predicate HeadingShape(line: string, k: nat, ws: string, g: string) {
    1 <= k <= 6 && |ws| >= 1 && AllSpace(ws) && |g| >= 1 && line == Hashes(k) + ws + g
  }

  /** A line of heading shape starts with exactly `k` hashes followed by whitespace. */
  lemma ShapeStartsHeading(line: string, k: nat, ws: string, g: string)
    requires HeadingShape(line, k, ws, g)
    ensures LeadingHashes(line) == k && StartsHeading(line, k)
  {
    assert line[k] == ws[0];
  }

  /** Whatever whitespace the greedy `\s+` takes, the trimmed capture is the trimmed rest `g`. */
  lemma CaptureOfShape(line: string, k: nat, ws: string, g: string)
    requires HeadingShape(line, k, ws, g)
    ensures StartsHeading(line, k) && HeadingText(line, k) == Trim(g)
  {
    var rest := ws + g;
    assert line[k..] == rest;
    assert line[k] == ws[0];
    CaptureOfRest(ws, g);
    var m := CaptureStart(rest);
    assert line[k + m..] == rest[m..] by { assert line[k + m..] == line[k..][m..]; }
  }

  /** After the hashes: the capture of whitespace `ws` followed by `g`, trimmed, is `g` trimmed. */
  lemma CaptureOfRest(ws: string, g: string)
    requires |ws| >= 1 && AllSpace(ws) && |g| >= 1
    ensures var rest := ws + g;
            |rest| >= 2 && IsSpace(rest[0]) && Trim(rest[CaptureStart(rest)..]) == Trim(g)
  {
    var rest := ws + g;
    assert rest[0] == ws[0];
    var w := CaptureStart(rest);
    var c := rest[w..];
    assert rest == rest[..w] + c;
    TrimStartAfterSpaces(rest[..w], c);
    TrimStartAfterSpaces(ws, g);
  }

  /** Whenever the pattern matches a line, the item has the hash count as its level and the trimmed rest as its text. */
  lemma ParseHeadingOfShape(line: string, k: nat, ws: string, g: string)
    requires HeadingShape(line, k, ws, g)
    ensures ParseHeading(line) == Some(TocItem(Slugify(Trim(g)), Trim(g), k))
  {
    ShapeStartsHeading(line, k, ws, g);
    CaptureOfShape(line, k, ws, g);
  }

  /** A line that yields an item has the shape of a heading. */
  lemma ShapeOfParsedHeading(line: string)
    requires ParseHeading(line).Some?
    ensures exists k, ws, g :: HeadingShape(line, k, ws, g)
  {
    ParsedStartsHeading(line);
    StartsHeadingShape(line, LeadingHashes(line));
  }

  /** Hashes followed by whitespace and at least one more character: the shape of a heading. */
  lemma StartsHeadingShape(line: string, h: nat)
    requires LeadingHashes(line) == h && StartsHeading(line, h)
    ensures HeadingShape(line, h, [line[h]], line[h + 1..])
  {
    assert line[..h] == Hashes(h);
    assert line == line[..h] + [line[h]] + line[h + 1..];
  }

  /** A line yields an item only if the hashes it starts with are followed by whitespace. */
  lemma ParsedStartsHeading(line: string)
    requires ParseHeading(line).Some?
    ensures StartsHeading(line, LeadingHashes(line))
  {
  }

  /** A line yields an item exactly when the heading pattern matches it. */
  lemma ParseHeadingIffShape(line: string)
    ensures ParseHeading(line).Some? <==> exists k, ws, g :: HeadingShape(line, k, ws, g)
  {
    if ParseHeading(line).Some? {
      ShapeOfParsedHeading(line);
    }
    if exists k, ws, g :: HeadingShape(line, k, ws, g) {
      var k, ws, g :| HeadingShape(line, k, ws, g);
      ParseHeadingOfShape(line, k, ws, g);
    }
  }

  /** The items of a sequence of lines, in line order. */
  function TocOfLines(lines: seq<string>): (items: seq<TocItem>)
    ensures |items| <= |lines|
    ensures forall k :: 0 <= k < |items| ==> WellFormedItem(items[k])
  {
    if lines == [] then []
    else
      var front := TocOfLines(lines[..|lines| - 1]);
      match ParseHeading(lines[|lines| - 1])
      case Some(item) => front + [item]
      case None => front
  }

  /** The table of contents of a markdown body. */
  function TocOf(content: string): (items: seq<TocItem>)
    ensures |items| <= |Lines(content)|
    ensures forall k :: 0 <= k < |items| ==> WellFormedItem(items[k])
  {
    TocOfLines(Lines(content))
  }

  /** `extractTocFromContent`: scans the body and pushes one item per heading line. */
  method ExtractToc(content: string) returns (tocItems: seq<TocItem>)
    ensures tocItems == TocOf(content)
  {
    var lines := Lines(content);
    tocItems := [];
    var i := 0;
    while i < |lines|
      invariant 0 <= i <= |lines|
      invariant tocItems == TocOfLines(lines[..i])
    {
      assert lines[..i + 1][..i] == lines[..i];
      var parsed := ParseHeading(lines[i]);
      if parsed.Some? {
        tocItems := tocItems + [parsed.value];
      }
      i := i + 1;
    }
    assert lines[..|lines|] == lines;
  }

  /** Items of earlier lines come before items of later lines. */
  lemma {:induction false} TocOfLinesAppend(a: seq<string>, b: seq<string>)
    ensures TocOfLines(a + b) == TocOfLines(a) + TocOfLines(b)
    decreases |b|
  {
    if b == [] {
      assert a + b == a;
    } else {
      var b' := b[..|b| - 1];
      assert (a + b)[..|a + b| - 1] == a + b';
      TocOfLinesAppend(a, b');
    }
  }

  /** Joining two texts at a line terminator joins their line lists. */
  lemma {:induction false} LinesAppend(a: string, t: char, b: string)
    requires IsLineTerminator(t)
    ensures Lines(a + [t] + b) == Lines(a) + Lines(b)
    decreases |a|
  {
    if a == [] {
      assert a + [t] + b == [t] + b;
      assert ([t] + b)[1..] == b;
    } else {
      assert (a + [t] + b)[1..] == a[1..] + [t] + b;
      LinesAppend(a[1..], t, b);
    }
  }

  /** A text without line terminators is a single line. */
  lemma {:induction false} LinesOfLine(line: string)
    requires NoLineTerminator(line)
    ensures Lines(line) == [line]
  {
    if line != [] {
      LinesOfLine(line[1..]);
      assert [line[0]] + line[1..] == line;
    }
  }

  /** Document order: the headings of `a` come before the headings of `b` in the contents of `a + "\n" + b`. */
  lemma TocOfJoin(a: string, b: string)
    ensures TocOf(a + "\n" + b) == TocOf(a) + TocOf(b)
  {
    LinesAppend(a, '\n', b);
    TocOfLinesAppend(Lines(a), Lines(b));
  }

  /** A single line contributes exactly what `ParseHeading` makes of it; in particular a line
      starting with seven or more `#` contributes nothing. */
  lemma TocOfSingleLine(line: string)
    requires NoLineTerminator(line)
    ensures TocOf(line) == match ParseHeading(line) case Some(item) => [item] case None => []
  {
    LinesOfLine(line);
  }
}
