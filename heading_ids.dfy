/**
  Heading-id injection: for each table-of-contents item, in order, the first
  `<hN>…</hN>` element (N the item's level, matched case-insensitively) whose
  inner text contains the item's text and no `<` is rewritten to carry
  `id="…"`. The item text is matched literally.
 */
module HeadingIds {
  import opened Wrappers
  import opened Strings
  import opened TocExtract

  function OpenTag(level: nat): string { "<h" + NatToString(level) + ">" }

  function CloseTag(level: nat): string { "</h" + NatToString(level) + ">" }

  function OpenTagWithId(level: nat, id: string): string {
    "<h" + NatToString(level) + " id=\"" + id + "\">"
  }

  /** The index of the first `<` at or after `from`, or `|s|` when there is none:
      where the inner text `[^<]*` of an element has to end. */
  function NextLt(s: string, from: nat): (e: nat)
    requires from <= |s|
    ensures from <= e <= |s|
    ensures forall i :: from <= i < e ==> s[i] != '<'
    ensures e < |s| ==> s[e] == '<'
    decreases |s| - from
  {
    if from == |s| || s[from] == '<' then from else NextLt(s, from + 1)
  }

  /** `text` occurs in `s[lo..hi]`, up to ASCII case. */
  function OccursIgnoreCase(s: string, text: string, lo: nat, hi: nat): (found: bool)
    requires lo <= hi <= |s|
    ensures found <==> exists a :: lo <= a && a + |text| <= hi && HasAtIgnoreCase(s, a, text)
    decreases hi - lo
  {
    if lo + |text| > hi then false
    else HasAtIgnoreCase(s, lo, text) || OccursIgnoreCase(s, text, lo + 1, hi)
  }

  /** `<hN>([^<]*text[^<]*)</hN>` with flag `i` matches `s` at index `p`. */
  predicate ElementAt(s: string, p: nat, level: nat, text: string) {
    && HasAtIgnoreCase(s, p, OpenTag(level))
    && var q := p + |OpenTag(level)|;
       var e := NextLt(s, q);
       HasAtIgnoreCase(s, e, CloseTag(level)) && OccursIgnoreCase(s, text, q, e)
  }

  /** `p` is the leftmost index at which the element pattern matches: where `String.replace`
      with a non-global pattern rewrites. */
  predicate FirstElementAt(s: string, p: nat, level: nat, text: string) {
    ElementAt(s, p, level, text) && forall p' :: 0 <= p' < p ==> !ElementAt(s, p', level, text)
  }

  /** The leftmost match at or after `from`. */
  function FindElement(s: string, level: nat, text: string, from: nat): (r: Option<nat>)
    requires from <= |s|
    ensures r.Some? ==> from <= r.value <= |s| && ElementAt(s, r.value, level, text)
    ensures r.Some? ==> forall p :: from <= p < r.value ==> !ElementAt(s, p, level, text)
    ensures r.None? ==> forall p :: from <= p <= |s| ==> !ElementAt(s, p, level, text)
    decreases |s| - from
  {
    if ElementAt(s, from, level, text) then Some(from)
    else if from == |s| then None
    else FindElement(s, level, text, from + 1)
  }

  /** The element at `p` with `id` added to its opening tag: the inner text is kept as it was and
      the tags are written in lower case, as the replacement string spells them. */
  function WithId(s: string, p: nat, level: nat, text: string, id: string): (r: string)
    requires ElementAt(s, p, level, text)
    ensures |r| == |s| + |id| + 6 && p <= |s|
    ensures r[..p] == s[..p]
    ensures Spliced(r, s, p, p + |OpenTag(level)|, NextLt(s, p + |OpenTag(level)|),
                    OpenTagWithId(level, id), CloseTag(level))
    ensures EqualsIgnoreCase(r[p + |OpenTagWithId(level, id)|..], s[p + |OpenTag(level)|..])
  {
    var q := p + |OpenTag(level)|;
    var e := NextLt(s, q);
    var close := CloseTag(level);
    var open := OpenTagWithId(level, id);
    SpliceTag(s, p, q, e, open, close);
    SpliceAt(s, p, q, e, open, close);
    OpenTagWithIdLength(level, id);
    s[..p] + open + s[q..e] + close + s[e + |close|..]
  }

  /** `r` is `s` with its part `s[p..q]` replaced by `open` and its part `s[e..e + |close|]` by
      `close`: everything before `p`, between `q` and `e`, and after the second part is kept. */
  predicate Spliced(r: string, s: string, p: nat, q: nat, e: nat, open: string, close: string) {
    var m := p + |open|;
    && p <= q <= e && e + |close| <= |s|
    && |r| == m + (e - q) + |s| - e
    && r[..p] == s[..p]
    && r[p..m] == open
    && r[m..m + (e - q)] == s[q..e]
    && r[m + (e - q)..m + (e - q) + |close|] == close
    && r[m + (e - q) + |close|..] == s[e + |close|..]
  }

  lemma SpliceAt(s: string, p: nat, q: nat, e: nat, open: string, close: string)
    requires p <= q <= e && e + |close| <= |s|
    ensures Spliced(s[..p] + open + s[q..e] + close + s[e + |close|..], s, p, q, e, open, close)
  {
    SpliceParts(s[..p], open, s[q..e], close, s[e + |close|..]);
  }

  /** The five parts of a spliced string are found again at their offsets. */
  lemma SpliceParts(a: string, b: string, c: string, d: string, t: string)
    ensures var r := a + b + c + d + t;
            && r[..|a|] == a
            && r[|a|..|a| + |b|] == b
            && r[|a| + |b|..|a| + |b| + |c|] == c
            && r[|a| + |b| + |c|..|a| + |b| + |c| + |d|] == d
            && r[|a| + |b| + |c| + |d|..] == t
  {
  }

  /** Adding the attribute lengthens the opening tag by ` id=""` and the id. */
  lemma OpenTagWithIdLength(level: nat, id: string)
    ensures |OpenTagWithId(level, id)| == |OpenTag(level)| + |id| + 6
  {
  }

  /** `s` with its opening tag `s[p..q]` replaced by `open` and its closing tag at `e` rewritten as
      `close`, which it equals up to case. */
  lemma SpliceTag(s: string, p: nat, q: nat, e: nat, open: string, close: string)
    requires p <= q <= e && e + |close| <= |s| && EqualsIgnoreCase(s[e..e + |close|], close)
    ensures var r := s[..p] + open + s[q..e] + close + s[e + |close|..];
            |r| == |s| - (q - p) + |open| && r[..p] == s[..p]
            && EqualsIgnoreCase(r[p + |open|..], s[q..])
  {
    var r := s[..p] + open + s[q..e] + close + s[e + |close|..];
    assert s[q..] == s[q..e] + s[e..e + |close|] + s[e + |close|..];
    CaselessMiddle(s[q..e], close, s[e..e + |close|], s[e + |close|..]);
    assert r[p + |open|..] == s[q..e] + close + s[e + |close|..];
  }

  /** Replacing a middle part by one equal up to case keeps the whole equal up to case. */
  lemma CaselessMiddle(a: string, b: string, b': string, c: string)
    requires EqualsIgnoreCase(b, b')
    ensures EqualsIgnoreCase(a + b + c, a + b' + c)
  {
    var x, y := a + b + c, a + b' + c;
    forall i | 0 <= i < |x| ensures LowerChar(x[i]) == LowerChar(y[i]) {
      if |a| <= i < |a| + |b| {
        assert x[i] == b[i - |a|] && y[i] == b'[i - |a|];
      }
    }
  }

  /** One step of `addHeadingIds`: the first element matching the item gets the item's id;
      when no element matches, the HTML is unchanged. */
  function AddId(html: string, item: TocItem): (r: string)
    ensures (forall p :: 0 <= p <= |html| ==> !ElementAt(html, p, item.level, item.text)) ==> r == html
    ensures forall p :: 0 <= p <= |html| && FirstElementAt(html, p, item.level, item.text) ==>
              r == WithId(html, p, item.level, item.text, item.id)
  {
    match FindElement(html, item.level, item.text, 0)
    case None => html
    case Some(p) =>
      FirstElementUnique(html, p, item.level, item.text);
      WithId(html, p, item.level, item.text, item.id)
  }

  /** There is only one leftmost match. */
  lemma FirstElementUnique(s: string, p: nat, level: nat, text: string)
    requires FirstElementAt(s, p, level, text)
    ensures forall p' :: FirstElementAt(s, p', level, text) ==> p' == p
  {
  }

  /** The HTML after the items have been applied one after the other, in list order. */
  function ApplyIds(html: string, items: seq<TocItem>): string {
    if items == [] then html else AddId(ApplyIds(html, items[..|items| - 1]), items[|items| - 1])
  }

  /** `addHeadingIds`: reassigns the content once per item. */
  method AddHeadingIds(htmlContent: string, tocItems: seq<TocItem>) returns (updatedContent: string)
    ensures updatedContent == ApplyIds(htmlContent, tocItems)
  {
    updatedContent := htmlContent;
    for i := 0 to |tocItems|
      invariant updatedContent == ApplyIds(htmlContent, tocItems[..i])
    {
      assert tocItems[..i + 1][..i] == tocItems[..i];
      updatedContent := AddId(updatedContent, tocItems[i]);
    }
    assert tocItems[..|tocItems|] == tocItems;
  }

  /** HTML without any `<` holds no heading element, so no item changes it. */
  lemma {:induction false} ApplyIdsWithoutTags(html: string, items: seq<TocItem>)
    requires forall i :: 0 <= i < |html| ==> html[i] != '<'
    ensures ApplyIds(html, items) == html
  {
    if items != [] {
      ApplyIdsWithoutTags(html, items[..|items| - 1]);
      var item := items[|items| - 1];
      forall p | 0 <= p <= |html| ensures !ElementAt(html, p, item.level, item.text) {
        if HasAtIgnoreCase(html, p, OpenTag(item.level)) {
          assert LowerChar(html[p]) == LowerChar(OpenTag(item.level)[0]);
        }
      }
    }
  }
}
