/**
  The floating table of contents of a post page: on every scroll it marks as
  active the last heading that has scrolled to within 100 px below the top of
  the window, and hides itself when the window gets within 450 px of the
  footer. The DOM is an input: a map from element id to the element's
  `offsetTop`, holding the ids present in the page.
 */
module TocPanel {
  import opened Wrappers
  import opened TocExtract

  /** The fixed header the active heading and the scroll target allow for. */
  const HeaderOffset: int := 100
  const ScrollOffset: int := 120
  /** The approximate height of the panel and the buffer kept above the footer. */
  const TocHeight: int := 400
  const Buffer: int := 50

  /** A heading element found in the page: its id and its `offsetTop`. */
  datatype Heading = Heading(id: string, top: int)

  /** `items.map(item => document.getElementById(item.id)).filter(Boolean)`: the elements of the
      items whose id is in the page, in item order. */
  function Headings(items: seq<TocItem>, dom: map<string, int>): (hs: seq<Heading>)
    ensures |hs| <= |items|
    ensures forall k :: 0 <= k < |hs| ==> hs[k].id in dom && hs[k].top == dom[hs[k].id]
    ensures forall k :: 0 <= k < |hs| ==> exists j :: 0 <= j < |items| && items[j].id == hs[k].id
    ensures forall j :: 0 <= j < |items| && items[j].id in dom ==> Heading(items[j].id, dom[items[j].id]) in hs
    ensures |items| == 1 ==> hs == HeadingOf(items[0], dom)
  {
    if items == [] then []
    else
      var rest := Headings(items[..|items| - 1], dom);
      var id := items[|items| - 1].id;
      if id in dom then rest + [Heading(id, dom[id])] else rest
  }

  /** The element of one item: its heading when its id is in the page, nothing otherwise. */
  function HeadingOf(item: TocItem, dom: map<string, int>): seq<Heading> {
    if item.id in dom then [Heading(item.id, dom[item.id])] else []
  }

  /** The lookup keeps item order: the headings of `a + b` are those of `a`, then those of `b`. With
      the single-item case of `Headings`, this makes the result the in-order filter of the items. */
  lemma {:induction false} HeadingsAppend(a: seq<TocItem>, b: seq<TocItem>, dom: map<string, int>)
    ensures Headings(a + b, dom) == Headings(a, dom) + Headings(b, dom)
    decreases |b|
  {
    if b == [] {
      assert a + b == a;
    } else {
      var front := b[..|b| - 1];
      assert (a + b)[..|a + b| - 1] == a + front;
      assert (a + b)[|a + b| - 1] == b[|b| - 1];
      HeadingsAppend(a, front, dom);
      var x := HeadingOf(b[|b| - 1], dom);
      assert Headings(a + b, dom) == Headings(a + front, dom) + x;
      assert Headings(b, dom) == Headings(front, dom) + x;
      assert Headings(a, dom) + Headings(front, dom) + x == Headings(a, dom) + (Headings(front, dom) + x);
    }
  }

  /** The id of the last heading whose top is at or above `position`, if there is one. */
  function LastReached(hs: seq<Heading>, position: int): (r: Option<string>)
  {
    if hs == [] then None
    else if hs[|hs| - 1].top <= position then Some(hs[|hs| - 1].id)
    else LastReached(hs[..|hs| - 1], position)
  }

  /** `LastReached` picks the last heading in list order that has been reached, and finds none
      exactly when no heading has been reached. */
  lemma {:induction false} LastReachedSpec(hs: seq<Heading>, position: int)
    ensures LastReached(hs, position).None? <==> forall k :: 0 <= k < |hs| ==> hs[k].top > position
    ensures LastReached(hs, position).Some? ==>
              exists k :: 0 <= k < |hs| && hs[k].top <= position && hs[k].id == LastReached(hs, position).value
                          && forall k' :: k < k' < |hs| ==> hs[k'].top > position
    decreases |hs|
  {
    if hs != [] {
      var last := |hs| - 1;
      var front := hs[..last];
      LastReachedSpec(front, position);
      if hs[last].top <= position {
        assert hs[last].id == LastReached(hs, position).value;
      } else if LastReached(front, position).Some? {
        var k :| 0 <= k < |front| && front[k].top <= position && front[k].id == LastReached(front, position).value
                 && forall k' :: k < k' < |front| ==> front[k'].top > position;
        forall k' | k < k' < |hs| ensures hs[k'].top > position {
          if k' < last {
            assert hs[k'] == front[k'];
          }
        }
        assert hs[k] == front[k];
      } else {
        forall k | 0 <= k < |hs| ensures hs[k].top > position {
          if k < last {
            assert hs[k] == front[k];
          }
        }
      }
    }
  }

  /** `LastReached` on the first `i + 1` headings looks at heading `i` first. */
  lemma LastReachedStep(hs: seq<Heading>, i: nat, position: int)
    requires i < |hs|
    ensures LastReached(hs[..i + 1], position)
            == if hs[i].top <= position then Some(hs[i].id) else LastReached(hs[..i], position)
  {
    assert hs[..i + 1][..i] == hs[..i];
  }

  /** The footer rule: visible while the bottom of the window is less than 450 px past the top of
      the footer. */
  predicate VisibleAboveFooter(footerTop: int, scrollY: int, innerHeight: int) {
    footerTop - (scrollY + innerHeight) > -(TocHeight + Buffer)
  }

  /** `scrollToHeading`: where a click on an item scrolls the window, or nothing when its element
      is not in the page. */
  function ScrollTarget(dom: map<string, int>, id: string): (top: Option<int>)
    ensures top.None? <==> id !in dom
    ensures top.Some? ==> top.value + ScrollOffset == dom[id]
  {
    if id in dom then Some(dom[id] - ScrollOffset) else None
  }

  /** The left padding of an item, in px. */
  function Indent(level: int): (px: int)
    ensures px == 12 * level
  {
    (level - 1) * 12 + 12
  }

  /** Deeper headings are indented further. */
  lemma IndentIncreasing(a: int, b: int)
    requires a < b
    ensures Indent(a) < Indent(b)
  {
  }

  /** One row of the rendered list: the item's text, its padding and whether it is marked active. */
  datatype Row = Row(text: string, indent: int, active: bool)

  class TableOfContents {
    const items: seq<TocItem>
    var activeId: string
    var isVisible: bool

    constructor (items: seq<TocItem>)
      ensures this.items == items && activeId == "" && isVisible
    {
      this.items := items;
      activeId := "";
      isVisible := true;
    }

    /** `handleScroll`: walks the found headings from the last to the first and takes the first
        one reached; with no heading reached the active id stays. With a footer in the page the
        footer rule decides visibility; without one it stays. */
    method HandleScroll(dom: map<string, int>, scrollY: int, innerHeight: int, footerTop: Option<int>)
      modifies this
      ensures activeId == match LastReached(Headings(items, dom), scrollY + HeaderOffset)
                          case Some(id) => id
                          case None => old(activeId)
      ensures isVisible == match footerTop
                           case Some(top) => VisibleAboveFooter(top, scrollY, innerHeight)
                           case None => old(isVisible)
    {
      var headings := Headings(items, dom);
      var scrollPosition := scrollY + HeaderOffset;
      var i := |headings| - 1;
      assert headings[..i + 1] == headings;
      while i >= 0
        invariant -1 <= i < |headings|
        invariant activeId == old(activeId) && isVisible == old(isVisible)
        invariant LastReached(headings, scrollPosition) == LastReached(headings[..i + 1], scrollPosition)
      {
        LastReachedStep(headings, i, scrollPosition);
        if headings[i].top <= scrollPosition {
          activeId := headings[i].id;
          break;
        }
        i := i - 1;
      }
      if footerTop.Some? {
        isVisible := footerTop.value - (scrollY + innerHeight) > -(TocHeight + Buffer);
      }
    }

    /** The rendered list, or nothing at all when there are no items. */
    function Rows(): (rows: Option<seq<Row>>)
      reads this
      ensures rows.None? <==> items == []
      ensures rows.Some? ==> |rows.value| == |items|
      ensures rows.Some? ==> forall k :: 0 <= k < |items| ==>
                rows.value[k].text == items[k].text && rows.value[k].indent == Indent(items[k].level)
      ensures rows.Some? ==> forall k :: 0 <= k < |items| ==>
                (rows.value[k].active <==> items[k].id == activeId)
    {
      if items == [] then None
      else Some(seq(|items|, k requires 0 <= k < |items| reads this =>
                    Row(items[k].text, Indent(items[k].level), items[k].id == activeId)))
    }
  }
}
