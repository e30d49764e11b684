/**
  The landing-page blog carousel: an endless strip of post cards moved one
  slide at a time, by the arrow buttons, the dots, or an autoplay timer that
  advances every 15 seconds and reports its progress every 100 ms. The slide
  shown is the slide index reduced by JavaScript's `%`, whose remainder takes
  the sign of the dividend.
 */
module Carousel {
  import opened Wrappers
  import opened Strings
  import opened Posts

  /** Autoplay advances after this many milliseconds. */
  const Duration: int := 15000
  /** The autoplay timer fires this often, in milliseconds. */
  const UpdateInterval: int := 100

  /** The quotient of `a / n` truncated toward zero, as `%` in JavaScript uses it. */
  function TruncDiv(a: int, n: int): (q: int)
    requires n > 0
    ensures a >= 0 ==> q >= 0 && q * n <= a < (q + 1) * n
    ensures a < 0 ==> q <= 0 && (q - 1) * n < a <= q * n
  {
    if a >= 0 then
      FloorDivBounds(a, n);
      a / n
    else
      FloorDivBounds(-a, n);
      NegatedProducts((-a) / n, n);
      -((-a) / n)
  }

  lemma FloorDivBounds(a: int, n: int)
    requires a >= 0 && n > 0
    ensures a / n >= 0 && a / n * n <= a < (a / n + 1) * n
  {
  }

  lemma NegatedProducts(m: int, n: int)
    ensures (-m) * n == -(m * n) && (-m - 1) * n == -((m + 1) * n)
  {
  }

  /** JavaScript's `a % n` for a positive `n`: `a - n * q` with `q` the quotient truncated toward
      zero, so the remainder has the sign of `a`. */
  function JsRem(a: int, n: int): (r: int)
    requires n > 0
    ensures r == a - n * TruncDiv(a, n)
    ensures a >= 0 ==> 0 <= r < n
    ensures a < 0 ==> -n < r <= 0
  {
    if a >= 0 then a % n else -((-a) % n)
  }

  lemma MulAtLeast(d: int, n: int)
    requires d >= 1 && n > 0
    ensures d * n >= n
  {
  }

  /** Euclidean division is determined by its quotient-remainder decomposition. */
  lemma ModUnique(x: int, n: int, q: int, r: int)
    requires n > 0 && x == q * n + r && 0 <= r < n
    ensures x % n == r
  {
    var q', r' := x / n, x % n;
    assert x == q' * n + r';
    assert (q - q') * n == r' - r;
    if q > q' {
      MulAtLeast(q - q', n);
    } else if q < q' {
      MulAtLeast(q' - q, n);
    }
  }

  /** A `slice` position made absolute: a negative one counts from the end, and the result is
      clamped to `0 .. len`. */
  function RelativeIndex(i: int, len: nat): (p: nat)
    ensures p <= len
    ensures 0 <= i <= len ==> p == i
    ensures i < 0 <= len + i ==> p == len + i
    ensures len + i < 0 ==> p == 0
    ensures i > len ==> p == len
  {
    if i < 0 then (if len + i < 0 then 0 else len + i)
    else if i > len then len else i
  }

  /** `Array.prototype.slice(start, end)`: negative positions count from the end, and the
      positions are clamped to the array. */
  function JsSlice<T>(s: seq<T>, start: int, end: int): (r: seq<T>)
    ensures var from, to := RelativeIndex(start, |s|), RelativeIndex(end, |s|);
            |r| == (if from < to then to - from else 0)
            && forall k :: 0 <= k < |r| ==> r[k] == s[from + k]
    ensures 0 <= start <= end <= |s| ==> r == s[start..end]
    ensures 0 <= |s| + start && start <= end < 0 ==> r == s[|s| + start..|s| + end]
    ensures start < 0 && end == 0 ==> r == []
  {
    var from, to := RelativeIndex(start, |s|), RelativeIndex(end, |s|);
    if from < to then s[from..to] else []
  }

  /** The progress bar's width, in percent, after `elapsed` milliseconds. */
  function ProgressOf(elapsed: int): real {
    elapsed as real / Duration as real * 100.0
  }

  /** The progress bar stays below 100% while the slide is shown. */
  lemma ProgressBounds(elapsed: int)
    requires 0 <= elapsed < Duration
    ensures 0.0 <= ProgressOf(elapsed) < 100.0
  {
  }

  /** The endless strip: three copies of the posts, slot `k` showing post `k % n`. */
  function Strip(posts: seq<Post>): (r: seq<Post>)
    requires |posts| > 0
    ensures |r| == 3 * |posts|
    ensures forall k :: 0 <= k < |r| ==> r[k] == posts[k % |posts|]
  {
    seq(3 * |posts|, k requires 0 <= k < 3 * |posts| => posts[k % |posts|])
  }

  /** The strip is the post list three times over. */
  lemma StripIsThreeCopies(posts: seq<Post>)
    requires |posts| > 0
    ensures Strip(posts) == posts + posts + posts
  {
    var n := |posts|;
    var r := Strip(posts);
    forall k | 0 <= k < 3 * n ensures r[k] == (posts + posts + posts)[k] {
      if k < n {
        ModUnique(k, n, 0, k);
      } else if k < 2 * n {
        ModUnique(k, n, 1, k - n);
      } else {
        ModUnique(k, n, 2, k - 2 * n);
      }
    }
  }

  /** What the carousel renders: the transform moving the strip, the strip, whether the arrows are
      shown, and for each dot whether it is active (no dots for a single post). */
  datatype CarouselView = CarouselView(transform: string, strip: seq<Post>, arrows: bool, dots: seq<bool>)

  class BlogCarousel {
    const posts: seq<Post>
    var currentIndex: int
    var isAutoPlaying: bool
    var progress: real
    /** The milliseconds the running autoplay timer has counted since it last advanced. */
    var elapsed: int

    /** The timer counts whole intervals and advances before reaching the duration, and while
        autoplay runs the progress bar shows the elapsed share of the duration. */
    ghost predicate Valid()
      reads this
    {
      && 0 <= elapsed < Duration && elapsed % UpdateInterval == 0
      && (isAutoPlaying ==> progress == ProgressOf(elapsed))
    }

    constructor (posts: seq<Post>)
      ensures Valid()
      ensures this.posts == posts
      ensures currentIndex == 0 && isAutoPlaying && progress == 0.0 && elapsed == 0
    {
      this.posts := posts;
      currentIndex := 0;
      isAutoPlaying := true;
      progress := 0.0;
      elapsed := 0;
    }

    /** `nextSlide`: one slide on, autoplay stopped, progress cleared. */
    method NextSlide()
      requires Valid()
      modifies this
      ensures Valid()
      ensures currentIndex == old(currentIndex) + 1 && !isAutoPlaying && progress == 0.0
      ensures elapsed == old(elapsed)
    {
      currentIndex := currentIndex + 1;
      isAutoPlaying := false;
      progress := 0.0;
    }

    /** `prevSlide`: one slide back, autoplay stopped, progress cleared. The index may become negative. */
    method PrevSlide()
      requires Valid()
      modifies this
      ensures Valid()
      ensures currentIndex == old(currentIndex) - 1 && !isAutoPlaying && progress == 0.0
      ensures elapsed == old(elapsed)
    {
      currentIndex := currentIndex - 1;
      isAutoPlaying := false;
      progress := 0.0;
    }

    /** `goToSlide(index)`: a dot jumps to its slide, stops autoplay and clears the progress. */
    method GoToSlide(index: int)
      requires Valid()
      modifies this
      ensures Valid()
      ensures currentIndex == index && !isAutoPlaying && progress == 0.0
      ensures elapsed == old(elapsed)
    {
      currentIndex := index;
      isAutoPlaying := false;
      progress := 0.0;
    }

    /** One firing of the autoplay timer. The timer only runs while autoplay is on and there is
        more than one slide; it counts another interval, shows the progress, and after the full
        duration advances one slide and starts over. */
    method Tick()
      requires Valid()
      modifies this
      ensures Valid()
      ensures !(old(isAutoPlaying) && |posts| > 1) ==>
                currentIndex == old(currentIndex) && progress == old(progress) && elapsed == old(elapsed)
      ensures isAutoPlaying == old(isAutoPlaying)
      ensures old(isAutoPlaying) && |posts| > 1 && old(elapsed) + UpdateInterval >= Duration ==>
                currentIndex == old(currentIndex) + 1 && elapsed == 0 && progress == 0.0
      ensures old(isAutoPlaying) && |posts| > 1 && old(elapsed) + UpdateInterval < Duration ==>
                currentIndex == old(currentIndex) && elapsed == old(elapsed) + UpdateInterval
                && progress == ProgressOf(elapsed)
    {
      if !isAutoPlaying || |posts| <= 1 {
        return;
      }
      elapsed := elapsed + UpdateInterval;
      progress := ProgressOf(elapsed);
      if elapsed >= Duration {
        currentIndex := currentIndex + 1;
        elapsed := 0;
        progress := 0.0;
      }
    }

    /** `currentIndex % totalSlides`, with JavaScript's `%`. */
    function CurrentSlideIndex(): (s: int)
      reads this
      requires |posts| > 0
      ensures s == JsRem(currentIndex, |posts|)
      ensures -|posts| < s < |posts|
      ensures currentIndex >= 0 ==> s == currentIndex % |posts|
      ensures currentIndex < 0 ==> s <= 0
    {
      JsRem(currentIndex, |posts|)
    }

    /** `getCurrentSlidePosts`: the posts of the current slide, one per slide. A negative slide
        index `s` slices from the end: `slice(s, s + 1)` is the post `n + s` places in, except for
        `s == -1`, where the end position `0` leaves nothing. */
    function CurrentSlidePosts(): (r: seq<Post>)
      reads this
      requires |posts| > 0
      ensures currentIndex >= 0 ==> r == [posts[currentIndex % |posts|]]
      ensures r == [] <==> CurrentSlideIndex() == -1
      ensures CurrentSlideIndex() != -1 ==> r == [posts[WrappedSlideIndex(currentIndex, |posts|)]]
    {
      var start := CurrentSlideIndex() * 1;
      JsSlice(posts, start, start + 1)
    }

    /** The style moving the strip: `translateX(-${currentSlideIndex * 50}%)`. */
    function Transform(): (t: string)
      reads this
      requires |posts| > 0
      ensures |t| > 12 && t[..12] == "translateX(-"
      ensures t[12] == '-' <==> CurrentSlideIndex() < 0
      ensures t == "translateX(-" + IntToString(CurrentSlideIndex() * 50) + "%)"
    {
      var offset := IntToString(CurrentSlideIndex() * 50);
      var t := "translateX(-" + offset + "%)";
      assert t[12] == offset[0];
      t
    }

    /** What the component renders; nothing at all without posts. */
    function View(): (v: Option<CarouselView>)
      reads this
      ensures v.None? <==> |posts| == 0
      ensures v.Some? ==> (v.value.arrows <==> |posts| > 1)
      ensures v.Some? ==> v.value.transform == Transform()
      ensures v.Some? ==> v.value.strip == Strip(posts)
      ensures v.Some? && |posts| > 1 ==> v.value.dots == Dots(currentIndex, |posts|)
      ensures v.Some? && |posts| == 1 ==> v.value.dots == []
    {
      if |posts| == 0 then None
      else
        var n := |posts|;
        Some(CarouselView(Transform(), Strip(posts), n > 1,
                          if n > 1 then Dots(currentIndex, n) else []))
    }
  }

  /** Dot `i` is active when `index % n`, with JavaScript's `%`, equals `i`. */
  function Dots(index: int, n: int): (dots: seq<bool>)
    requires n > 0
    ensures |dots| == n
    ensures forall i, j :: 0 <= i < j < n ==> !(dots[i] && dots[j])
    ensures index >= 0 ==> dots[index % n]
    ensures forall i :: 0 <= i < n ==> (dots[i] <==> JsRem(index, n) == i)
  {
    assert index >= 0 ==> JsRem(index, n) == index % n;
    seq(n, i requires 0 <= i < n => JsRem(index, n) == i)
  }

  /** Some dot is active exactly when the JavaScript remainder is not negative. */
  lemma SomeDotIff(index: int, n: int)
    requires n > 0
    ensures (exists i :: 0 <= i < n && Dots(index, n)[i]) <==> JsRem(index, n) >= 0
  {
    if JsRem(index, n) >= 0 {
      assert Dots(index, n)[JsRem(index, n)];
    }
  }

  /** One `prevSlide` from the first slide: the index becomes -1, no dot is active, the slide's post
      list is empty, and the transform reads `translateX(--50%)`, which is not a valid length. */
  lemma PrevFromFirstSlide(c: BlogCarousel)
    requires |c.posts| > 1 && c.currentIndex == -1
    ensures c.CurrentSlideIndex() == -1
    ensures forall i :: 0 <= i < |c.posts| ==> !Dots(c.currentIndex, |c.posts|)[i]
    ensures c.CurrentSlidePosts() == []
    ensures c.Transform() == "translateX(--50%)"
  {
    assert IntToString(-50) == "-50";
  }

  /** Two `prevSlide`s from the first slide: the slide index is `-2`, and `slice(-2, -1)` shows the
      second-to-last post, the one the wrapped index names. Only `-1` gives an empty slide. */
  lemma TwoBackFromFirstSlide(c: BlogCarousel)
    requires |c.posts| > 2 && c.currentIndex == -2
    ensures c.CurrentSlideIndex() == -2
    ensures c.CurrentSlidePosts() == [c.posts[|c.posts| - 2]]
  {
  }

  /** The evidently intended slide index: the index reduced into `0 .. n-1`. It agrees with the
      JavaScript remainder where that is not negative and adds `n` where it is. */
  function WrappedSlideIndex(index: int, n: int): (s: int)
    requires n > 0
    ensures 0 <= s < n
    ensures JsRem(index, n) >= 0 ==> s == JsRem(index, n)
    ensures JsRem(index, n) < 0 ==> s == JsRem(index, n) + n
  {
    if index >= 0 then index % n
    else
      var q, r := (-index) / n, (-index) % n;
      if r == 0 then ModUnique(index, n, -q, 0); index % n
      else ModUnique(index, n, -q - 1, n - r); index % n
  }

  /** The dots with the wrapped index. */
  function WrappedDots(index: int, n: int): seq<bool>
    requires n > 0
  {
    seq(n, i requires 0 <= i < n => WrappedSlideIndex(index, n) == i)
  }

  /** With the wrapped index exactly one dot is active for every index, and stepping back from the
      first slide activates the last dot. */
  lemma WrappedOneDot(index: int, n: int)
    requires n > 0
    ensures |WrappedDots(index, n)| == n && WrappedDots(index, n)[WrappedSlideIndex(index, n)]
    ensures forall i :: 0 <= i < n && WrappedDots(index, n)[i] ==> i == WrappedSlideIndex(index, n)
    ensures WrappedDots(-1, n)[n - 1]
  {
    assert WrappedSlideIndex(-1, n) == n - 1;
  }
}
