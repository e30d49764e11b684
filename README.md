# PNPL website blog: a Dafny model

This project models the blog of the PNPL lab website:

- the post pipeline in `src/lib/blog.ts`:
  - heading slugs and the table of contents taken from the markdown body;
  - heading ids injected into the rendered HTML;
  - `$$…$$` / `$…$` math spans and the `<BlogDemo />` placeholder rewritten;
  - the reading-time estimate;
  - the collection rules: posts newest first, the tag filter, and the sorted tag union.
- the state rules of four components:
  - the landing-page carousel (`BlogCarousel.tsx`);
  - the floating table of contents (`TableOfContents.tsx`);
  - the navigation bar (`Navigation.tsx`);
  - the tag filter of the blog index (`BlogPageClient.tsx`).

Each part of the source keeps its form in the model:

- The string transformations are pure functions, each with lemmas.
- The three loops of `blog.ts` are methods:
  - `extractTocFromContent` → `TocExtract.ExtractToc`, proved equal to `TocExtract.TocOf`;
  - `addHeadingIds` → `HeadingIds.AddHeadingIds`, proved equal to `HeadingIds.ApplyIds`;
  - the tag `Set` of `getAllTags` → `Posts.AllTags`, specified by its result being strictly increasing and holding exactly the tags of `Posts.TagUnion`.
- Each component's React state becomes a class:
  - its fields are the component's state;
  - its methods are the handlers and the timer tick, which events call explicitly.
- Inputs that the code only receives are parameters:
  - the directory listing, the front-matter parse and the rendered HTML (`Posts.DirEntry`);
  - the DOM: a map from element id to `offsetTop`, or a set of ids;
  - `window.scrollY`, `innerHeight` and the pathname.

JavaScript semantics the model writes out:

- `\s`: the full WhiteSpace and LineTerminator sets of ECMA-262, including the Unicode spaces;
- `\w`: ASCII letters, digits and `_`, as in JavaScript without the `u` flag;
- `trim`;
- ASCII `toLowerCase`, and the `i` flag as ASCII case folding;
- multiline `^…$` per line;
- the leftmost-match rule of a non-global `replace`;
- the left-to-right, non-overlapping rule of a global `replace`;
- `split(/\s+/)`;
- `Math.ceil`;
- the stable `Array.prototype.sort`, and its default string order;
- the truncating `%`;
- `Array.prototype.slice` with negative positions.

Modules:

- `Wrappers`: `Option`.
- `Strings`: character classes, trim, lower-casing, decimal rendering.
- `Slug`: heading ids.
- `TocExtract`: table-of-contents items.
- `HeadingIds`: id injection.
- `MathRewrite`: math spans and the demo placeholder.
- `Reading`: reading time.
- `Lex`: the default string sort.
- `Posts`: `getPostBySlug`, `getAllPosts`, `getPostsByTag`, `getAllTags`.
- `Carousel`, `TocPanel`, `Nav`, `BlogIndex`: the components.

## Model

| member | source | states |
|---|---|---|
| Strings.ToLower | src/lib/blog.ts:32 | lower-casing keeps the length and maps each ASCII capital to its lower-case letter, nothing else |
| Strings.Trim | src/lib/blog.ts:31 | the trimmed text neither starts nor ends with white space and is no longer than the input |
| Strings.TrimStartCut | src/lib/blog.ts:31 | the start-trimmed text is a suffix of the input with only white space before it |
| Strings.TrimEndCut | src/lib/blog.ts:31 | the end-trimmed text is a prefix of the input with only white space after it |
| Strings.TrimSlice | src/lib/blog.ts:31 | the trimmed text is the slice of the input that starts after its leading white space, with only white space on either side of it |
| Strings.TrimmedIsFixpoint | src/lib/blog.ts:31 | trimming a trimmed text changes nothing |
| Strings.TrimStartAfterSpaces | src/lib/blog.ts:31 | leading white space does not affect the trimmed start |
| Slug.StripSpecial | src/lib/blog.ts:33 | `[^\w\s-]` removal keeps only word characters, white space and hyphens of the input; a single character is kept exactly when it is in the class; nothing changes when all are kept |
| Slug.StripSpecialAppend | src/lib/blog.ts:33 | the removal works character by character: on `a + b` it is the removal on `a` followed by the removal on `b`, so with the single-character case the result is the input filtered by the class |
| Slug.ReplaceRunsChars | src/lib/blog.ts:34-35 | after a run replacement every character is a hyphen or an input character outside the run class |
| Slug.ReplaceRuns | src/lib/blog.ts:34-35 | a run replacement never lengthens the text, and when the hyphen is outside the run class no run character is left |
| Slug.DropRunAppend | src/lib/blog.ts:34-35 | a run that ends inside a text is skipped the same way whatever follows the text |
| Slug.ReplaceRunsJoin | src/lib/blog.ts:34-35 | a maximal run between two texts becomes exactly one hyphen at that place, and each side is replaced on its own |
| Slug.ReplaceRunsNoDoubleHyphen | src/lib/blog.ts:35 | `/-+/g → '-'` leaves no two adjacent hyphens |
| Slug.TrimHyphenIsSlug | src/lib/blog.ts:36 | removing one leading and one trailing hyphen from a hyphen-collapsed id yields a slug |
| Slug.TrimHyphen | src/lib/blog.ts:36 | exactly the edge hyphens go, at most one at each end: a text with no edge hyphen is unchanged, a leading hyphen alone or a trailing hyphen alone is dropped, and a hyphen at both ends loses exactly those two |
| Slug.Slugify | src/lib/blog.ts:32-36 | every heading id holds only `a-z`, `0-9`, `_`, `-`, has no `--`, and neither starts nor ends with `-` |
| Slug.SlugIsFixpoint | src/lib/blog.ts:32-36 | a slug is left unchanged by the id chain |
| Slug.SlugifyIdempotent | src/lib/blog.ts:32-36 | deriving an id from an id returns the same id |
| Slug.WordCharsStrip | src/lib/blog.ts:33 | the special-character removal keeps every word character, in order |
| Slug.WordCharsReplaceRuns | src/lib/blog.ts:34-35 | replacing runs of non-word characters by a hyphen keeps every word character, in order |
| Slug.WordCharsTrimHyphen | src/lib/blog.ts:36 | removing the edge hyphens keeps every word character |
| Slug.SlugWordChars | src/lib/blog.ts:32-36 | an id holds only hyphens and word characters, and without its hyphens it is exactly the word characters of the lower-cased text, in order |
| Slug.SlugifyJoin | src/lib/blog.ts:32-36 | the hyphens of an id sit where the text had white space: two ids separated by white space give the two ids joined by one hyphen |
| TocExtract.Lines | src/lib/blog.ts:25 | the body is cut into at least one line, none containing a line terminator (multiline `^`/`$`) |
| TocExtract.LeadingHashes | src/lib/blog.ts:25 | the count of leading `#` characters, followed by a non-`#` |
| TocExtract.ParseHeading | src/lib/blog.ts:25-36 | a heading item's level is the count of leading `#` and the item is well formed (level 1..6, trimmed text, id = slug of text); seven or more `#` yield nothing |
| TocExtract.ParseHeadingOfShape | src/lib/blog.ts:25-36 | a line `#`×k + whitespace + non-empty rest yields level k and the trimmed rest as text, however the greedy `\s+` splits |
| TocExtract.ParseHeadingIffShape | src/lib/blog.ts:25 | a line yields an item exactly when the heading pattern can match it |
| TocExtract.TocOfLines | src/lib/blog.ts:29-39 | at most one item per line, all well formed |
| TocExtract.ExtractToc | src/lib/blog.ts:24-42 | the while loop returns exactly `TocOf` of the body: the items of the heading lines, in line order |
| TocExtract.TocOfLinesAppend | src/lib/blog.ts:29-39 | items of earlier lines precede items of later lines |
| TocExtract.TocOfJoin | src/lib/blog.ts:29-39 | the contents of `a + "\n" + b` are those of `a` followed by those of `b` (document order) |
| TocExtract.TocOfSingleLine | src/lib/blog.ts:25-39 | a single line contributes exactly the item it parses to, or nothing |
| TocExtract.TocOf | src/lib/blog.ts:24-42 | a body yields at most one item per line, each well formed (level 1..6, trimmed text, id = slug of text) |
| HeadingIds.NextLt | src/lib/blog.ts:49 | the `[^<]*` inner text ends at the first `<` |
| HeadingIds.ElementAt | src/lib/blog.ts:49 | the pattern `<hN>([^<]*text[^<]*)</hN>` with flag `i` matches at an index: the opening tag, a `<`-free inner text holding the item text, then the closing tag, all up to ASCII case |
| HeadingIds.FirstElementAt | src/lib/blog.ts:49-50 | the match at an index is the leftmost one, where a non-global `replace` rewrites |
| HeadingIds.OccursIgnoreCase | src/lib/blog.ts:49 | true exactly when the item text occurs inside the bounds up to ASCII case |
| HeadingIds.FindElement | src/lib/blog.ts:49-50 | finds the leftmost index where `<hN>[^<]*text[^<]*</hN>` matches case-insensitively, or reports there is none |
| HeadingIds.WithId | src/lib/blog.ts:50 | the rewrite keeps everything before the element, replaces its opening tag by `<hN id="…">`, keeps the inner text exactly, writes the closing tag `</hN>` and keeps everything after it exactly; the replaced tags equal the matched ones up to ASCII case |
| HeadingIds.SpliceAt | src/lib/blog.ts:50 | replacing the tags around `s[q..e]` puts the prefix, the new opening tag, the inner text, the new closing tag and the tail at their exact offsets |
| HeadingIds.AddId | src/lib/blog.ts:48-50 | only the first matching element gets the id; without a match the HTML is unchanged |
| HeadingIds.FirstElementUnique | src/lib/blog.ts:50 | the leftmost match is unique |
| HeadingIds.AddHeadingIds | src/lib/blog.ts:44-54 | the forEach loop returns exactly `ApplyIds` of the HTML and the items |
| HeadingIds.ApplyIds | src/lib/blog.ts:47-51 | the HTML after the items have been applied one after the other, in list order, each to the result of the previous one |
| HeadingIds.ApplyIdsWithoutTags | src/lib/blog.ts:47-51 | HTML without `<` is unchanged by any list of items |
| MathRewrite.NonDollarRun | src/lib/blog.ts:111-112 | `[^$]+` stops at the first `$` |
| MathRewrite.SpanLength | src/lib/blog.ts:111-112 | the length of a span's contents is forced: a span at a position is unique |
| MathRewrite.MatchAt | src/lib/blog.ts:111-112 | finds a span at the position when and only when one is there |
| MathRewrite.MatchAtNotDollar | src/lib/blog.ts:111-112 | no span starts at a character other than `$` |
| MathRewrite.ReplaceSpans | src/lib/blog.ts:111-112 | a global `replace(/D([^$]+)D/g, …)`: matches are taken leftmost first, never overlap, and the text between them is copied |
| MathRewrite.DisplayPass | src/lib/blog.ts:111 | the first replacement, with `$$` delimiters and the display container |
| MathRewrite.InlinePass | src/lib/blog.ts:112 | the second replacement, with `$` delimiters and the inline container |
| MathRewrite.RewriteMath | src/lib/blog.ts:111-112 | the display pass runs first and the inline pass runs on its output |
| MathRewrite.ReplaceSpansDollarFree | src/lib/blog.ts:111-112 | text without `$` is left unchanged by either pass |
| MathRewrite.ReplaceSpansAfterPrefix | src/lib/blog.ts:111-112 | a `$`-free prefix is copied and the pass continues after it |
| MathRewrite.ReplaceSpansOfSpan | src/lib/blog.ts:111-112 | a leading span is wrapped and the pass continues after its closing delimiter |
| MathRewrite.DisplayOfSpan | src/lib/blog.ts:111 | `$$X$$` (X non-empty, `$`-free) becomes `<div class="math-display">\[X\]</div>` |
| MathRewrite.InlineOfSpan | src/lib/blog.ts:112 | `$X$` becomes `<span class="math-inline">\(X\)</span>` |
| MathRewrite.DisplaySpanDollarFree | src/lib/blog.ts:111 | a display span's output contains no `$` |
| MathRewrite.MathOfDisplay | src/lib/blog.ts:111-112 | after a `$`-free prefix, a display span is rewritten once and the inline pass does not touch it |
| MathRewrite.MathOfDollarFree | src/lib/blog.ts:111-112 | text without `$` passes both rewrites unchanged |
| MathRewrite.DisplayPassLoneDollars | src/lib/blog.ts:111 | single dollars around a display span survive the display pass |
| MathRewrite.InlineOfWholeSpan | src/lib/blog.ts:112 | a whole-text inline span is wrapped once |
| MathRewrite.InlineWrapsDisplayAfterLoneDollar | src/lib/blog.ts:111-112 | `$ $$X$$ $` ends with the display span inside an inline span: the inline pass can re-wrap a display span |
| MathRewrite.ReplaceAllAtFirst | src/lib/blog.ts:115 | a global `replace` of a literal replaces the leftmost occurrence, keeps the text before it, and resumes the scan after it |
| MathRewrite.ReplaceAllLeavesNone | src/lib/blog.ts:115 | when the pattern's first character does not recur in it and the replacement starts with that character and holds no other pattern start, the global replace leaves no occurrence at all |
| MathRewrite.ReplaceDemo | src/lib/blog.ts:115 | every `<BlogDemo />` is replaced: the rewritten HTML holds no placeholder anywhere |
| MathRewrite.ReplaceAllAbsent | src/lib/blog.ts:115 | without an occurrence of the pattern, the global replace changes nothing |
| MathRewrite.ReplaceAllPresent | src/lib/blog.ts:115 | an occurrence of the pattern changes the text |
| MathRewrite.ReplaceDemoChangesIff | src/lib/blog.ts:115 | the `<BlogDemo />` rewrite changes the HTML exactly when the placeholder occurs |
| Reading.Split | src/lib/blog.ts:118 | `split(/\s+/)` returns at least one piece |
| Reading.SplitPieces | src/lib/blog.ts:118 | no piece holds white space, only the first and last can be empty, and the pieces are the input without its white space |
| Reading.RunCount | src/lib/blog.ts:118 | the number of maximal white-space runs, never more than the length of the text |
| Reading.SplitCount | src/lib/blog.ts:118 | the number of pieces is one more than the number of white-space runs |
| Reading.Minutes | src/lib/blog.ts:119 | the least number of minutes with 200 words a minute that covers the words (`Math.ceil(w / 200)`) |
| Reading.ReadingTime | src/lib/blog.ts:118-119 | the reading time is at least 1 and is the ceiling of the piece count over 200 |
| Lex.LexTotal | src/lib/blog.ts:170 | the default string order relates any two strings |
| Lex.LexAntisymmetric | src/lib/blog.ts:170 | strings ordered both ways are equal |
| Lex.LexTransitive | src/lib/blog.ts:170 | the default string order is transitive |
| Lex.Insert | src/lib/blog.ts:170 | insertion adds exactly the one element |
| Lex.Sort | src/lib/blog.ts:170 | the sort permutes its input |
| Lex.SortSorted | src/lib/blog.ts:170 | the sort's result is ordered |
| Lex.SortDistinct | src/lib/blog.ts:170 | sorting distinct strings yields a strictly increasing sequence of the same strings |
| Posts.StripMd | src/lib/blog.ts:68 | the slug with `.md` appended is the file name |
| Posts.Lookup | src/lib/blog.ts:85-89 | the entry found has the path's name, and there is none exactly when no entry has it |
| Posts.MakePost | src/lib/blog.ts:105-131 | the post has the requested slug; title, excerpt, author, date and citations from the front matter; the front-matter tags, or none when they are missing; `toc` the table of contents of the body, all items well formed; a reading time of at least 1 equal to the estimate for the body; and the HTML rewritten by `PostHtml` with that table of contents |
| Posts.PostHtml | src/lib/blog.ts:108-115 | the HTML of a post: heading ids first, then display math, inline math, and last the demo placeholder |
| Posts.PostBySlug | src/lib/blog.ts:83-137 | a post exists exactly when `slug.md` exists and reading and rendering it succeeded; it carries that slug |
| Posts.GetPostBySlug | src/lib/blog.ts:83-137 | running the extraction loop and the id loop gives exactly `PostBySlug` |
| Posts.EntryPost | src/lib/blog.ts:64-70 | an entry yields a post exactly when its name ends in `.md` and the post of the name without `.md` is not null, and then that post |
| Posts.Collect | src/lib/blog.ts:62-75 | at most one post per listed entry; a single entry gives exactly its own post, or none |
| Posts.CollectAppend | src/lib/blog.ts:62-75 | collecting a listing split in two gives the posts of the first part followed by those of the second, so the posts come in listing order |
| Posts.CollectFromMdEntries | src/lib/blog.ts:62-75 | every collected post is the post of an `.md` entry whose name is its slug plus `.md` |
| Posts.CollectAllMdEntries | src/lib/blog.ts:62-75 | every `.md` entry whose post is not null is collected |
| Posts.InsertByDate | src/lib/blog.ts:76 | insertion adds exactly the one post |
| Posts.SortByDate | src/lib/blog.ts:76 | the date sort permutes its input |
| Posts.InsertByDateNewestFirst | src/lib/blog.ts:76 | inserting into a newest-first list keeps it newest first |
| Posts.SortByDateNewestFirst | src/lib/blog.ts:76 | the date sort orders by date, newest first |
| Posts.InsertByDateStable | src/lib/blog.ts:76 | an inserted post goes in front of the posts of its own date |
| Posts.SortByDateStable | src/lib/blog.ts:76 | posts of equal date keep their listing order (the sort is stable) |
| Posts.AllPosts | src/lib/blog.ts:56-81 | `getAllPosts`: the collected posts sorted by date; properties in `AllPostsSpec` |
| Posts.AllPostsSpec | src/lib/blog.ts:56-81 | `getAllPosts` is newest first, a permutation of the collected posts, and keeps listing order among equal dates |
| Posts.AllPostsMembers | src/lib/blog.ts:62-75 | a post is listed exactly when it is the post of some `.md` entry |
| Posts.WithTagMembers | src/lib/blog.ts:141 | the filter keeps exactly the posts whose tags include the tag |
| Posts.WithTagAppend | src/lib/blog.ts:141 | the filter distributes over concatenation |
| Posts.WithTagSubsequence | src/lib/blog.ts:141 | the filtered list is a subsequence of the input |
| Posts.WithTagNewestFirst | src/lib/blog.ts:141 | filtering a newest-first list keeps it newest first |
| Posts.WithTag | src/lib/blog.ts:141 | the filter keeps at most the input; exactly which posts is stated by `WithTagMembers` |
| Posts.PostsByTagSpec | src/lib/blog.ts:139-142 | `getPostsByTag` is newest first and holds exactly the listed posts carrying the tag |
| Posts.PostsByTag | src/lib/blog.ts:139-142 | `getPostsByTag`: the tag filter over `getAllPosts`; properties in `PostsByTagSpec` |
| Posts.EntryTags | src/lib/blog.ts:153-164 | the tags an entry contributes: those of an `.md` file whose front matter parsed and holds a tag array, otherwise none |
| Posts.TagUnion | src/lib/blog.ts:151-168 | the union of the tags the entries contribute, one file after the other |
| Posts.AllTags | src/lib/blog.ts:144-175 | the Set-then-sort loop returns a strictly increasing list whose members are exactly `TagUnion` of the listing |
| Carousel.JsRem | src/app/components/BlogCarousel.tsx:22 | JavaScript `%`: the remainder of the truncated quotient, with the sign of the dividend |
| Carousel.TruncDiv | src/app/components/BlogCarousel.tsx:22 | the quotient truncated toward zero: the largest multiple of `n` not past `a` on the side of zero |
| Carousel.JsSlice | src/app/components/BlogCarousel.tsx:68 | `slice(start, end)` is the run of the array between the two positions made absolute (negative ones counted from the end, both clamped); inside the bounds it is the subsequence, two negative positions take it from the end, and `slice(-k, 0)` is empty |
| Carousel.RelativeIndex | src/app/components/BlogCarousel.tsx:68 | a `slice` position made absolute: unchanged inside the array, counted from the end when negative, clamped to `0..len` |
| Carousel.ProgressBounds | src/app/components/BlogCarousel.tsx:34 | progress stays in `[0, 100)` while the timer runs |
| Carousel.ProgressOf | src/app/components/BlogCarousel.tsx:34 | the progress bar width in percent, `elapsed / 15000 * 100`; bounds in `ProgressBounds` |
| Carousel.Strip | src/app/components/BlogCarousel.tsx:94-95 | the strip has `3n` slots and slot `k` shows post `k % n` |
| Carousel.StripIsThreeCopies | src/app/components/BlogCarousel.tsx:94-95 | the strip is the post list three times over |
| Carousel.BlogCarousel.constructor | src/app/components/BlogCarousel.tsx:12-14 | index 0, autoplay on, progress 0 |
| Carousel.BlogCarousel.NextSlide | src/app/components/BlogCarousel.tsx:47-51 | index + 1, autoplay off, progress 0 |
| Carousel.BlogCarousel.PrevSlide | src/app/components/BlogCarousel.tsx:53-57 | index − 1 (possibly negative), autoplay off, progress 0 |
| Carousel.BlogCarousel.GoToSlide | src/app/components/BlogCarousel.tsx:59-63 | index set to the dot's index, autoplay off, progress 0 |
| Carousel.BlogCarousel.Tick | src/app/components/BlogCarousel.tsx:25-45 | nothing happens unless autoplay is on with more than one post; otherwise 100 ms more and progress `elapsed/15000·100`, and at 15 s the index advances by one and elapsed and progress return to 0 |
| Carousel.BlogCarousel.CurrentSlideIndex | src/app/components/BlogCarousel.tsx:20-22 | the slide index is the JavaScript remainder of the index: strictly between `−n` and `n`, never positive for a negative index, and the ordinary remainder for a non-negative one |
| Carousel.BlogCarousel.CurrentSlidePosts | src/app/components/BlogCarousel.tsx:66-69 | the slide is empty exactly when the slide index is −1; otherwise it holds the one post at the wrapped index (for a slide index of −2 or less, `slice` counts from the end) |
| Carousel.BlogCarousel.Transform | src/app/components/BlogCarousel.tsx:91 | the style is exactly `translateX(-` followed by the decimal text of the slide index times 50 and `%)`; it holds `--` exactly when the slide index is negative |
| Strings.NatToString | src/app/components/BlogCarousel.tsx:91 | a natural number prints as one or more decimal digits with no leading zero |
| Strings.NatToStringValue | src/app/components/BlogCarousel.tsx:91 | the printed digits, read from left to right, denote the number |
| Strings.IntToString | src/app/components/BlogCarousel.tsx:91 | an integer prints with a leading `-` exactly when it is negative, and no zero follows the sign |
| Strings.IntToStringValue | src/app/components/BlogCarousel.tsx:91 | after the sign, the printed digits denote the magnitude of the integer |
| Carousel.BlogCarousel.View | src/app/components/BlogCarousel.tsx:16-182 | nothing renders without posts; arrows exactly when there is more than one post; the strip with its transform; the dots, or none for a single post |
| Carousel.Dots | src/app/components/BlogCarousel.tsx:181-182 | one flag per post, and dot `i` is active exactly when the JavaScript remainder of the index is `i` |
| Carousel.SomeDotIff | src/app/components/BlogCarousel.tsx:181-182 | some dot is active exactly when the JavaScript remainder is not negative |
| Carousel.PrevFromFirstSlide | src/app/components/BlogCarousel.tsx:53-91 | after `prevSlide` from the first slide, no dot is active, the slide's post list is empty and the transform is `translateX(--50%)` |
| Carousel.TwoBackFromFirstSlide | src/app/components/BlogCarousel.tsx:66-69 | two steps back from the first slide (three or more posts) the slide index is −2 and the slide shows the second-to-last post |
| Carousel.WrappedSlideIndex | src/app/components/BlogCarousel.tsx:22 | the wrapped index lies in `0..n-1`, equal to the JavaScript remainder when that is non-negative and to it plus `n` otherwise |
| Carousel.WrappedOneDot | src/app/components/BlogCarousel.tsx:181-182 | with the wrapped index exactly one dot is active, and one step back from the first slide activates the last dot |
| TocPanel.Headings | src/app/components/TableOfContents.tsx:16 | the found headings are the items whose element is in the page, with their `offsetTop`; missing ones are skipped; a single item yields its element or nothing |
| TocPanel.HeadingsAppend | src/app/components/TableOfContents.tsx:16 | the lookup keeps item order: the headings of `a + b` are those of `a` followed by those of `b`, so with the single-item case the result is the in-order filter of the items |
| TocPanel.LastReachedSpec | src/app/components/TableOfContents.tsx:19-25 | none is reached exactly when every heading is below the position; otherwise the last reached heading in list order is chosen |
| TocPanel.LastReached | src/app/components/TableOfContents.tsx:19-25 | the id of the last heading in list order whose top is at or above the position, or none |
| TocPanel.ScrollTarget | src/app/components/TableOfContents.tsx:49-56 | the scroll goes to `offsetTop − 120`, and nowhere when the element is missing |
| TocPanel.Indent | src/app/components/TableOfContents.tsx:120 | the padding `(level − 1)·12 + 12` is `12·level` px |
| TocPanel.IndentIncreasing | src/app/components/TableOfContents.tsx:120 | deeper headings are indented strictly further |
| TocPanel.TableOfContents.constructor | src/app/components/TableOfContents.tsx:11-12 | no active id, visible |
| TocPanel.TableOfContents.HandleScroll | src/app/components/TableOfContents.tsx:15-41 | the reverse loop with `break` sets the active id to the last heading reached at `scrollY + 100`, or keeps it; with a footer, visibility is `footerTop − (scrollY + innerHeight) > −450`, without one it is kept |
| TocPanel.TableOfContents.Rows | src/app/components/TableOfContents.tsx:58-121 | nothing renders without items; one row per item, showing that item's text at its level's indent, marked active exactly when its id is the active id |
| Nav.SectionHref | src/app/components/Navigation.tsx:38 | the URL is `/#` followed by the section id |
| Nav.SectionClick | src/app/components/Navigation.tsx:29-40 | off the home page it navigates to `/#id`; on it, it scrolls to the section, or does nothing when the section is missing |
| Nav.HomeClick | src/app/components/Navigation.tsx:42-53 | off the home page it navigates to `/`; on it, it scrolls to `hero`, or does nothing when that is missing |
| Nav.NavigateLeadsHome | src/app/components/Navigation.tsx:29-53 | every navigation leads to the home page, and from a path without `#` the section link is never the current path |
| Nav.Navigation.constructor | src/app/components/Navigation.tsx:8-9 | unscrolled and hidden on the first render |
| Nav.Navigation.Mount | src/app/components/Navigation.tsx:21 | before any scroll the bar is visible exactly off the home page |
| Nav.Navigation.HandleScroll | src/app/components/Navigation.tsx:13-18 | scrolled style exactly past 50 px; visible exactly off the home page or past 100 px |
| BlogIndex.EmptyMessage | src/app/blog/BlogPageClient.tsx:119 | the message quotes the selected tag, and is the generic one exactly when no tag is selected |
| BlogIndex.BlogPageClient.constructor | src/app/blog/BlogPageClient.tsx:16 | no tag selected initially |
| BlogIndex.BlogPageClient.SelectAll | src/app/blog/BlogPageClient.tsx:76 | "All Posts" clears the selected tag |
| BlogIndex.BlogPageClient.SelectTag | src/app/blog/BlogPageClient.tsx:93 | a tag button selects its tag |
| BlogIndex.BlogPageClient.FilteredPosts | src/app/blog/BlogPageClient.tsx:18-20 | all posts with no tag selected; otherwise exactly the posts carrying the tag; always a subsequence of the posts |
| BlogIndex.BlogPageClient.Message | src/app/blog/BlogPageClient.tsx:113-119 | a message is shown exactly when the filtered list is empty |
| BlogIndex.BlogPageClient.ShowsTagBar | src/app/blog/BlogPageClient.tsx:64 | the tag bar is shown exactly when the tag list is not empty |

The math rewrite promises less than "the inline pass never re-wraps a display span":

- `MathRewrite.MathOfDisplay` proves the promise when no `$` comes before the display span.
- `MathRewrite.InlineWrapsDisplayAfterLoneDollar` shows that a lone `$` on each side of a display span makes the inline pass wrap it.

The code does this, and the model follows the code.

## Left out

- Filesystem access in `blog.ts` (`existsSync`, `readdirSync`, `readFileSync`, `mkdirSync`) and the error logging. A directory is a sequence of entries, and a missing directory behaves like an empty one, as it does in all three collection functions. A failure to read or process a file is a `None` in the entry.
- `gray-matter` front-matter parsing and the `remark` rendering: their results are inputs (`Posts.Parsed`).
- `new Date(...)` parsing: a post's date is an integer key.
- TocExtract.ParseHeading: the heading pattern is matched line by line. A `\s+` that crosses a line break, which the regular expression allows, is not modelled.
- HeadingIds.AddId: the item text must occur inside the `<`-free inner text. The source's pattern `[^<]*text[^<]*` is built from the text unescaped, so an item text containing `<` can match HTML that spans a tag; the model never matches it.
- HeadingIds.OccursIgnoreCase: the item text is matched literally. The source splices it into a `RegExp` unescaped, so text with regular-expression metacharacters can match differently, or throw, in which case the whole post becomes `null`.
- Strings.ToLower and the `i` flag fold ASCII letters only. `toLowerCase` and case-insensitive matching of non-ASCII letters are not modelled.
- Lex.Sort: strings are compared character by character. The distinction between UTF-16 code units and code points is not modelled.
- Posts.EntryTags: a `tags` value that is present but not an array is not distinguished from a missing one.
- Posts.MakePost: front-matter `tags` is either an array or missing. In the source, `metadata.tags || []` keeps any truthy value, so a YAML string such as `tags: machine-learning` reaches the post as a string.
- Posts.WithTag: the filter tests membership in a tag array. On a post whose `tags` is a string, the source's `post.tags.includes(tag)` is a substring test, so `tags: machine-learning` matches the tag `learning`; the model cannot express that post.
- Carousel.ProgressOf: progress is an exact real. Floating-point rounding of `elapsed / duration * 100` is not modelled.
- The React lifecycle (effects, `setInterval`, event listeners, re-renders) is replaced by explicit method calls. The restart of the carousel timer whenever its index changes is captured only in that `Tick` resets `elapsed` when it advances. Manual navigation stops autoplay for good, so the timer never restarts on its own.
- The carousel's `currentSlidePosts` is computed, and modelled as `CurrentSlidePosts`, but the markup never uses it.
- Presentation: styles, hover handlers, date formatting, card markup.
- HeroAscii3D, BlogDemo, MathRenderer, GetInTouch, the page and API wiring, and the `@/types/blog` declarations are not part of this model.

## Findings

| source | as written | input that shows it | evidently intended | confidence | as-written member | corrected member |
|---|---|---|---|---|---|---|
| src/app/components/BlogCarousel.tsx:22 | The slide is `currentIndex % totalSlides` with JavaScript's truncating `%`. `prevSlide` lets `currentIndex` go negative. The dots (line 182) and the slice (lines 66-69) use the same remainder. | Two posts, first render, one click on the left arrow: `currentIndex` is −1, the remainder is −1, no dot is active, the current slide is empty and the transform is `translateX(--50%)` | The index wraps into `0..n-1`, so one step back from the first slide shows the last post and activates its dot | not executed | Carousel.PrevFromFirstSlide | Carousel.WrappedOneDot |
