/**
  The post collection of the blog: one post per markdown file of the blog
  directory, looked up by slug, listed newest first, filtered by tag, and the
  sorted union of all tags. The directory listing, the front-matter parser
  and the markdown renderer are inputs: a directory is the sequence of its
  entries, and an entry carries what reading and parsing its file produced.
 */
module Posts {
  import opened Wrappers
  import opened TocExtract
  import opened HeadingIds
  import opened MathRewrite
  import opened Reading
  import Lex

  /** The front matter of a post. `tags` is `None` when the front matter has no tag array. */
  datatype Metadata = Metadata(
    title: string, excerpt: string, author: string, date: int,
    tags: Option<seq<string>>, citations: Option<seq<string>>)

  /** What the front-matter parser and the renderer made of a file: its metadata, its markdown
      body and, unless processing it failed, the HTML of the body. */
  datatype Parsed = Parsed(meta: Metadata, body: string, html: Option<string>)

  /** A directory entry: the file name and, unless reading or parsing the file failed, its parse. */
  datatype DirEntry = DirEntry(name: string, file: Option<Parsed>)

  datatype Post = Post(
    slug: string, title: string, excerpt: string, content: string, author: string, date: int,
    tags: seq<string>, readingTime: nat, citations: Option<seq<string>>, toc: seq<TocItem>)

  predicate IsMd(name: string) { |name| >= 3 && name[|name| - 3..] == ".md" }

  /** `fileName.replace(/\.md$/, '')` on a name ending in `.md`. */
  function StripMd(name: string): (slug: string)
    requires IsMd(name)
    ensures slug + ".md" == name
  {
    name[..|name| - 3]
  }

  /** The entry a path names: the first with that file name. */
  function Lookup(dir: seq<DirEntry>, name: string): (r: Option<DirEntry>)
    ensures r.Some? ==> r.value in dir && r.value.name == name
    ensures r.None? <==> forall e :: e in dir ==> e.name != name
  {
    if dir == [] then None
    else if dir[0].name == name then Some(dir[0])
    else Lookup(dir[1..], name)
  }

  /** The HTML of a post: heading ids, then display and inline math, then the demo placeholder. */
  function PostHtml(html: string, toc: seq<TocItem>): string {
    ReplaceDemo(RewriteMath(ApplyIds(html, toc)))
  }

  /** The post a parsed file becomes. A missing tag array becomes the empty list. */
  function MakePost(slug: string, p: Parsed, html: string): (post: Post)
    ensures post.slug == slug && post.date == p.meta.date
    ensures post.title == p.meta.title && post.excerpt == p.meta.excerpt
    ensures post.author == p.meta.author && post.citations == p.meta.citations
    ensures p.meta.tags.Some? ==> post.tags == p.meta.tags.value
    ensures p.meta.tags.None? ==> post.tags == []
    ensures post.toc == TocOf(p.body)
    ensures forall k :: 0 <= k < |post.toc| ==> WellFormedItem(post.toc[k])
    ensures post.readingTime == ReadingTime(p.body) && post.readingTime >= 1
    ensures post.content == PostHtml(html, post.toc)
  {
    var toc := TocOf(p.body);
    Post(slug, p.meta.title, p.meta.excerpt, PostHtml(html, toc), p.meta.author, p.meta.date,
         if p.meta.tags.Some? then p.meta.tags.value else [], ReadingTime(p.body),
         p.meta.citations, toc)
  }

  /** `getPostBySlug`: `None` when there is no file `slug.md` or processing it failed. */
  function PostBySlug(dir: seq<DirEntry>, slug: string): (r: Option<Post>)
    ensures r.Some? ==> r.value.slug == slug
    ensures r.Some? <==> exists e :: e in dir && e.name == slug + ".md"
                                     && e.file.Some? && e.file.value.html.Some?
                                     && Lookup(dir, slug + ".md") == Some(e)
  {
    match Lookup(dir, slug + ".md")
    case None => None
    case Some(e) =>
      match e.file
      case None => None
      case Some(p) =>
        match p.html
        case None => None
        case Some(h) => Some(MakePost(slug, p, h))
  }

  /** `getPostBySlug` as the source runs it: the contents are scanned by the table-of-contents
      loop and the heading ids are added one item at a time. */
  method GetPostBySlug(dir: seq<DirEntry>, slug: string) returns (post: Option<Post>)
    ensures post == PostBySlug(dir, slug)
  {
    var entry := Lookup(dir, slug + ".md");
    if entry.None? || entry.value.file.None? || entry.value.file.value.html.None? {
      return None;
    }
    var p := entry.value.file.value;
    var tocItems := ExtractToc(p.body);
    var htmlContent := AddHeadingIds(p.html.value, tocItems);
    htmlContent := RewriteMath(htmlContent);
    htmlContent := ReplaceDemo(htmlContent);
    var tags := if p.meta.tags.Some? then p.meta.tags.value else [];
    post := Some(Post(slug, p.meta.title, p.meta.excerpt, htmlContent, p.meta.author,
                      p.meta.date, tags, ReadingTime(p.body), p.meta.citations, tocItems));
  }

  /** What one listed entry contributes to `getAllPosts`: the post of an `.md` file, unless it is
      `null`. */
  function EntryPost(dir: seq<DirEntry>, e: DirEntry): (r: seq<Post>)
    ensures |r| <= 1
    ensures r != [] <==> IsMd(e.name) && PostBySlug(dir, StripMd(e.name)).Some?
    ensures r != [] ==> r[0] == PostBySlug(dir, StripMd(e.name)).value
  {
    if IsMd(e.name) then
      match PostBySlug(dir, StripMd(e.name))
      case Some(p) => [p]
      case None => []
    else []
  }

  /** The posts of the `.md` entries of `entries`, in listing order, each looked up by its slug in
      `dir`; entries whose post is `null` are dropped. */
  function Collect(dir: seq<DirEntry>, entries: seq<DirEntry>): (r: seq<Post>)
    ensures |r| <= |entries|
    ensures |entries| == 1 ==> r == EntryPost(dir, entries[0])
  {
    if entries == [] then []
    else
      var e := entries[0];
      var rest := Collect(dir, entries[1..]);
      if IsMd(e.name) then
        match PostBySlug(dir, StripMd(e.name))
        case Some(p) => [p] + rest
        case None => rest
      else rest
  }

  /** Collection keeps listing order: the posts of `a + b` are those of `a`, then those of `b`.
      With the single-entry case this makes `Collect` the in-order concatenation of the entries'
      contributions. */
  lemma {:induction false} CollectAppend(dir: seq<DirEntry>, a: seq<DirEntry>, b: seq<DirEntry>)
    ensures Collect(dir, a + b) == Collect(dir, a) + Collect(dir, b)
    decreases |a|
  {
    if a == [] {
      assert a + b == b;
    } else {
      assert (a + b)[0] == a[0] && (a + b)[1..] == a[1..] + b;
      CollectAppend(dir, a[1..], b);
    }
  }

  /** Every collected post is the post of an `.md` entry, under the slug its name gives. */
  lemma {:induction false} CollectFromMdEntries(dir: seq<DirEntry>, entries: seq<DirEntry>, p: Post)
    requires p in Collect(dir, entries)
    ensures exists e :: e in entries && IsMd(e.name) && p.slug + ".md" == e.name
                        && PostBySlug(dir, p.slug) == Some(p)
    decreases |entries|
  {
    var e := entries[0];
    var rest := Collect(dir, entries[1..]);
    if IsMd(e.name) && PostBySlug(dir, StripMd(e.name)) == Some(p) {
      assert e in entries;
    } else {
      assert p in rest;
      CollectFromMdEntries(dir, entries[1..], p);
      var e' :| e' in entries[1..] && IsMd(e'.name) && p.slug + ".md" == e'.name
                && PostBySlug(dir, p.slug) == Some(p);
      assert e' in entries;
    }
  }

  /** Every `.md` entry whose post is not `null` is collected. */
  lemma {:induction false} CollectAllMdEntries(dir: seq<DirEntry>, entries: seq<DirEntry>, e: DirEntry)
    requires e in entries && IsMd(e.name) && PostBySlug(dir, StripMd(e.name)).Some?
    ensures PostBySlug(dir, StripMd(e.name)).value in Collect(dir, entries)
    decreases |entries|
  {
    if entries[0] != e {
      CollectAllMdEntries(dir, entries[1..], e);
    }
  }

  predicate NewestFirst(posts: seq<Post>) {
    forall i, j :: 0 <= i < j < |posts| ==> posts[i].date >= posts[j].date
  }

  /** `x` placed before the first post that is not newer. */
  function InsertByDate(x: Post, s: seq<Post>): (r: seq<Post>)
    ensures multiset(r) == multiset(s) + multiset{x}
  {
    if s == [] || x.date >= s[0].date then [x] + s
    else
      assert s == [s[0]] + s[1..];
      [s[0]] + InsertByDate(x, s[1..])
  }

  /** `sort((a, b) => b.date - a.date)`: a stable sort, newest first. */
  function SortByDate(s: seq<Post>): (r: seq<Post>)
    ensures multiset(r) == multiset(s)
  {
    if s == [] then []
    else
      assert s == [s[0]] + s[1..];
      InsertByDate(s[0], SortByDate(s[1..]))
  }

  /** `getAllPosts`. A missing directory behaves like an empty one. */
  function AllPosts(dir: seq<DirEntry>): seq<Post> {
    SortByDate(Collect(dir, dir))
  }

  lemma {:induction false} InsertByDateNewestFirst(x: Post, s: seq<Post>)
    requires NewestFirst(s)
    ensures NewestFirst(InsertByDate(x, s))
    decreases |s|
  {
    if s != [] && x.date < s[0].date {
      InsertByDateNewestFirst(x, s[1..]);
      var r := InsertByDate(x, s[1..]);
      InsertByDateElements(x, s[1..]);
      forall k | 0 <= k < |r| ensures s[0].date >= r[k].date {
        assert r[k] in r;
      }
      assert InsertByDate(x, s) == [s[0]] + r;
    }
  }

  /** An inserted list holds the inserted post and the posts of the list, nothing else. */
  lemma InsertByDateElements(x: Post, s: seq<Post>)
    ensures forall y :: y in InsertByDate(x, s) ==> y == x || y in s
  {
    var r := InsertByDate(x, s);
    forall y | y in r ensures y == x || y in s {
      assert y in multiset(r);
    }
  }

  lemma {:induction false} SortByDateNewestFirst(s: seq<Post>)
    ensures NewestFirst(SortByDate(s))
    decreases |s|
  {
    if s != [] {
      SortByDateNewestFirst(s[1..]);
      InsertByDateNewestFirst(s[0], SortByDate(s[1..]));
    }
  }

  /** The posts of `s` dated `d`, in order. */
  function OnDate(s: seq<Post>, d: int): seq<Post> {
    if s == [] then [] else (if s[0].date == d then [s[0]] else []) + OnDate(s[1..], d)
  }

  lemma {:induction false} InsertByDateStable(x: Post, s: seq<Post>, d: int)
    ensures OnDate(InsertByDate(x, s), d) == (if x.date == d then [x] else []) + OnDate(s, d)
    decreases |s|
  {
    if s != [] && x.date < s[0].date {
      var ins := InsertByDate(x, s[1..]);
      InsertByDateStable(x, s[1..], d);
      assert InsertByDate(x, s) == [s[0]] + ins;
      OnDateCons(s[0], ins, d);
      OnDateCons(s[0], s[1..], d);
      assert [s[0]] + s[1..] == s;
      var rest := OnDate(s[1..], d);
      if s[0].date == d {
        assert [s[0]] + ([] + rest) == [] + ([s[0]] + rest);
      } else if x.date == d {
        assert [] + ([x] + rest) == [x] + ([] + rest);
      }
    } else {
      OnDateCons(x, s, d);
    }
  }

  lemma OnDateCons(p: Post, t: seq<Post>, d: int)
    ensures OnDate([p] + t, d) == (if p.date == d then [p] else []) + OnDate(t, d)
  {
    assert ([p] + t)[1..] == t;
  }

  /** Posts with the same date keep their relative order: the sort is stable. */
  lemma {:induction false} SortByDateStable(s: seq<Post>, d: int)
    ensures OnDate(SortByDate(s), d) == OnDate(s, d)
    decreases |s|
  {
    if s != [] {
      SortByDateStable(s[1..], d);
      InsertByDateStable(s[0], SortByDate(s[1..]), d);
    }
  }

  /** `getAllPosts` lists newest first, exactly the posts of the `.md` files that processed
      successfully (each once per file), with same-date posts in listing order. */
  lemma AllPostsSpec(dir: seq<DirEntry>)
    ensures NewestFirst(AllPosts(dir))
    ensures multiset(AllPosts(dir)) == multiset(Collect(dir, dir))
    ensures forall d :: OnDate(AllPosts(dir), d) == OnDate(Collect(dir, dir), d)
  {
    SortByDateNewestFirst(Collect(dir, dir));
    forall d ensures OnDate(AllPosts(dir), d) == OnDate(Collect(dir, dir), d) {
      SortByDateStable(Collect(dir, dir), d);
    }
  }

  /** A post is listed exactly when it is the post of some `.md` entry of the directory. */
  lemma AllPostsMembers(dir: seq<DirEntry>, p: Post)
    ensures p in AllPosts(dir) <==>
            exists e :: e in dir && IsMd(e.name) && PostBySlug(dir, StripMd(e.name)) == Some(p)
  {
    var c := Collect(dir, dir);
    assert p in AllPosts(dir) <==> p in c by {
      assert p in AllPosts(dir) <==> p in multiset(AllPosts(dir));
      assert p in c <==> p in multiset(c);
    }
    if p in c {
      CollectFromMdEntries(dir, dir, p);
      var e :| e in dir && IsMd(e.name) && p.slug + ".md" == e.name && PostBySlug(dir, p.slug) == Some(p);
      assert StripMd(e.name) == p.slug;
    }
    if exists e :: e in dir && IsMd(e.name) && PostBySlug(dir, StripMd(e.name)) == Some(p) {
      var e :| e in dir && IsMd(e.name) && PostBySlug(dir, StripMd(e.name)) == Some(p);
      CollectAllMdEntries(dir, dir, e);
    }
  }

  /** `posts.filter(post => post.tags.includes(tag))`. */
  function WithTag(posts: seq<Post>, tag: string): (r: seq<Post>)
    ensures |r| <= |posts|
  {
    if posts == [] then []
    else (if tag in posts[0].tags then [posts[0]] else []) + WithTag(posts[1..], tag)
  }

  /** The filter keeps exactly the posts carrying the tag. */
  lemma {:induction false} WithTagMembers(posts: seq<Post>, tag: string)
    ensures forall p :: p in WithTag(posts, tag) <==> p in posts && tag in p.tags
    decreases |posts|
  {
    if posts != [] {
      WithTagMembers(posts[1..], tag);
      assert forall p :: p in posts <==> p == posts[0] || p in posts[1..];
    }
  }

  /** Filtering keeps the order: the tagged posts of `a + b` are those of `a`, then those of `b`. */
  lemma {:induction false} WithTagAppend(a: seq<Post>, b: seq<Post>, tag: string)
    ensures WithTag(a + b, tag) == WithTag(a, tag) + WithTag(b, tag)
    decreases |a|
  {
    if a == [] {
      assert a + b == b;
    } else {
      var head := if tag in a[0].tags then [a[0]] else [];
      assert (a + b)[0] == a[0] && (a + b)[1..] == a[1..] + b;
      assert WithTag(a + b, tag) == head + WithTag(a[1..] + b, tag);
      WithTagAppend(a[1..], b, tag);
      assert WithTag(a, tag) == head + WithTag(a[1..], tag);
    }
  }

  /** `a` is `b` with some elements left out, the rest kept in order. */
  predicate IsSubsequence(a: seq<Post>, b: seq<Post>)
    decreases |b|
  {
    if a == [] then true
    else if b == [] then false
    else if a[0] == b[0] then IsSubsequence(a[1..], b[1..])
    else IsSubsequence(a, b[1..])
  }

  /** The tagged posts are a subsequence of the posts: filtering reorders nothing. */
  lemma {:induction false} WithTagSubsequence(posts: seq<Post>, tag: string)
    ensures IsSubsequence(WithTag(posts, tag), posts)
    decreases |posts|
  {
    if posts != [] {
      WithTagSubsequence(posts[1..], tag);
      var r := WithTag(posts, tag);
      if tag in posts[0].tags {
        assert r == [posts[0]] + WithTag(posts[1..], tag);
        assert r[1..] == WithTag(posts[1..], tag);
      } else {
        assert r == WithTag(posts[1..], tag);
        if r != [] {
          WithTagMembers(posts[1..], tag);
          assert r[0] in WithTag(posts[1..], tag);
          assert r[0] != posts[0];
        }
      }
    }
  }

  /** Filtering a newest-first list keeps it newest first. */
  lemma {:induction false} WithTagNewestFirst(posts: seq<Post>, tag: string)
    requires NewestFirst(posts)
    ensures NewestFirst(WithTag(posts, tag))
    decreases |posts|
  {
    if posts != [] {
      WithTagNewestFirst(posts[1..], tag);
      WithTagMembers(posts[1..], tag);
      var r := WithTag(posts[1..], tag);
      assert forall k :: 0 <= k < |r| ==> r[k] in posts[1..];
    }
  }

  /** `getPostsByTag`. */
  function PostsByTag(dir: seq<DirEntry>, tag: string): seq<Post> {
    WithTag(AllPosts(dir), tag)
  }

  /** `getPostsByTag` lists, newest first, exactly the listed posts that carry the tag. */
  lemma PostsByTagSpec(dir: seq<DirEntry>, tag: string)
    ensures NewestFirst(PostsByTag(dir, tag))
    ensures forall p :: p in PostsByTag(dir, tag) <==> p in AllPosts(dir) && tag in p.tags
  {
    AllPostsSpec(dir);
    WithTagNewestFirst(AllPosts(dir), tag);
    WithTagMembers(AllPosts(dir), tag);
  }

  /** The tags `getAllTags` reads from an entry: those of an `.md` file whose front matter parsed
      and holds a tag array. */
  function EntryTags(e: DirEntry): seq<string> {
    if IsMd(e.name) && e.file.Some? && e.file.value.meta.tags.Some? then e.file.value.meta.tags.value
    else []
  }

  /** The union of the tags of the entries. */
  function TagUnion(entries: seq<DirEntry>): set<string> {
    if entries == [] then {}
    else
      var last := EntryTags(entries[|entries| - 1]);
      TagUnion(entries[..|entries| - 1]) + set i | 0 <= i < |last| :: last[i]
  }

  /** `getAllTags`: the tags go into an insertion-ordered set, one file after the other, and the
      set's elements are sorted. The result is strictly increasing and holds every tag of every
      `.md` file, and nothing else. */
  method AllTags(dir: seq<DirEntry>) returns (tags: seq<string>)
    ensures Lex.StrictlySorted(tags)
    ensures forall t :: t in tags <==> t in TagUnion(dir)
  {
    var allTags: seq<string> := [];
    for i := 0 to |dir|
      invariant forall a, b :: 0 <= a < b < |allTags| ==> allTags[a] != allTags[b]
      invariant forall t :: t in allTags <==> t in TagUnion(dir[..i])
    {
      assert dir[..i + 1][..i] == dir[..i];
      var fileTags := EntryTags(dir[i]);
      for j := 0 to |fileTags|
        invariant forall a, b :: 0 <= a < b < |allTags| ==> allTags[a] != allTags[b]
        invariant forall t :: t in allTags <==> t in TagUnion(dir[..i]) || t in fileTags[..j]
      {
        if fileTags[j] !in allTags {
          allTags := allTags + [fileTags[j]];
        }
        assert fileTags[..j + 1] == fileTags[..j] + [fileTags[j]];
      }
      assert fileTags[..|fileTags|] == fileTags;
    }
    assert dir[..|dir|] == dir;
    Lex.SortDistinct(allTags);
    tags := Lex.Sort(allTags);
  }
}
