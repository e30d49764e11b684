/**
  The blog index page: every post, or only those carrying the tag the visitor
  picked from the tag bar, with a message when the list comes out empty.
 */
module BlogIndex {
  import opened Wrappers
  import opened Posts

  const NoPostsYet: string := "No blog posts yet. Check back soon!"

  /** The message shown when no post is listed: it quotes the selected tag, if there is one. */
  function EmptyMessage(selectedTag: string): (m: string)
    ensures selectedTag != "" ==> |m| == |selectedTag| + 26 && m[25..|m| - 1] == selectedTag
    ensures selectedTag == "" <==> m == NoPostsYet
  {
    if selectedTag != "" then "No posts found with tag \"" + selectedTag + "\""
    else NoPostsYet
  }

  class BlogPageClient {
    const posts: seq<Post>
    const tags: seq<string>
    var selectedTag: string

    constructor (posts: seq<Post>, tags: seq<string>)
      ensures this.posts == posts && this.tags == tags && selectedTag == ""
    {
      this.posts := posts;
      this.tags := tags;
      selectedTag := "";
    }

    /** The "All Posts" button. */
    method SelectAll()
      modifies this
      ensures selectedTag == ""
    {
      selectedTag := "";
    }

    /** A tag button. */
    method SelectTag(tag: string)
      modifies this
      ensures selectedTag == tag
    {
      selectedTag := tag;
    }

    /** `filteredPosts`: all posts while no tag is selected, otherwise exactly the posts that carry
        the selected tag, in their original order. */
    function FilteredPosts(): (r: seq<Post>)
      reads this
      ensures selectedTag == "" ==> r == posts
      ensures selectedTag != "" ==> forall p :: p in r <==> p in posts && selectedTag in p.tags
      ensures IsSubsequence(r, posts)
    {
      if selectedTag != "" then
        WithTagMembers(posts, selectedTag);
        WithTagSubsequence(posts, selectedTag);
        WithTag(posts, selectedTag)
      else
        SubsequenceOfSelf(posts);
        posts
    }

    /** The message replacing the post grid, if the filtered list is empty. */
    function Message(): (m: Option<string>)
      reads this
      ensures m.Some? <==> FilteredPosts() == []
      ensures m.Some? ==> m.value == EmptyMessage(selectedTag)
    {
      if FilteredPosts() == [] then Some(EmptyMessage(selectedTag)) else None
    }

    /** The tag bar is shown only when there are tags. */
    predicate ShowsTagBar()
      reads this
    {
      |tags| > 0
    }
  }

  /** Every sequence is a subsequence of itself. */
  lemma {:induction false} SubsequenceOfSelf(s: seq<Post>)
    ensures IsSubsequence(s, s)
    decreases |s|
  {
    if s != [] {
      SubsequenceOfSelf(s[1..]);
    }
  }
}
