/** Following a server's pages of posts until the last one, under a page limit and against any
    behaviour of the server. */
module Pagination {
  import opened Framing
  import opened Content

  const MAX_POSTS_PAGES := 10_001

  type Uuid = Bytes

  datatype PostSummary = PostSummary(id: Uuid, details: Bytes)
  datatype Snapshot = Snapshot(contentDigest: Bytes, siteDigest: Bytes, siteVersion: int)
  datatype Page = Page(snapshot: Snapshot, posts: seq<PostSummary>, next: Option<Uuid>)

  type Request = Option<Uuid>

  /** The answer to the last request of a history, or None for a failed one.  It may depend on
      everything that was asked before. */
  type Server = seq<Request> -> Option<Page>

  datatype PageError = FetchFailed | PageLimit | CursorRepeated | SnapshotChanged | PostRepeated

  datatype Listing = Listed(snapshot: Snapshot, posts: seq<PostSummary>) | Failed(error: PageError)

  // Walks along the chain of cursors.

  /** The requests behind `n + 1` fetches that follow the cursors of the first `n` pages. */
  function Requests(pages: seq<Page>, n: nat): (requests: seq<Request>)
    requires n <= |pages|
    ensures |requests| == n + 1
  {
    if n == 0 then [None] else Requests(pages, n - 1) + [pages[n - 1].next]
  }

  ghost predicate Answered(server: Server, pages: seq<Page>, i: nat)
    requires i < |pages|
  {
    server(Requests(pages, i)) == Some(pages[i])
  }

  /** The server answers with these pages when the cursors are followed. */
  ghost predicate IsWalk(server: Server, pages: seq<Page>) {
    && (forall i | 0 <= i < |pages| :: Answered(server, pages, i))
    && (forall i | 0 <= i < |pages| - 1 :: pages[i].next.Some?)
  }

  function PostsOf(pages: seq<Page>): seq<PostSummary> {
    if pages == [] then [] else PostsOf(pages[..|pages| - 1]) + pages[|pages| - 1].posts
  }

  ghost predicate OneSnapshot(pages: seq<Page>) {
    forall i | 0 <= i < |pages| :: pages[i].snapshot == pages[0].snapshot
  }

  ghost predicate DistinctCursors(pages: seq<Page>) {
    forall i, j | 0 <= i < j < |pages| && pages[i].next.Some? && pages[j].next.Some? :: pages[i].next != pages[j].next
  }

  ghost predicate DistinctPosts(posts: seq<PostSummary>) {
    forall i, j | 0 <= i < j < |posts| :: posts[i].id != posts[j].id
  }

  /** A chain that ends in time, keeps its snapshot and repeats neither a cursor nor a post. */
  ghost predicate Complete(server: Server, pages: seq<Page>) {
    && 0 < |pages| <= MAX_POSTS_PAGES && IsWalk(server, pages) && pages[|pages| - 1].next.None?
    && OneSnapshot(pages) && DistinctCursors(pages) && DistinctPosts(PostsOf(pages))
  }

  lemma {:induction false} RequestsOfPrefix(pages: seq<Page>, more: seq<Page>, n: nat)
    requires n <= |pages| && pages <= more
    ensures Requests(pages, n) == Requests(more, n)
  {
    if n > 0 {
      RequestsOfPrefix(pages, more, n - 1);
    }
  }

  lemma {:induction false} WalkPrefix(server: Server, pages: seq<Page>, n: nat)
    requires IsWalk(server, pages) && n <= |pages|
    ensures IsWalk(server, pages[..n])
  {
    forall i | 0 <= i < n ensures Answered(server, pages[..n], i) {
      assert Answered(server, pages, i);
      RequestsOfPrefix(pages[..n], pages, i);
    }
  }

  /** A server gives one walk of each length. */
  lemma {:induction false} WalkIsUnique(server: Server, pages: seq<Page>, more: seq<Page>)
    requires IsWalk(server, pages) && IsWalk(server, more) && |pages| <= |more|
    ensures pages == more[..|pages|]
    decreases |pages|
  {
    if pages != [] {
      var n := |pages| - 1;
      WalkPrefix(server, pages, n);
      WalkIsUnique(server, pages[..n], more);
      RequestsOfPrefix(pages[..n], pages, n);
      RequestsOfPrefix(pages[..n], more, n);
      assert Answered(server, pages, n) && Answered(server, more, n);
      assert pages == pages[..n] + [pages[n]] && more[..n + 1] == more[..n] + [more[n]];
    }
  }

  lemma {:induction false} ShorterWalksGoOn(server: Server, pages: seq<Page>, more: seq<Page>)
    requires IsWalk(server, pages) && IsWalk(server, more) && 0 < |pages| < |more|
    ensures pages[|pages| - 1].next.Some? && server(Requests(pages, |pages|)).Some?
  {
    WalkIsUnique(server, pages, more);
    RequestsOfPrefix(pages, more, |pages|);
    assert Answered(server, more, |pages|) && pages[|pages| - 1] == more[|pages| - 1];
  }

  lemma {:induction false} PostsOfPrefix(pages: seq<Page>, n: nat)
    requires n <= |pages|
    ensures PostsOf(pages[..n]) <= PostsOf(pages)
    decreases |pages|
  {
    if n < |pages| {
      PostsOfPrefix(pages[..|pages| - 1], n);
      assert pages[..|pages| - 1][..n] == pages[..n];
    } else {
      assert pages[..n] == pages;
    }
  }

  /** Nothing has gone wrong along the pages so far. */
  ghost predicate Promising(server: Server, pages: seq<Page>) {
    && OneSnapshot(pages) && DistinctPosts(PostsOf(pages)) && DistinctCursors(pages)
    && (pages != [] && pages[|pages| - 1].next.Some? ==>
          |pages| < MAX_POSTS_PAGES && server(Requests(pages, |pages|)).Some?)
  }

  /** Every walk of the server is promising if its chain can be completed at all. */
  lemma {:induction false} CompletionsArePromising(server: Server, pages: seq<Page>, all: seq<Page>)
    requires IsWalk(server, pages) && pages != [] && Complete(server, all)
    ensures Promising(server, pages)
  {
    if |all| < |pages| {
      ShorterWalksGoOn(server, all, pages);
    } else {
      WalkIsUnique(server, pages, all);
      PostsOfPrefix(all, |pages|);
      if |pages| < |all| {
        ShorterWalksGoOn(server, pages, all);
      } else {
        assert pages == all;
      }
    }
  }

  lemma {:induction false} Abandon(server: Server, pages: seq<Page>)
    requires IsWalk(server, pages) && pages != [] && !Promising(server, pages)
    ensures !exists all :: Complete(server, all)
  {
    forall all ensures !Complete(server, all) {
      if Complete(server, all) {
        CompletionsArePromising(server, pages, all);
      }
    }
  }

  /** Nothing can be listed once the first fetch has failed. */
  lemma {:induction false} NoFirstPage(server: Server)
    requires server([None]).None?
    ensures !exists all :: Complete(server, all)
  {
    forall all: seq<Page> ensures !Complete(server, all) {
      assert all != [] ==> !Answered(server, all, 0);
    }
  }

  // The client's loop.

  /** `seen` holds exactly the ids of the posts. */
  ghost predicate Knows(seen: set<Uuid>, posts: seq<PostSummary>) {
    forall id :: id in seen <==> exists i :: 0 <= i < |posts| && posts[i].id == id
  }

  lemma {:induction false} KnowsStep(seen: set<Uuid>, posts: seq<PostSummary>, post: PostSummary)
    requires Knows(seen, posts)
    ensures Knows(seen + {post.id}, posts + [post])
    ensures DistinctPosts(posts) ==> (DistinctPosts(posts + [post]) <==> post.id !in seen)
  {
    var more := posts + [post];
    forall id ensures id in seen + {post.id} <==> exists i :: 0 <= i < |more| && more[i].id == id {
      if id in seen {
        var i :| 0 <= i < |posts| && posts[i].id == id;
        assert more[i].id == id;
      }
      assert more[|posts|].id == post.id;
      if id !in seen && id != post.id {
        assert forall i | 0 <= i < |more| :: i < |posts| ==> more[i] == posts[i];
      }
    }
    if post.id in seen {
      var i :| 0 <= i < |posts| && posts[i].id == post.id;
      assert more[i].id == more[|posts|].id;
    }
  }

  /** Adds a page's posts one by one and stops at the first that is already there. */
  method AppendPostPage(posts: seq<PostSummary>, seen: set<Uuid>, page: seq<PostSummary>)
    returns (appended: bool, more: seq<PostSummary>, known: set<Uuid>)
    requires Knows(seen, posts) && DistinctPosts(posts)
    ensures appended <==> DistinctPosts(posts + page)
    ensures appended ==> more == posts + page && Knows(known, more)
  {
    more, known := posts, seen;
    for i := 0 to |page|
      invariant more == posts + page[..i] && DistinctPosts(more) && Knows(known, more)
    {
      KnowsStep(known, more, page[i]);
      assert posts + page[..i + 1] == more + [page[i]];
      if page[i].id in known {
        assert (posts + page)[..|posts| + i + 1] == posts + page[..i + 1];
        DistinctPrefix(posts + page, |posts| + i + 1);
        return false, more, known;
      }
      known := known + {page[i].id};
      more := more + [page[i]];
    }
    assert page[..|page|] == page;
    return true, more, known;
  }

  lemma {:induction false} DistinctPrefix(posts: seq<PostSummary>, n: nat)
    requires n <= |posts|
    ensures DistinctPosts(posts) ==> DistinctPosts(posts[..n])
  {
  }

  lemma {:induction false} WalkStep(server: Server, pages: seq<Page>, page: Page)
    requires IsWalk(server, pages) && (pages != [] ==> pages[|pages| - 1].next.Some?)
    requires server(Requests(pages, |pages|)) == Some(page)
    ensures IsWalk(server, pages + [page])
    ensures PostsOf(pages + [page]) == PostsOf(pages) + page.posts
    ensures Requests(pages + [page], |pages|) == Requests(pages, |pages|)
  {
    var more := pages + [page];
    forall i | 0 <= i < |more| ensures Answered(server, more, i) {
      assert i < |pages| ==> Answered(server, pages, i);
      RequestsOfPrefix(pages, more, i);
    }
    RequestsOfPrefix(pages, more, |pages|);
    assert more[..|pages|] == pages;
  }

  /** The first request has no cursor, every later one a cursor of its own. */
  ghost predicate CursorsFollowed(history: seq<Request>) {
    && history != [] && history[0] == None
    && forall i, j | 0 <= i < j < |history| :: history[i] != history[j]
  }

  lemma {:induction false} RequestsAreCursors(pages: seq<Page>, n: nat, k: nat)
    requires n <= |pages| && k <= n
    ensures Requests(pages, n)[k] == if k == 0 then None else pages[k - 1].next
  {
    if k < n {
      RequestsAreCursors(pages, n - 1, k);
    }
  }

  /** The cursors that have been followed, each of them once. */
  ghost predicate Followed(cursors: set<Uuid>, pages: seq<Page>) {
    && (forall c :: c in cursors <==> exists i :: 0 <= i < |pages| - 1 && pages[i].next == Some(c))
    && (forall i, j | 0 <= i < j < |pages| - 1 :: pages[i].next != pages[j].next)
  }

  /** A new cursor can be followed; a repeated one spoils the walk. */
  lemma {:induction false} NextCursor(cursors: set<Uuid>, pages: seq<Page>)
    requires Followed(cursors, pages) && pages != [] && pages[|pages| - 1].next.Some?
    requires CursorsFollowed(Requests(pages, |pages| - 1))
    ensures pages[|pages| - 1].next.value in cursors ==> !DistinctCursors(pages)
    ensures pages[|pages| - 1].next.value !in cursors ==> CursorsFollowed(Requests(pages, |pages|))
  {
    var n := |pages| - 1;
    var next := pages[n].next;
    if next.value in cursors {
      var i :| 0 <= i < n && pages[i].next == Some(next.value);
      assert pages[i].next == pages[n].next;
    } else {
      var history := Requests(pages, n);
      forall k | 0 <= k < |history| ensures history[k] != next {
        RequestsAreCursors(pages, n, k);
      }
      assert Requests(pages, |pages|) == history + [next];
    }
  }

  lemma {:induction false} FollowedStep(cursors: set<Uuid>, pages: seq<Page>, page: Page)
    requires Followed(cursors, pages) && pages != [] && pages[|pages| - 1].next.Some?
    requires pages[|pages| - 1].next.value !in cursors
    ensures Followed(cursors + {pages[|pages| - 1].next.value}, pages + [page])
  {
    var more, n := pages + [page], |pages| - 1;
    forall c
      ensures c in cursors + {pages[n].next.value} <==> exists i :: 0 <= i < |more| - 1 && more[i].next == Some(c)
    {
      if c in cursors {
        var i :| 0 <= i < n && pages[i].next == Some(c);
        assert more[i].next == Some(c);
      }
      assert more[n] == pages[n];
    }
    forall i, j | 0 <= i < j < |more| - 1 ensures more[i].next != more[j].next {
      assert more[i] == pages[i] && more[j] == pages[j];
      if j == n {
        assert pages[i].next != Some(pages[n].next.value);
      }
    }
  }

  /** Collects all posts.  It succeeds exactly when the chain of cursors is complete, and then lists
      the pages in fetch order; it asks for no cursor twice and fetches at most 10,001 pages. */
  method CollectPostPages(server: Server) returns (r: Listing, ghost asked: seq<Request>)
    ensures r.Listed? <==> exists pages :: Complete(server, pages)
    ensures r.Listed? ==> exists pages: seq<Page> ::
              Complete(server, pages) && r.posts == PostsOf(pages) && r.snapshot == pages[0].snapshot
    ensures |asked| <= MAX_POSTS_PAGES && CursorsFollowed(asked)
  {
    asked := [None];
    var first := server([None]);
    if first.None? {
      NoFirstPage(server);
      return Failed(FetchFailed), asked;
    }
    assert Requests([], 0) == [None];
    WalkStep(server, [], first.value);
    assert [] + [first.value] == [first.value];
    var appended, posts, seen := AppendPostPage([], {}, first.value.posts);
    assert [] + first.value.posts == first.value.posts;
    if !appended {
      Abandon(server, [first.value]);
      return Failed(PostRepeated), asked;
    }
    r, asked := FollowCursors(server, first.value, posts, seen);
  }

  /** The cursors and requests of a walk in progress. */
  ghost predicate OnTrack(server: Server, pages: seq<Page>, history: seq<Request>, cursors: set<Uuid>) {
    && 0 < |pages| <= MAX_POSTS_PAGES && IsWalk(server, pages) && OneSnapshot(pages)
    && history == Requests(pages, |pages| - 1) && Followed(cursors, pages) && CursorsFollowed(history)
  }

  lemma {:induction false} OnTrackStep(server: Server, pages: seq<Page>, history: seq<Request>, cursors: set<Uuid>,
                                       page: Page)
    requires OnTrack(server, pages, history, cursors) && |pages| < MAX_POSTS_PAGES
    requires pages[|pages| - 1].next.Some? && pages[|pages| - 1].next.value !in cursors
    requires server(history + [pages[|pages| - 1].next]) == Some(page)
    ensures IsWalk(server, pages + [page]) && PostsOf(pages + [page]) == PostsOf(pages) + page.posts
    ensures page.snapshot == pages[0].snapshot ==>
              OnTrack(server, pages + [page], history + [pages[|pages| - 1].next],
                      cursors + {pages[|pages| - 1].next.value})
    ensures page.snapshot != pages[0].snapshot ==> !OneSnapshot(pages + [page])
    ensures CursorsFollowed(history + [pages[|pages| - 1].next])
  {
    assert Requests(pages, |pages|) == history + [pages[|pages| - 1].next];
    NextCursor(cursors, pages);
    WalkStep(server, pages, page);
    FollowedStep(cursors, pages, page);
    var more := pages + [page];
    assert more[0] == pages[0] && more[|pages|] == page;
    assert forall i | 0 <= i < |pages| :: more[i] == pages[i];
  }

  /** The loop behind the first page. */
  method FollowCursors(server: Server, first: Page, firstPosts: seq<PostSummary>, firstSeen: set<Uuid>)
    returns (r: Listing, ghost asked: seq<Request>)
    requires IsWalk(server, [first]) && firstPosts == PostsOf([first]) && Knows(firstSeen, firstPosts)
             && DistinctPosts(firstPosts)
    ensures r.Listed? <==> exists pages :: Complete(server, pages)
    ensures r.Listed? ==> exists pages: seq<Page> ::
              Complete(server, pages) && r.posts == PostsOf(pages) && r.snapshot == pages[0].snapshot
    ensures |asked| <= MAX_POSTS_PAGES && CursorsFollowed(asked)
  {
    ghost var pages := [first];
    var posts, seen, history, cursors: set<Uuid> := firstPosts, firstSeen, [None], {};
    var next, count := first.next, 1;
    while next.Some?
      invariant count == |pages| && OnTrack(server, pages, history, cursors)
      invariant next == pages[|pages| - 1].next && pages[0] == first
      invariant posts == PostsOf(pages) && DistinctPosts(posts) && Knows(seen, posts)
      decreases MAX_POSTS_PAGES - count
    {
      if count >= MAX_POSTS_PAGES {
        Abandon(server, pages);
        return Failed(PageLimit), history;
      }
      NextCursor(cursors, pages);
      if next.value in cursors {
        Abandon(server, pages);
        return Failed(CursorRepeated), history;
      }
      ghost var before := history;
      history := history + [next];
      assert history == Requests(pages, |pages|);
      var page := server(history);
      if page.None? {
        Abandon(server, pages);
        return Failed(FetchFailed), history;
      }
      OnTrackStep(server, pages, before, cursors, page.value);
      cursors := cursors + {next.value};
      pages := pages + [page.value];
      if page.value.snapshot != first.snapshot {
        Abandon(server, pages);
        return Failed(SnapshotChanged), history;
      }
      var appended;
      appended, posts, seen := AppendPostPage(posts, seen, page.value.posts);
      if !appended {
        Abandon(server, pages);
        return Failed(PostRepeated), history;
      }
      next := page.value.next;
      count := count + 1;
    }
    FinishedWalk(server, cursors, pages);
    return Listed(first.snapshot, posts), history;
  }

  lemma {:induction false} FinishedWalk(server: Server, cursors: set<Uuid>, pages: seq<Page>)
    requires 0 < |pages| <= MAX_POSTS_PAGES && IsWalk(server, pages) && OneSnapshot(pages)
             && DistinctPosts(PostsOf(pages))
    requires Followed(cursors, pages) && pages[|pages| - 1].next.None?
    ensures Complete(server, pages)
  {
  }
}
