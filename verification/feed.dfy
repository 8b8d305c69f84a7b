/** The feed query `following_posts`: every post written by the user or by an
    account the user follows, each post once, newest first.

    The query is modelled stage by stage, as the relational engine evaluates
    it: the join of each post with its author's followers and the WHERE clause
    (`JoinRows`), the GROUP BY on the post (`Dedup`), and the ORDER BY on the
    timestamp, descending (`SortNewestFirst`). */
module Feed {
  import opened Models

  /** Post `p` belongs in `u`'s feed: `u` wrote it, or `u` follows its author. */
  predicate Visible(edges: Edges, u: UserId, p: Post) {
    p.author == u || IsFollowing(edges, u, p.author)
  }

  /** Every post occurs at most once. */
  predicate AtMostOnce(s: seq<Post>) {
    forall p :: p in s ==> multiset(s)[p] <= 1
  }

  /** Timestamps never increase along the sequence. */
  predicate NewestFirst(s: seq<Post>) {
    forall i, j :: 0 <= i < j < |s| ==> s[i].timestamp >= s[j].timestamp
  }

  // ---------------------------------------------------------------------------
  // Join and WHERE

  /** How many joined rows of post `p` survive the WHERE clause of `u`'s feed.
      The query left-outer-joins the author's followers to the post: an author
      nobody follows gives one row whose follower is NULL, otherwise there is
      one row per follower. A row is kept when its follower is `u` or its
      author is `u`; a NULL follower never equals `u`. */
  function RowsKept(edges: Edges, u: UserId, p: Post): (n: nat)
    ensures n > 0 <==> Visible(edges, u, p)
  {
    NeighbourMembership(edges, u, p.author);
    var followers := FollowerIds(edges, p.author);
    if followers == {} then
      if p.author == u then 1 else 0
    else if p.author == u then |followers|
    else if u in followers then 1
    else 0
  }

  /** `n` copies of the row `p`. */
  function Repeat(p: Post, n: nat): (r: seq<Post>)
    ensures |r| == n
    ensures forall x :: x in r <==> n > 0 && x == p
  {
    var r := seq(n, _ => p);
    assert n > 0 ==> r[0] == p;
    r
  }

  /** The rows the WHERE clause keeps, post by post, in table order. */
  function JoinRows(edges: Edges, u: UserId, posts: seq<Post>): (rows: seq<Post>)
    ensures forall p :: p in rows <==> p in posts && Visible(edges, u, p)
  {
    if |posts| == 0 then []
    else
      var head := Repeat(posts[0], RowsKept(edges, u, posts[0]));
      assert forall p :: p in head <==> p == posts[0] && Visible(edges, u, p);
      assert posts == [posts[0]] + posts[1..];
      head + JoinRows(edges, u, posts[1..])
  }

  // ---------------------------------------------------------------------------
  // GROUP BY

  /** Collapse repeated rows into one (the last occurrence is the one kept;
      the order is settled by the sort that follows). Grouping on the post
      groups on every column of the post, so two rows merge exactly when they
      are the same post record. */
  function Dedup(s: seq<Post>): (r: seq<Post>)
    ensures forall p :: p in r <==> p in s
    ensures AtMostOnce(r)
  {
    if |s| == 0 then []
    else if s[0] in s[1..] then Dedup(s[1..])
    else
      var rest := Dedup(s[1..]);
      assert s[0] !in rest;
      assert forall p :: p in s <==> p == s[0] || p in s[1..] by {
        assert s == [s[0]] + s[1..];
      }
      [s[0]] + rest
  }

  // ---------------------------------------------------------------------------
  // ORDER BY timestamp DESC

  /** Putting a post in front of a newest-first sequence keeps it newest first
      when the post is at least as new as the old head. */
  lemma NewestFirstCons(p: Post, s: seq<Post>)
    requires NewestFirst(s)
    requires |s| > 0 ==> p.timestamp >= s[0].timestamp
    ensures NewestFirst([p] + s)
  {
  }

  /** Insert `p` into a newest-first sequence, in front of the first post that
      is not newer than it. */
  function InsertByTime(p: Post, s: seq<Post>): (r: seq<Post>)
    requires NewestFirst(s)
    ensures NewestFirst(r)
    ensures multiset(r) == multiset(s) + multiset{p}
    ensures |r| == |s| + 1 && (r[0] == p || (|s| > 0 && r[0] == s[0]))
  {
    if |s| == 0 || p.timestamp >= s[0].timestamp then
      NewestFirstCons(p, s);
      [p] + s
    else
      var rest := InsertByTime(p, s[1..]);
      NewestFirstCons(s[0], rest);
      assert s == [s[0]] + s[1..];
      [s[0]] + rest
  }

  /** Insertion sort by timestamp, newest first. Posts with equal timestamps
      end up in some order; the query leaves that order unspecified. */
  function SortNewestFirst(s: seq<Post>): (r: seq<Post>)
    ensures NewestFirst(r)
    ensures multiset(r) == multiset(s)
  {
    if |s| == 0 then []
    else
      assert s == [s[0]] + s[1..];
      InsertByTime(s[0], SortNewestFirst(s[1..]))
  }

  // ---------------------------------------------------------------------------
  // The feed

  /** `u.following_posts()` over the post table `posts`. */
  function FollowingPosts(edges: Edges, posts: seq<Post>, u: UserId): (feed: seq<Post>)
    ensures forall p :: p in feed <==> p in posts && Visible(edges, u, p)
    ensures AtMostOnce(feed)
    ensures NewestFirst(feed)
  {
    var grouped := Dedup(JoinRows(edges, u, posts));
    var feed := SortNewestFirst(grouped);
    assert forall p :: p in feed <==> p in grouped by {
      forall p
        ensures p in feed <==> p in grouped
      {
        assert p in feed <==> p in multiset(feed);
      }
    }
    feed
  }

  // ---------------------------------------------------------------------------
  // The join with the author

  /** Every post's author is an existing user (the `user_id` foreign key). */
  predicate AuthorsExist(posts: seq<Post>, ids: set<UserId>) {
    forall p :: p in posts ==> p.author in ids
  }

  /** The inner join of each post with its author: a post whose author is no
      existing user yields no row. */
  function AuthorJoin(posts: seq<Post>, ids: set<UserId>): (r: seq<Post>)
    ensures forall p :: p in r <==> p in posts && p.author in ids
    ensures AuthorsExist(posts, ids) ==> r == posts
  {
    if |posts| == 0 then []
    else
      assert posts == [posts[0]] + posts[1..];
      (if posts[0].author in ids then [posts[0]] else []) + AuthorJoin(posts[1..], ids)
  }

  /** `u.following_posts()` with the join of each post to its author made
      explicit; `ids` are the ids of the user table. While every post has an
      existing author, the join drops nothing and this is `FollowingPosts`. */
  function FollowingPostsJoined(edges: Edges, posts: seq<Post>, ids: set<UserId>, u: UserId): (feed: seq<Post>)
    ensures forall p :: p in feed <==> p in posts && p.author in ids && Visible(edges, u, p)
    ensures AtMostOnce(feed) && NewestFirst(feed)
    ensures AuthorsExist(posts, ids) ==> feed == FollowingPosts(edges, posts, u)
  {
    FollowingPosts(edges, AuthorJoin(posts, ids), u)
  }

  /** A post held at two positions has multiplicity at least two. */
  lemma RepeatedPostCountsTwice(s: seq<Post>, i: nat, j: nat)
    requires i < j < |s| && s[i] == s[j]
    ensures multiset(s)[s[i]] >= 2
  {
    assert s == s[..i] + [s[i]] + s[i + 1..j] + [s[j]] + s[j + 1..];
  }

  /** At most once, stated on positions: no two positions hold the same post. */
  lemma AtMostOnceDistinctPositions(s: seq<Post>)
    requires AtMostOnce(s)
    ensures forall i, j :: 0 <= i < j < |s| ==> s[i] != s[j]
  {
    forall i, j | 0 <= i < j < |s|
      ensures s[i] != s[j]
    {
      if s[i] == s[j] {
        RepeatedPostCountsTwice(s, i, j);
        assert false;
      }
    }
  }

  /** The post table's primary key: no two rows share an id. */
  predicate IdsUnique(posts: seq<Post>) {
    forall i, j :: 0 <= i < |posts| && 0 <= j < |posts| && posts[i].id == posts[j].id ==> i == j
  }

  /** Over a table with unique post ids, no post id appears twice in the feed. */
  lemma FeedIdsUnique(edges: Edges, posts: seq<Post>, u: UserId)
    requires IdsUnique(posts)
    ensures IdsUnique(FollowingPosts(edges, posts, u))
  {
    var feed := FollowingPosts(edges, posts, u);
    AtMostOnceDistinctPositions(feed);
    forall i, j | 0 <= i < |feed| && 0 <= j < |feed| && feed[i].id == feed[j].id
      ensures i == j
    {
      assert feed[i] in posts && feed[j] in posts;
      var k :| 0 <= k < |posts| && posts[k] == feed[i];
      var l :| 0 <= l < |posts| && posts[l] == feed[j];
      assert k == l;
      assert feed[i] == feed[j];
    }
  }

  // ---------------------------------------------------------------------------
  // How the feed depends on the edge table

  /** The GROUP BY turns a run of copies of one row into a single row. */
  lemma {:induction false} DedupCollapsesRepeat(p: Post, n: nat, s: seq<Post>)
    requires n > 0
    ensures Dedup(Repeat(p, n) + s) == Dedup([p] + s)
    decreases n
  {
    if n > 1 {
      var t := Repeat(p, n) + s;
      assert t[1..] == Repeat(p, n - 1) + s;
      assert p in t[1..];
      DedupCollapsesRepeat(p, n - 1, s);
    } else {
      assert Repeat(p, n) == [p];
    }
  }

  /** Two edge tables that make the same posts visible give the same grouped
      rows, whatever the numbers of joined rows per post. */
  lemma {:induction false} GroupedRowsAgree(e1: Edges, e2: Edges, u: UserId, posts: seq<Post>)
    requires forall p :: p in posts ==> (Visible(e1, u, p) <==> Visible(e2, u, p))
    ensures Dedup(JoinRows(e1, u, posts)) == Dedup(JoinRows(e2, u, posts))
    decreases |posts|
  {
    if |posts| > 0 {
      var p := posts[0];
      var t1 := JoinRows(e1, u, posts[1..]);
      var t2 := JoinRows(e2, u, posts[1..]);
      GroupedRowsAgree(e1, e2, u, posts[1..]);
      var n1 := RowsKept(e1, u, p);
      var n2 := RowsKept(e2, u, p);
      assert JoinRows(e1, u, posts) == Repeat(p, n1) + t1;
      assert JoinRows(e2, u, posts) == Repeat(p, n2) + t2;
      if Visible(e1, u, p) {
        DedupCollapsesRepeat(p, n1, t1);
        DedupCollapsesRepeat(p, n2, t2);
        assert ([p] + t1)[1..] == t1;
        assert ([p] + t2)[1..] == t2;
        assert p in t1 <==> p in t2;
      } else {
        assert Repeat(p, n1) + t1 == t1;
        assert Repeat(p, n2) + t2 == t2;
      }
    }
  }

  /** The feed of `u` is decided by which posts are visible to `u` alone: the
      number of followers each author has, which changes how many joined rows
      the query produces, does not show in the result. */
  lemma FeedDependsOnlyOnVisibility(e1: Edges, e2: Edges, posts: seq<Post>, u: UserId)
    requires forall p :: p in posts ==> (Visible(e1, u, p) <==> Visible(e2, u, p))
    ensures FollowingPosts(e1, posts, u) == FollowingPosts(e2, posts, u)
  {
    GroupedRowsAgree(e1, e2, u, posts);
  }

  /** `a.follow(b)` and `a.unfollow(b)` leave the feed of every other user
      exactly as it was. */
  lemma OtherFeedsUnchanged(edges: Edges, posts: seq<Post>, a: UserId, b: UserId, c: UserId)
    requires c != a
    ensures FollowingPosts(Follow(edges, a, b), posts, c) == FollowingPosts(edges, posts, c)
    ensures FollowingPosts(Unfollow(edges, a, b), posts, c) == FollowingPosts(edges, posts, c)
  {
    FeedDependsOnlyOnVisibility(Follow(edges, a, b), edges, posts, c);
    FeedDependsOnlyOnVisibility(Unfollow(edges, a, b), edges, posts, c);
  }

  /** After `a.follow(b)`, a's feed holds what it held before plus every post
      by b, and nothing else. */
  lemma FollowAddsAuthorsPosts(edges: Edges, posts: seq<Post>, a: UserId, b: UserId)
    ensures forall p :: p in FollowingPosts(Follow(edges, a, b), posts, a) <==>
                        p in FollowingPosts(edges, posts, a) || (p in posts && p.author == b)
  {
  }

  /** After `a.unfollow(b)`, with b another user, a's feed holds what it held
      before minus every post by b. A self-unfollow changes nothing: a's own
      posts stay visible without the edge. */
  lemma UnfollowDropsAuthorsPosts(edges: Edges, posts: seq<Post>, a: UserId, b: UserId)
    ensures a != b ==>
              forall p :: p in FollowingPosts(Unfollow(edges, a, b), posts, a) <==>
                          p in FollowingPosts(edges, posts, a) && p.author != b
    ensures a == b ==>
              forall p :: p in FollowingPosts(Unfollow(edges, a, b), posts, a) <==>
                          p in FollowingPosts(edges, posts, a)
  {
  }

  /** Alice follows Bob; Bob adds a post `hello` to the table; Alice's feed shows it. After Alice
      unfollows Bob, her feed no longer does. */
  lemma FollowUnfollowScenario(edges: Edges, posts: seq<Post>, alice: UserId, bob: UserId, hello: Post)
    requires alice != bob && hello.author == bob
    ensures hello in FollowingPosts(Follow(edges, alice, bob), posts + [hello], alice)
    ensures hello !in FollowingPosts(Unfollow(Follow(edges, alice, bob), alice, bob), posts + [hello], alice)
  {
    var followed := Follow(edges, alice, bob);
    var unfollowed := Unfollow(followed, alice, bob);
    var table := posts + [hello];
    assert hello in table;
    assert Visible(followed, alice, hello);
    assert !Visible(unfollowed, alice, hello);
    var before := FollowingPosts(followed, table, alice);
    var after := FollowingPosts(unfollowed, table, alice);
    assert hello in before;
    assert hello !in after;
  }


  // ---------------------------------------------------------------------------
  // The contract decides the feed up to ties

  /** No two different posts of the table share a timestamp. */
  predicate TimestampsDistinct(posts: seq<Post>) {
    forall i, j :: 0 <= i < |posts| && 0 <= j < |posts| && posts[i].timestamp == posts[j].timestamp ==> posts[i] == posts[j]
  }

  /** Dropping the head of a sequence keeps every post at most once. */
  lemma AtMostOnceTail(s: seq<Post>)
    requires |s| > 0 && AtMostOnce(s)
    ensures AtMostOnce(s[1..])
    ensures s[0] !in s[1..]
  {
    assert s == [s[0]] + s[1..];
    assert multiset(s) == multiset{s[0]} + multiset(s[1..]);
    assert s[0] in s;
    forall p | p in s[1..]
      ensures multiset(s[1..])[p] <= 1
    {
      assert p in s;
    }
  }

  /** A sequence with no member is the empty sequence. */
  lemma EmptyWithoutMembers(t: seq<Post>)
    ensures (forall p :: p !in t) ==> t == []
  {
    if |t| > 0 {
      assert t[0] in t;
    }
  }

  /** Two newest-first sequences holding the same posts once each are equal
      when no two of those posts share a timestamp. */
  lemma {:induction false} SortedSetsEqual(s: seq<Post>, t: seq<Post>)
    requires AtMostOnce(s) && AtMostOnce(t)
    requires NewestFirst(s) && NewestFirst(t)
    requires forall p :: p in s <==> p in t
    requires TimestampsDistinct(s)
    ensures s == t
    decreases |s|
  {
    if |s| == 0 {
      EmptyWithoutMembers(t);
    } else {
      assert s[0] in t;
      assert |t| > 0 && t[0] in t;
      var k :| 0 <= k < |s| && s[k] == t[0];
      var m :| 0 <= m < |t| && t[m] == s[0];
      assert s[0].timestamp >= s[k].timestamp;
      assert t[0].timestamp >= t[m].timestamp;
      assert s[0] == t[0];
      AtMostOnceTail(s);
      AtMostOnceTail(t);
      forall p
        ensures p in s[1..] <==> p in t[1..]
      {
        assert p in s <==> p == s[0] || p in s[1..] by {
          assert s == [s[0]] + s[1..];
        }
        assert p in t <==> p == t[0] || p in t[1..] by {
          assert t == [t[0]] + t[1..];
        }
      }
      SortedSetsEqual(s[1..], t[1..]);
      assert s == [s[0]] + s[1..];
      assert t == [t[0]] + t[1..];
    }
  }

  /** When no two posts of the table share a timestamp, the three promises of
      `FollowingPosts` (the visible posts, each once, newest first) fix the
      feed completely: any sequence keeping them is the feed. Only equal
      timestamps leave room for another order. */
  lemma FeedDeterminedUpToTies(edges: Edges, posts: seq<Post>, u: UserId, other: seq<Post>)
    requires TimestampsDistinct(posts)
    requires forall p :: p in other <==> p in posts && Visible(edges, u, p)
    requires AtMostOnce(other) && NewestFirst(other)
    ensures other == FollowingPosts(edges, posts, u)
  {
    var feed := FollowingPosts(edges, posts, u);
    forall i, j | 0 <= i < |other| && 0 <= j < |other| && other[i].timestamp == other[j].timestamp
      ensures other[i] == other[j]
    {
      assert other[i] in posts && other[j] in posts;
      var k :| 0 <= k < |posts| && posts[k] == other[i];
      var l :| 0 <= l < |posts| && posts[l] == other[j];
    }
    SortedSetsEqual(other, feed);
  }
}
