/** The social graph of the blog: users, posts and the `followers` edge table,
    with the relationship operations of the user entity (follow, unfollow,
    is-following and the two counts). The relational store is replaced by
    immutable values: the edge table is a set of ordered pairs, every operation
    is a pure function from the old table to the new one. */
module Models {

  type UserId = int

  /** One row of the `followers` table: (follower_id, followed_id). */
  type Edge = (UserId, UserId)

  /** The whole `followers` table. Its composite primary key over both columns
      allows at most one row per ordered pair, so the table is a set. */
  type Edges = set<Edge>

  /** Declared widths of the `about_me` and post `body` text columns. */
  const AboutMeWidth: nat := 140
  const BodyWidth: nat := 140

  /** The columns of the user table the model needs (credentials, profile text
      and last-seen time are not part of it). */
  datatype User = User(id: UserId, username: string, email: string)

  /** A post row: its body, its creation time as a plain integer, and the id
      of its author (the `user_id` foreign key). */
  datatype Post = Post(id: int, body: string, timestamp: int, author: UserId)

  /** The two columns of the `followers` table. */
  datatype Column = FollowerId | FollowedId

  function ColumnValue(e: Edge, c: Column): UserId {
    match c
    case FollowerId => e.0
    case FollowedId => e.1
  }

  /** The column of `e` opposite to `c`. */
  function OtherEnd(e: Edge, c: Column): UserId {
    match c
    case FollowerId => e.1
    case FollowedId => e.0
  }

  // ---------------------------------------------------------------------------
  // Follow, unfollow, is-following

  /** `a.is_following(b)`: a row (a, b) exists. */
  predicate IsFollowing(edges: Edges, a: UserId, b: UserId) {
    (a, b) in edges
  }

  /** `a.follow(b)`: insert (a, b) unless it is already there. Nothing stops
      `a == b`. */
  function Follow(edges: Edges, a: UserId, b: UserId): (r: Edges)
    ensures IsFollowing(r, a, b)
    ensures IsFollowing(edges, a, b) ==> r == edges
    ensures forall e :: e != (a, b) ==> (e in r <==> e in edges)
  {
    if !IsFollowing(edges, a, b) then edges + {(a, b)} else edges
  }

  /** `a.unfollow(b)`: delete (a, b) if it is there. */
  function Unfollow(edges: Edges, a: UserId, b: UserId): (r: Edges)
    ensures !IsFollowing(r, a, b)
    ensures !IsFollowing(edges, a, b) ==> r == edges
    ensures forall e :: e != (a, b) ==> (e in r <==> e in edges)
  {
    if IsFollowing(edges, a, b) then edges - {(a, b)} else edges
  }

  /** Following twice is following once. */
  lemma FollowIdempotent(edges: Edges, a: UserId, b: UserId)
    ensures Follow(Follow(edges, a, b), a, b) == Follow(edges, a, b)
  {
  }

  /** Unfollowing twice is unfollowing once. */
  lemma UnfollowIdempotent(edges: Edges, a: UserId, b: UserId)
    ensures Unfollow(Unfollow(edges, a, b), a, b) == Unfollow(edges, a, b)
  {
  }

  /** A fresh follow is undone by an unfollow, and removing an existing edge is
      undone by a follow: the two operations are inverse on the pair they touch. */
  lemma FollowUnfollowInverse(edges: Edges, a: UserId, b: UserId)
    ensures !IsFollowing(edges, a, b) ==> Unfollow(Follow(edges, a, b), a, b) == edges
    ensures IsFollowing(edges, a, b) ==> Follow(Unfollow(edges, a, b), a, b) == edges
  {
  }

  /** Self-follow is not guarded: `u.follow(u)` records u as its own follower. */
  lemma SelfFollowRecorded(edges: Edges, u: UserId)
    ensures IsFollowing(Follow(edges, u, u), u, u)
    ensures u in FollowerIds(Follow(edges, u, u), u)
    ensures u in FollowedIds(Follow(edges, u, u), u)
  {
    var r := Follow(edges, u, u);
    assert (u, u) in Matching(r, FollowedId, u) && OtherEnd((u, u), FollowedId) == u;
    assert (u, u) in Matching(r, FollowerId, u) && OtherEnd((u, u), FollowerId) == u;
  }

  // ---------------------------------------------------------------------------
  // Foreign keys

  /** Both columns of every edge reference an existing user id. */
  predicate EndpointsExist(edges: Edges, ids: set<UserId>) {
    forall e :: e in edges ==> e.0 in ids && e.1 in ids
  }

  /** Following an existing user keeps the foreign keys intact; unfollowing
      never breaks them. */
  lemma RelationshipsKeepForeignKeys(edges: Edges, ids: set<UserId>, a: UserId, b: UserId)
    requires EndpointsExist(edges, ids)
    ensures a in ids && b in ids ==> EndpointsExist(Follow(edges, a, b), ids)
    ensures EndpointsExist(Unfollow(edges, a, b), ids)
  {
  }

  // ---------------------------------------------------------------------------
  // Counts

  /** The rows of the edge table whose column `c` holds `id`. */
  function Matching(edges: Edges, c: Column, id: UserId): set<Edge> {
    set e | e in edges && ColumnValue(e, c) == id
  }

  /** The ids at the other end of those rows. */
  function Neighbours(edges: Edges, c: Column, id: UserId): set<UserId> {
    set e | e in Matching(edges, c, id) :: OtherEnd(e, c)
  }

  /** The users that follow `b`. */
  function FollowerIds(edges: Edges, b: UserId): set<UserId> {
    Neighbours(edges, FollowedId, b)
  }

  /** The users that `a` follows. */
  function FollowedIds(edges: Edges, a: UserId): set<UserId> {
    Neighbours(edges, FollowerId, a)
  }

  /** The follower and followed sets are exactly the two readings of the edge
      relation. */
  lemma NeighbourMembership(edges: Edges, x: UserId, y: UserId)
    ensures x in FollowerIds(edges, y) <==> IsFollowing(edges, x, y)
    ensures y in FollowedIds(edges, x) <==> IsFollowing(edges, x, y)
  {
    if IsFollowing(edges, x, y) {
      assert (x, y) in Matching(edges, FollowedId, y) && OtherEnd((x, y), FollowedId) == x;
      assert (x, y) in Matching(edges, FollowerId, x) && OtherEnd((x, y), FollowerId) == y;
    }
  }

  /** Because an edge is a whole (follower, followed) pair, the rows that share
      one column value differ in the other: there are exactly as many rows as
      distinct neighbours. */
  lemma {:induction false} NeighbourCount(edges: Edges, c: Column, id: UserId)
    ensures |Neighbours(edges, c, id)| == |Matching(edges, c, id)|
    decreases edges
  {
    var m := Matching(edges, c, id);
    if m == {} {
      assert Neighbours(edges, c, id) == {};
    } else {
      var e :| e in m;
      var rest := edges - {e};
      NeighbourCount(rest, c, id);
      assert Matching(rest, c, id) == m - {e};
      assert Neighbours(edges, c, id) == Neighbours(rest, c, id) + {OtherEnd(e, c)};
      assert OtherEnd(e, c) !in Neighbours(rest, c, id) by {
        forall e' | e' in Matching(rest, c, id)
          ensures OtherEnd(e', c) != OtherEnd(e, c)
        {
          assert e' != e;
          match c
          case FollowerId =>
          case FollowedId =>
        }
      }
    }
  }

  /** `b.followers_count()`: the number of rows (x, b), which is the number of
      distinct users following b. */
  function FollowersCount(edges: Edges, b: UserId): (n: nat)
    ensures n == |FollowerIds(edges, b)|
  {
    NeighbourCount(edges, FollowedId, b);
    |Matching(edges, FollowedId, b)|
  }

  /** `a.following_count()`: the number of rows (a, y), which is the number of
      distinct users a follows. */
  function FollowingCount(edges: Edges, a: UserId): (n: nat)
    ensures n == |FollowedIds(edges, a)|
  {
    NeighbourCount(edges, FollowerId, a);
    |Matching(edges, FollowerId, a)|
  }

  /** The count query, row by row: scan the edge table and count the rows whose
      column `c` holds `id`. */
  method CountRows(edges: Edges, c: Column, id: UserId) returns (n: nat)
    ensures n == |Matching(edges, c, id)|
    ensures c == FollowedId ==> n == FollowersCount(edges, id)
    ensures c == FollowerId ==> n == FollowingCount(edges, id)
  {
    n := 0;
    var rest := edges;
    while rest != {}
      invariant rest <= edges
      invariant n == |Matching(edges - rest, c, id)|
      decreases rest
    {
      var e :| e in rest;
      var before := Matching(edges - rest, c, id);
      rest := rest - {e};
      if ColumnValue(e, c) == id {
        assert Matching(edges - rest, c, id) == before + {e};
        n := n + 1;
      } else {
        assert Matching(edges - rest, c, id) == before;
      }
    }
    assert edges - rest == edges;
  }

  /** The matching rows whose other end is an existing user: what survives the
      join of the edge table with the user table. */
  function JoinedRows(edges: Edges, ids: set<UserId>, c: Column, id: UserId): set<Edge> {
    set e | e in Matching(edges, c, id) && OtherEnd(e, c) in ids
  }

  /** The joined rows are as many as the distinct existing users at their
      other end. */
  lemma JoinedRowsCount(edges: Edges, ids: set<UserId>, c: Column, id: UserId)
    ensures |JoinedRows(edges, ids, c, id)| == |Neighbours(edges, c, id) * ids|
  {
    var joined := JoinedRows(edges, ids, c, id);
    assert Matching(joined, c, id) == joined;
    forall x | x in Neighbours(edges, c, id) * ids
      ensures x in Neighbours(joined, c, id)
    {
      var e :| e in Matching(edges, c, id) && OtherEnd(e, c) == x;
      assert e in Matching(joined, c, id);
    }
    assert Neighbours(joined, c, id) == Neighbours(edges, c, id) * ids;
    NeighbourCount(joined, c, id);
  }

  /** The count query as the code writes it selects user rows joined to the
      edge table, so an edge is counted only when the user at its other end
      exists: the count is the number of distinct existing users at the other
      end. Under the foreign keys that join drops nothing. */
  function JoinedCount(edges: Edges, ids: set<UserId>, c: Column, id: UserId): (n: nat)
    ensures n == |Neighbours(edges, c, id) * ids|
    ensures n <= |Matching(edges, c, id)|
    ensures EndpointsExist(edges, ids) ==> n == |Matching(edges, c, id)|
  {
    var joined := JoinedRows(edges, ids, c, id);
    var all := Matching(edges, c, id);
    assert all == joined + (all - joined) && joined !! (all - joined);
    OtherEndsExist(edges, ids, c, id);
    assert EndpointsExist(edges, ids) ==> all - joined == {};
    JoinedRowsCount(edges, ids, c, id);
    |joined|
  }

  /** Under the foreign keys, the other end of every matching row is a user. */
  lemma OtherEndsExist(edges: Edges, ids: set<UserId>, c: Column, id: UserId)
    ensures EndpointsExist(edges, ids) ==> forall e :: e in Matching(edges, c, id) ==> OtherEnd(e, c) in ids
  {
  }

  /** While the foreign keys hold, the counts through the user table are the
      follower and following counts of this model. */
  lemma CountsThroughUserTable(edges: Edges, ids: set<UserId>, x: UserId)
    requires EndpointsExist(edges, ids)
    ensures JoinedCount(edges, ids, FollowedId, x) == FollowersCount(edges, x)
    ensures JoinedCount(edges, ids, FollowerId, x) == FollowingCount(edges, x)
  {
  }

  /** A relationship change requested through the user entity. */
  datatype Action = FollowAction(a: UserId, b: UserId) | UnfollowAction(a: UserId, b: UserId)

  function Step(edges: Edges, act: Action): Edges {
    match act
    case FollowAction(a, b) => Follow(edges, a, b)
    case UnfollowAction(a, b) => Unfollow(edges, a, b)
  }

  /** The edge table after a sequence of follows and unfollows, in order. */
  function Replay(edges: Edges, acts: seq<Action>): Edges
    decreases |acts|
  {
    if |acts| == 0 then edges else Replay(Step(edges, acts[0]), acts[1..])
  }

  /** Follow and unfollow are only ever called on loaded users and nothing
      deletes a user, so every edge table reachable from a valid one by these
      operations keeps both foreign keys. */
  lemma {:induction false} ReplayKeepsForeignKeys(edges: Edges, ids: set<UserId>, acts: seq<Action>)
    requires EndpointsExist(edges, ids)
    requires forall i :: 0 <= i < |acts| ==> acts[i].a in ids && acts[i].b in ids
    ensures EndpointsExist(Replay(edges, acts), ids)
    decreases |acts|
  {
    if |acts| > 0 {
      RelationshipsKeepForeignKeys(edges, ids, acts[0].a, acts[0].b);
      ReplayKeepsForeignKeys(Step(edges, acts[0]), ids, acts[1..]);
    }
  }

  /** Registering users only adds ids, and never takes a foreign key away:
      edges valid before a registration stay valid after it. */
  lemma RegistrationKeepsForeignKeys(edges: Edges, ids: set<UserId>, more: set<UserId>)
    requires EndpointsExist(edges, ids)
    requires ids <= more
    ensures EndpointsExist(edges, more)
  {
  }

  /** A fresh `a.follow(b)` raises b's follower count and a's following count
      by exactly one. */
  lemma FollowCountsUpByOne(edges: Edges, a: UserId, b: UserId)
    requires !IsFollowing(edges, a, b)
    ensures FollowersCount(Follow(edges, a, b), b) == FollowersCount(edges, b) + 1
    ensures FollowingCount(Follow(edges, a, b), a) == FollowingCount(edges, a) + 1
  {
    var r := Follow(edges, a, b);
    assert Matching(r, FollowedId, b) == Matching(edges, FollowedId, b) + {(a, b)};
    assert Matching(r, FollowerId, a) == Matching(edges, FollowerId, a) + {(a, b)};
  }

  /** Removing an existing edge (a, b) lowers the same two counts by exactly one. */
  lemma UnfollowCountsDownByOne(edges: Edges, a: UserId, b: UserId)
    requires IsFollowing(edges, a, b)
    ensures FollowersCount(Unfollow(edges, a, b), b) == FollowersCount(edges, b) - 1
    ensures FollowingCount(Unfollow(edges, a, b), a) == FollowingCount(edges, a) - 1
  {
    var r := Unfollow(edges, a, b);
    assert Matching(edges, FollowedId, b) == Matching(r, FollowedId, b) + {(a, b)};
    assert Matching(edges, FollowerId, a) == Matching(r, FollowerId, a) + {(a, b)};
  }

  /** Following or unfollowing (a, b) changes no other user's counts. */
  lemma OtherCountsUnchanged(edges: Edges, a: UserId, b: UserId, x: UserId)
    ensures x != b ==> FollowersCount(Follow(edges, a, b), x) == FollowersCount(edges, x)
    ensures x != a ==> FollowingCount(Follow(edges, a, b), x) == FollowingCount(edges, x)
    ensures x != b ==> FollowersCount(Unfollow(edges, a, b), x) == FollowersCount(edges, x)
    ensures x != a ==> FollowingCount(Unfollow(edges, a, b), x) == FollowingCount(edges, x)
  {
    var f := Follow(edges, a, b);
    var u := Unfollow(edges, a, b);
    if x != b {
      assert Matching(f, FollowedId, x) == Matching(edges, FollowedId, x);
      assert Matching(u, FollowedId, x) == Matching(edges, FollowedId, x);
    }
    if x != a {
      assert Matching(f, FollowerId, x) == Matching(edges, FollowerId, x);
      assert Matching(u, FollowerId, x) == Matching(edges, FollowerId, x);
    }
  }
}
