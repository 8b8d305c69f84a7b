# Social graph, feed and form checks of a small blogging application

This project models the core of a small social-blogging web application in
Dafny, and proves properties of that model. Users follow one another, write
short posts, and read a feed made of their own posts and the posts of the
accounts they follow. Before anything is stored, web forms check usernames,
email addresses, text lengths and repeated passwords.

The relational store is replaced by immutable values:

- the `followers` table is a `set<(follower_id, followed_id)>`. Its composite
  primary key allows one row per ordered pair, so a set is exact.
- the post table is a `seq<Post>` of records `(id, body, timestamp, author)`.
- the user table is a `seq<User>` of rows `(id, username, email)`.

Each operation is a pure function from the old table to the new one.

- `models.dfy` (module `Models`) covers the user entity's relationship
  operations. `Follow` and `Unfollow` are a guarded insert and a guarded
  delete, and `IsFollowing` is a membership test. The two counts are given
  as functions and as a row-counting loop (`CountRows`).
- `feed.dfy` (module `Feed`) models `following_posts` stage by stage, as the
  query is evaluated:
  - `RowsKept` and `JoinRows` are the outer join of each post with its
    author's followers, together with the WHERE clause;
  - `Dedup` is the GROUP BY on the post;
  - `SortNewestFirst` is the ORDER BY timestamp DESC.
- `forms.dfy` (module `Forms`) covers the custom uniqueness validators and the
  `Length` / `EqualTo` constraints. The single-row lookup
  `scalar(select(User).where(...))` becomes `FindByUsername`, a scan that
  returns the first matching row or nothing.
- `wrappers.dfy` (module `Wrappers`) holds the `Option` type that the
  lookups return.

Timestamps are plain integers, and the clock that fills them in is not
modelled. When two posts have equal timestamps, the query leaves their order
unspecified. The model sorts by insertion and settles ties one way, but its
contracts only promise a non-increasing order.
`Feed.FeedDeterminedUpToTies` shows that ties are the only freedom left: if
no two posts share a timestamp, any sequence that meets the contract of
`FollowingPosts` is the feed.

The model follows the code where the code and its documentation differ.
The email validator looks the submitted address up in the *username* column,
and the model does the same (see Findings). Self-follow is not refused by the
code, so the model allows it too.

## Model

| member | source | states |
|---|---|---|
| Models.Follow | app/models.py:44-47 | afterwards a follows b (is_following holds); an existing edge leaves the table unchanged; every other edge is kept or absent exactly as before |
| Models.Unfollow | app/models.py:49-56 | afterwards the is_following membership test of the pair is false; with no edge the table is unchanged; every other edge is kept or absent exactly as before |
| Models.FollowIdempotent | app/models.py:46-47 | following twice gives the same table as following once |
| Models.UnfollowIdempotent | app/models.py:50-51 | unfollowing twice gives the same table as unfollowing once |
| Models.FollowUnfollowInverse | app/models.py:44-51 | a fresh follow is undone exactly by unfollow; removing an existing edge is undone exactly by follow |
| Models.SelfFollowRecorded | app/models.py:44-47 | follow(u, u) is not guarded: u then follows itself and appears among its own followers and followed users |
| Models.RelationshipsKeepForeignKeys | app/models.py:15-22 | if both columns of every edge refer to existing users, following two existing users keeps that true, and unfollowing always does |
| Models.NeighbourMembership | app/models.py:35-42 | x is among y's followers, and y among x's followed users, exactly when the edge (x, y) exists |
| Models.NeighbourCount | app/models.py:15-22 | because of the composite key, the number of rows sharing one column value equals the number of distinct users at the other end |
| Models.FollowersCount | app/models.py:58-62 | the follower count equals the number of distinct users following b |
| Models.FollowingCount | app/models.py:64-68 | the following count equals the number of distinct users a follows |
| Models.JoinedCount | app/models.py:58-68 | the count through the user table is the number of distinct existing users at the other end of the matching edges; it never exceeds the edge-row count, and equals it when every edge points at existing users |
| Models.JoinedRowsCount | app/models.py:58-68 | the edge rows that survive the join with the user table are exactly as many as the distinct existing users at their other end |
| Models.CountsThroughUserTable | app/models.py:58-68 | while the foreign keys hold, the counts through the user table are the follower and following counts |
| Models.RegistrationKeepsForeignKeys | app/models.py:15-22 | adding users never invalidates an edge: foreign keys valid for a set of ids stay valid for any larger set |
| Models.ReplayKeepsForeignKeys | app/models.py:15-22 | any sequence of follows and unfollows on existing users keeps both foreign-key columns of every edge pointing at existing users |
| Models.CountRows | app/models.py:58-68 | scanning the edge table row by row counts exactly the rows whose column holds the id, which is the follower or following count |
| Models.FollowCountsUpByOne | app/models.py:44-68 | a fresh follow(a, b) raises b's follower count and a's following count by exactly one |
| Models.UnfollowCountsDownByOne | app/models.py:49-68 | unfollowing an existing edge lowers both counts by exactly one |
| Models.OtherCountsUnchanged | app/models.py:44-68 | follow(a, b) and unfollow(a, b) change no follower count but b's and no following count but a's |
| Feed.RowsKept | app/models.py:75-80 | the number of joined rows of a post that survive the WHERE clause is positive exactly when the reader wrote the post or follows its author |
| Feed.JoinRows | app/models.py:73-80 | a post occurs among the surviving rows exactly when it is in the table and visible to the reader |
| Feed.Dedup | app/models.py:81 | grouping keeps exactly the posts of its input, each at most once |
| Feed.InsertByTime | app/models.py:82 | inserting into a newest-first sequence keeps it newest first and adds exactly that one post |
| Feed.SortNewestFirst | app/models.py:82 | the sorted feed is newest first and a permutation of its input |
| Feed.FollowingPosts | app/models.py:70-83 | the feed holds p exactly when p is in the table and the reader wrote it or follows its author; each post at most once; timestamps non-increasing |
| Feed.AuthorJoin | app/models.py:75 | the inner join with the author keeps exactly the posts whose author exists, and all of them when every author exists |
| Feed.FollowingPostsJoined | app/models.py:70-83 | with the author join, the feed holds exactly the visible posts with an existing author, once each, newest first, and equals FollowingPosts when every author exists |
| Feed.AtMostOnceDistinctPositions | app/models.py:81 | a feed with each post at most once has no post at two positions |
| Feed.FeedIdsUnique | app/models.py:117 | if post ids are unique in the table, no post id appears twice in the feed |
| Feed.DedupCollapsesRepeat | app/models.py:76-81 | grouping turns any run of copies of a joined row into one row |
| Feed.GroupedRowsAgree | app/models.py:75-81 | two edge tables that make the same posts visible give the same grouped rows, whatever their join multiplicities |
| Feed.FeedDependsOnlyOnVisibility | app/models.py:70-83 | the feed is decided by which posts are visible to the reader alone |
| Feed.OtherFeedsUnchanged | app/models.py:70-80 | follow(a, b) and unfollow(a, b) leave every other user's feed exactly as it was |
| Feed.FollowAddsAuthorsPosts | app/models.py:44-80 | after follow(a, b), a's feed holds its old posts plus every post by b, and nothing else |
| Feed.UnfollowDropsAuthorsPosts | app/models.py:49-80 | after unfollow(a, b), with b not a, a's feed holds its old posts minus every post by b; after a self-unfollow it holds exactly its old posts, since a's own posts stay visible |
| Feed.FollowUnfollowScenario | app/models.py:44-80 | after alice follows bob and bob adds a post to the table, alice's feed shows the post; after she unfollows bob, it does not |
| Feed.SortedSetsEqual | app/models.py:81-82 | two newest-first, duplicate-free sequences with the same posts and distinct timestamps are equal |
| Feed.FeedDeterminedUpToTies | app/models.py:70-83 | with distinct timestamps, any sequence meeting the feed's contract is the feed |
| Forms.FindByUsername | app/forms.py:28-29 | the lookup returns a row of the table with that username, and returns nothing exactly when no row has it |
| Forms.FindByUsernameUnique | app/models.py:26 | under the unique username index, the lookup returns exactly the user with that name |
| Forms.RegistrationUsername | app/forms.py:26-31 | registration rejects a username exactly when some existing user already has it, with the form's message |
| Forms.RegistrationEmail | app/forms.py:33-38 | as written: registration rejects an email exactly when some existing user's username equals it |
| Forms.EmailCheckIgnoresEmails | app/forms.py:35-36 | two user tables that agree row by row on usernames give the same email verdict, whatever their email column holds |
| Forms.RegisteredEmailAccepted | app/forms.py:33-38 | a table holding alice with address alice@example.com still accepts alice@example.com at registration |
| Forms.FindByEmail | app/forms.py:35-36 | the corrected lookup returns a row with that email, and returns nothing exactly when no row has it |
| Forms.RegistrationEmailByEmail | app/forms.py:33-38 | corrected: rejects an email exactly when some existing user has that email |
| Forms.ByEmailRejectsRegisteredEmail | app/forms.py:33-38 | the corrected check rejects the address that the written check lets through |
| Forms.ProfileUsername | app/forms.py:51-57 | keeping the original username is always accepted; a changed name is rejected exactly when some user already has it |
| Forms.OwnUsernameKept | app/forms.py:51-53 | a user keeping their own, existing name passes, which registration would refuse |
| Forms.ProfileAgreesWithRegistration | app/forms.py:51-57 | for a changed name, profile edit and registration give the same verdict, with differently worded messages |
| Forms.PostLengthLimits | app/forms.py:65-66 | a post body is valid exactly when its length is between 1 and 140, and it then fits the 140-character column |
| Forms.AboutMeLengthLimits | app/forms.py:43 | about_me is valid exactly when its length is at most 140, empty included, and it then fits its column |
| Forms.RegistrationAccepts | app/forms.py:17-38 | the registration form passes its custom checks and its EqualTo constraint exactly when no user has the name, no user's username equals the address, and password2 equals password |
| Forms.RegistrationAcceptsByEmail | app/forms.py:33-38 | the registration form with the email check its docstring and message describe accepts exactly when the name is free, no user has the address, and password2 equals password |
| Forms.RegisteredEmailPassesForm | app/forms.py:36 | the form as written accepts registering "bob" with alice's address; the corrected form refuses the same submission |
| Forms.SamePasswordConstraint | app/forms.py:22-23 | registration and password reset (app/forms.py:77-78) apply one EqualTo constraint: a mistyped repeat fails both forms, and once name and address pass, registration accepts exactly the password pairs the reset form accepts |

## Left out

- Password hashing (`set_password`, `check_password`): the hash algorithm is
  library code that this model cannot see.
- `avatar`: it builds a URL from an MD5 digest, which is a foreign call.
- Reset tokens (`get_reset_password_token`, `verify_reset_password_token`):
  the HS256 signing is library code, and expiry reads the wall clock. The
  model's only assumption is that a valid token carries the user's id.
- `load_user` and all session and ORM plumbing: the in-memory tables stand in
  for the store.
- Clock defaults for `last_seen` and `Post.timestamp`: timestamps are given
  integers.
- Concurrency: two concurrent follows can race against the primary key. The
  model is sequential.
- The library validators `DataRequired` and `Email`, and the CSRF and field
  machinery. For example, a post body of only spaces passes the length check
  in the model but would be refused by `DataRequired`.
- Form fields that carry no custom logic: the login form, the empty form and
  the reset-request form.
- Lengths are counted in Dafny characters, which are Unicode scalar values,
  and Python counts code points, so characters outside the Basic Multilingual
  Plane count as one on both sides. The one difference is that a Python
  string can hold lone surrogates (U+D800 to U+DFFF), which no Dafny `char`
  can; such strings are outside the model.
- The error-page handlers and the shell context: they are framework glue.
- Forms.FindByUsername: compares usernames with exact string equality, as
  SQLite's default BINARY collation does. A store whose collation folds case
  or ignores trailing spaces (MySQL's default, for instance) would find
  "alice" for a submitted "Alice", so its validators would reject names the
  model accepts. The same assumption holds for `Forms.FindByEmail` and every
  validator built on the two lookups.
- Models.FollowersCount: counts the edge rows (x, b) directly, without the
  code's join through the user table. `Models.JoinedCount` is the count with
  the join, and `Models.CountsThroughUserTable` proves the two equal while
  every edge points at existing users (`EndpointsExist`). That holds in every
  reachable state: nothing deletes users, and follow and unfollow are called
  on loaded users only (`Models.ReplayKeepsForeignKeys`), and registering
  users only adds ids (`Models.RegistrationKeepsForeignKeys`).
- Models.FollowingCount: the same simplification and justification as the
  follower count, for the rows (a, y).
- Feed.FollowingPosts: takes every post of the table without the code's
  inner join with the author, and reads followers straight from the edge
  table. `Feed.FollowingPostsJoined` applies the author join and is proved
  equal to it while every post's author exists. The join of followers with the
  user table drops nothing while `EndpointsExist` holds, as for the counts.
- Models.IsFollowing: a membership test on the edge set, where the code
  (app/models.py:55) selects through `following`, which joins the user table
  on the followed id, so it finds the edge only when user b exists too. The
  argument `user` is always a loaded row, so that join never drops the edge.

## Findings

| source | as written | input that shows it | evidently intended | confidence | as-written member | corrected member |
|---|---|---|---|---|---|---|
| app/forms.py:36 | the email validator looks the submitted address up in the username column | users = [alice, whose address is alice@example.com]; registering with alice@example.com is accepted | reject an address that some user already has (the docstring and the message say so) | high; not executed | Forms.RegistrationEmail (counterexample: Forms.RegisteredEmailAccepted) | Forms.RegistrationEmailByEmail (counterpart: Forms.ByEmailRejectsRegisteredEmail) |

In the model, `Forms.RegistrationEmail` is the validator as the code runs
it. The corrected `Forms.RegistrationEmailByEmail` is provided next to it,
and its contract proves the intended property. `Forms.RegistrationAccepts`
and `Forms.SamePasswordConstraint` use the as-written check, as the form
does, so the form-level verdict inherits the defect:
`Forms.RegisteredEmailPassesForm` shows the whole form accepting a second
account with an address already on file, which
`Forms.RegistrationAcceptsByEmail`, the form with the corrected check,
refuses. Nothing in `Models` or `Feed` depends on either check.
