# Blog store model

A Dafny model of the request handlers of a small Flask/SQLAlchemy blog
(`app.py`). The blog keeps three tables: users, posts and comments. Posts and
comments carry an optional author, and every comment names its post. Each
write handler validates its form fields and then inserts, changes or deletes
rows. Each read handler counts, lists or looks up rows.

The model strips away the web framework and the ORM and keeps what the
handlers decide:

- `text.dfy` (module `Text`): Python's `str.strip()` as `Trim`, over the
  whitespace set of `str.isspace()`. It also holds the code-point order that
  SQLite's default BINARY collation sorts usernames by.
- `tables.dfy` (module `Tables`): a table is a sequence of rows. Each row is
  an integer primary key plus the record's other columns. Rows are kept in
  ascending key order, the order SQLite stores a rowid table in. An insert
  takes one more than the largest key in use, or 1 in an empty table, so the
  new key is fresh and larger than every key in use. Deletes are filters.
- `schema.dfy` (module `Schema`): the `User`, `Post` and `Comment` records
  (app.py:13-42), the three-table `Database`, and the store invariant
  `WellFormed`: keys ascend in every table and no username is used twice.
  It also holds how a handler reads its form fields and the row selections
  the deletes use.
- `handlers.dfy` (module `Handlers`): one function per write handler. Each
  maps a database and the form fields to an `Outcome` (`Ok`,
  `ValidationError`, `Duplicate`, `NotFound`, `Skipped`) and the resulting
  database. The outcome stands in for the flash message and redirect. The
  contracts state which outcome each input gets and that a refused request
  changes nothing. They also state exactly which rows a successful request
  adds, changes or removes, and that the store invariant is kept. This
  invariant is how usernames stay unique.
- `store.dfy` (module `App`): class `Store` holds the three tables as fields.
  Each write handler is a method that reassigns those fields step by step,
  as the handler does through the session. Every method is proved to leave
  exactly the outcome and tables that the matching `Handlers` function
  describes.
- `queries.dfy` (module `Queries`): the read handlers. These are the counts
  shared by the home and analytics pages, the user list sorted by username,
  the post list newest first, and the post page with its comments.
- `properties.dfy` (module `Properties`): what the read handlers show after
  the write handlers run.

`delete_user` is modelled exactly as written. Its two bulk deletes select
posts and comments by their own `user_id` only, and the bulk delete of posts
bypasses the ORM cascade that `Post.comments` declares. A comment that
another user wrote on one of the deleted user's posts therefore survives. Its
`post_id` then names no post (`Handlers.DeleteUserLeavesDanglingComment`).
Deleting that post on its own would have removed the comment
(`Handlers.DeletePostRemovesForeignComment`). The model keeps this
inconsistency as the code has it and does not repair it.

Where the code and the application's described intent differ, the model
follows the code:

- Deleting a user does not remove comments by others on that user's posts
  (see above).
- Author ids given on the post and comment forms are not checked against the
  user table.
- `delete_post` on an unknown id is `NotFound` (`get_or_404`). It does not
  delete unconditionally.

## Model

| member | source | states |
|---|---|---|
| Text.Trim | app.py:100-101 | the stripped field is the slice of the input left once the surrounding whitespace is dropped; it neither starts nor ends with whitespace and is empty exactly when the input is all whitespace |
| Text.TrimIdempotent | app.py:76 | stripping an already stripped value changes nothing |
| Text.TrimPadded | app.py:155 | whitespace added before or after a field value does not change what the handler stores |
| Tables.NextId | app.py:24 | a new primary key is positive, not in use, and larger than every key in use |
| Tables.Insert | app.py:84-86 | an insert adds exactly one row, holding the given columns under a fresh key after every existing row, and keeps keys ascending |
| Tables.IndexOf | app.py:118 | lookup by primary key finds the row with that key, and finds nothing exactly when no row has it |
| Tables.Filter | app.py:202-203 | a filtered delete keeps exactly the rows the filter does not select and keeps keys ascending; with `Tables.SameRowsSameTable` this fixes the remaining table, order included |
| Tables.Without | app.py:147 | deleting by key keeps exactly the rows with other keys |
| Tables.WithoutLength | app.py:146-148 | deleting a key in use removes exactly one row |
| Tables.IdsCount | app.py:49-51 | a table has as many distinct keys as rows |
| Tables.SameRowsSameTable | app.py:202-204 | two tables with ascending keys that hold the same rows are the same table, so a delete described by which rows remain has exactly one result |
| Schema.FormText | app.py:76 | a text field reads as empty exactly when it was not sent or holds only whitespace; otherwise it is the stripped value |
| Schema.UsernameTaken | app.py:80 | the username lookup finds a row exactly when some user has that name, compared exactly |
| Schema.PostsNotBy | app.py:202 | the bulk delete of posts by `user_id` keeps exactly the posts with another or no author |
| Schema.CommentsNotBy | app.py:203 | the bulk delete of comments by `user_id` keeps exactly the comments with another or no author |
| Schema.CommentsOn | app.py:29 | a post's comments relationship holds exactly the comments whose `post_id` is that post |
| Schema.CommentsNotOn | app.py:29 | the delete-orphan cascade on a post keeps exactly the comments on other posts |
| Handlers.NewUser | app.py:74-88 | an empty stripped username is a validation error; an exact match of an existing username is a duplicate; both change nothing; otherwise exactly one user with the stripped name is added and usernames stay unique |
| Handlers.NewPost | app.py:97-112 | an empty stripped title or content writes nothing; otherwise exactly one post with the stripped title and content and the unchecked author is added |
| Handlers.EditPost | app.py:123-140 | an unknown post is NotFound before validation; invalid fields change nothing; otherwise only that post's title, content and author change, and its key, the comments and every other row stay |
| Handlers.DeletePost | app.py:145-150 | an unknown post is NotFound; otherwise the post and exactly the comments on it are removed, and everything else stays |
| Handlers.AddComment | app.py:153-166 | an unknown post is NotFound before the body is checked; an empty stripped body writes nothing; otherwise exactly one comment on that post is added |
| Handlers.DeleteUser | app.py:200-207 | an unknown user is NotFound; otherwise the user, exactly the posts with that `user_id` and exactly the comments with that `user_id` are removed |
| Handlers.Seed | app.py:169-189 | with any user present nothing changes; otherwise the two users become the only users, and two posts and one comment are added that point at the freshly created users and post |
| Handlers.SeedIdempotent | app.py:170-172 | a second seed is skipped and changes nothing |
| Handlers.NewUserThenDuplicate | app.py:80-82 | a user just created is found by exact name, and creating it again is refused as a duplicate |
| Handlers.DeleteUserLeavesNoAuthoredRows | app.py:201-204 | after deleting a user, no user has that key and no post or comment names it as author |
| Handlers.DeleteUserLeavesDanglingComment | app.py:202-203 | a comment by another user on the deleted user's post survives, and its post is gone |
| Handlers.DeletePostRemovesForeignComment | app.py:146-148 | deleting a post on its own removes every comment on it, whoever wrote it |
| Handlers.NewPostKeepsDanglingAuthor | app.py:102-110 | a valid new post stores the author id sent on the form even when no user has that id |
| Handlers.EditPostKeepsDanglingAuthor | app.py:129-138 | a valid edit stores the author id sent on the form even when no user has that id |
| Handlers.AddCommentKeepsDanglingAuthor | app.py:156-164 | a valid comment stores the author id sent on the form even when no user has that id |
| Handlers.BlankAuthorIsAbsent | app.py:102 | an author field that was not sent and one sent empty lead to the same result in every handler, and the stored author is NULL |
| Handlers.DeletePostFixesTables | app.py:146-148 | any well-formed database holding exactly the rows that survive a post delete is the database the delete leaves |
| Handlers.DeleteUserFixesTables | app.py:201-204 | any well-formed database holding exactly the rows that survive a user delete is the database the delete leaves |
| Queries.Summary | app.py:48-66 | the home and analytics pages report the number of distinct rows in each table |
| Queries.SortByUsername | app.py:70 | ordering by username gives a permutation of the rows in ascending code-point order |
| Queries.UsersList | app.py:69-71 | the user list holds every user once, in strictly ascending username order: no later name sorts before or equal to an earlier one |
| Queries.PostsList | app.py:92-94 | the post list holds every post once, in strictly descending id order |
| Queries.PostDetails | app.py:117-120 | an unknown post gives the not-found page; otherwise the page shows that post, exactly its comments, and the sorted user list |
| Properties.SeedTwiceCounts | app.py:168-189 | on a database with no users, one seed adds 2 users, 2 posts and 1 comment to the counts, and a second seed changes none of them |
| Properties.SeedEmptyCounts | app.py:168-189 | seeding the empty database, once or twice, leaves 2 users, 2 posts and 1 comment |
| Properties.NewPostListedFirst | app.py:93 | a post just created is first in the post list |
| Properties.NewUserListed | app.py:70 | a user just created appears in the user list |
| Properties.CommentsSplit | app.py:29 | the comments on a post and the comments not on it together make up the comment table |
| Properties.DeletePostCounts | app.py:146-148 | deleting a post lowers the post count by one and the comment count by the number of its comments |
| App.Store.constructor | app.py:44-45 | the store opens on the rows already stored, which satisfy the store invariant |
| App.Store.NewUser | app.py:74-88 | performs `Handlers.NewUser` in place and keeps the store invariant |
| App.Store.NewPost | app.py:97-112 | performs `Handlers.NewPost` in place and keeps the store invariant |
| App.Store.EditPost | app.py:123-140 | assigns the post's title, content and author in place, with the effect of `Handlers.EditPost` |
| App.Store.DeletePost | app.py:145-150 | performs `Handlers.DeletePost` in place and keeps the store invariant |
| App.Store.AddComment | app.py:153-166 | performs `Handlers.AddComment` in place and keeps the store invariant |
| App.Store.DeleteUser | app.py:200-207 | runs the two bulk deletes and then deletes the user, with the effect of `Handlers.DeleteUser` |
| App.Store.Seed | app.py:169-189 | inserts users, then posts, then the comment, each phase using the keys the previous one assigned, with the effect of `Handlers.Seed` |

## Left out

- Flask routing, templates, `flash`, `redirect`/`url_for` and the 404 error
  page (app.py:191-193): each handler returns an `Outcome`, and the post page
  returns `None` for a missing post.
- The GET form pages of `new_user`, `new_post` and `edit_post` only render a
  template. The missing-post check of the `edit_post` form page is the same
  lookup that `PostDetails` and `EditPost` model.
- SQLAlchemy sessions, commits, lazy loading and bulk-delete session
  synchronisation: each handler is one atomic change. The seed's three
  commits form one change, because the model has no failure between them.
- SQLite foreign-key enforcement is off, so dangling references are allowed
  and the model does not forbid them. The `String(120)` and `String(200)`
  lengths are not enforced by SQLite and are not modelled.
- Tables.NextId: models the usual SQLite rowid rule (largest key plus one).
  SQLite's random choice of a key once the largest 64-bit key is used is not
  modelled, because keys are unbounded integers here.
- Conversion of the `user_id` form text to an integer, and the storage errors
  that a non-numeric value could raise: the field is modelled as absent,
  empty or an id.
- Storage-layer errors in general. The unique constraint on usernames cannot
  be violated through these handlers, because `new_user` checks first and the
  seed runs only on an empty user table.
- App configuration, the secret key, `db.create_all()` and `app.run`
  (app.py:5-10, 44-45, 195-196). The `delete_user` route is registered after
  `app.run` (app.py:199), so the route is missing when the file is run as a
  script. The model includes the handler as if the route were registered.
- Concurrency between requests: handlers run one at a time.
- Queries.PostDetails: states the post's comments by membership and not by
  order, because the relationship query has no ORDER BY.
