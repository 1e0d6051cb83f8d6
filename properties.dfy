/** What the pages show after the write handlers run: the relations between
    the handlers of module `Handlers` and the reads of module `Queries`. */
module Properties {
  import opened Tables
  import opened Text
  import opened Schema
  import opened Handlers
  import opened Queries

  /** On a database with no users, one seed adds 2 users, 2 posts and 1
      comment to the counts, and a second seed adds nothing. */
  lemma SeedTwiceCounts(d: Database)
    requires WellFormed(d) && d.users == []
    ensures Summary(Seed(Seed(d).db).db) == Summary(Seed(d).db) == Counts(|d.posts| + 2, 2, |d.comments| + 1)
  {
  }

  /** On the empty database that leaves 2 users, 2 posts and 1 comment. */
  lemma SeedEmptyCounts()
    ensures Summary(Seed(Database([], [], [])).db) == Counts(2, 2, 1)
    ensures Summary(Seed(Seed(Database([], [], [])).db).db) == Counts(2, 2, 1)
  {
    SeedTwiceCounts(Database([], [], []));
  }

  /** A post just created has the highest id, so the post list shows it
      first. */
  lemma NewPostListedFirst(d: Database, title: Option<string>, content: Option<string>, author: AuthorField)
    requires WellFormed(d) && NewPost(d, title, content, author).outcome == Ok
    ensures var e := NewPost(d, title, content, author).db;
      && PostsList(e) != []
      && PostsList(e)[0] == e.posts[|d.posts|]
      && PostsList(e)[0].fields == Post(FormText(title), FormText(content), AuthorRef(author))
  {
  }

  /** A user just created is on the user list. */
  lemma NewUserListed(d: Database, username: Option<string>)
    requires WellFormed(d) && NewUser(d, username).outcome == Ok
    ensures var e := NewUser(d, username).db;
      exists i :: 0 <= i < |UsersList(e)| && UsersList(e)[i].fields.username == FormText(username)
  {
    var e := NewUser(d, username).db;
    var u := e.users[|d.users|];
    assert u in multiset(e.users);
    assert u in multiset(UsersList(e));
    var i :| 0 <= i < |UsersList(e)| && UsersList(e)[i] == u;
  }

  /** The comments on a post and the comments not on it split the table. */
  lemma {:induction false} CommentsSplit(cs: seq<Row<Comment>>, postId: Id)
    ensures |CommentsOn(cs, postId)| + |CommentsNotOn(cs, postId)| == |cs|
  {
    if cs != [] {
      CommentsSplit(cs[1..], postId);
    }
  }

  /** Deleting a post lowers the post count by one and the comment count by
      the number of comments the post page listed. */
  lemma DeletePostCounts(d: Database, postId: Id)
    requires WellFormed(d) && HasId(d.posts, postId)
    ensures var e := DeletePost(d, postId).db;
      && Summary(e).posts == Summary(d).posts - 1
      && Summary(e).users == Summary(d).users
      && Summary(e).comments == Summary(d).comments - |PostDetails(d, postId).value.comments|
  {
    var e := DeletePost(d, postId).db;
    IdsCount(d.posts);
    IdsCount(e.posts);
    IdsCount(d.users);
    IdsCount(d.comments);
    IdsCount(e.comments);
    CommentsSplit(d.comments, postId);
    assert e.comments == CommentsNotOn(d.comments, postId);
  }
}
