/** What each write handler of the blog does to the three tables, stated on
    database values: the outcome it reports and the database it leaves.
    The `Store` class in module `App` performs the same changes in place. */
module Handlers {
  import opened Tables
  import opened Text
  import opened Schema

  datatype Step = Step(outcome: Outcome, db: Database)

  /** POST /users/new: a stripped, non-empty username that no user has yet
      becomes one new user; anything else is refused and writes nothing. */
  function NewUser(d: Database, username: Option<string>): (r: Step)
    requires WellFormed(d)
    ensures WellFormed(r.db)
    ensures var name := FormText(username);
      && (r.outcome == ValidationError <==> name == [])
      && (r.outcome == Duplicate <==> name != [] && UsernameTaken(d.users, name))
      && (r.outcome == Ok <==> name != [] && !UsernameTaken(d.users, name))
      && (r.outcome != Ok ==> r.db == d)
      && (r.outcome == Ok ==>
            && AddsRow(d.users, r.db.users, User(name))
            && r.db.posts == d.posts
            && r.db.comments == d.comments)
  {
    var name := FormText(username);
    if name == [] then Step(ValidationError, d)
    else if UsernameTaken(d.users, name) then Step(Duplicate, d)
    else Step(Ok, d.(users := Insert(d.users, User(name))))
  }

  /** POST /posts/new: a post needs a title and content that are non-empty
      once stripped; its author is whatever the form names, unchecked. */
  function NewPost(d: Database, title: Option<string>, content: Option<string>, author: AuthorField): (r: Step)
    requires WellFormed(d)
    ensures WellFormed(r.db)
    ensures var t, c := FormText(title), FormText(content);
      && (r.outcome == ValidationError <==> t == [] || c == [])
      && (r.outcome == Ok <==> t != [] && c != [])
      && (r.outcome != Ok ==> r.db == d)
      && (r.outcome == Ok ==>
            && AddsRow(d.posts, r.db.posts, Post(t, c, AuthorRef(author)))
            && r.db.users == d.users
            && r.db.comments == d.comments)
  {
    var t, c := FormText(title), FormText(content);
    if t == [] || c == [] then Step(ValidationError, d)
    else Step(Ok, d.(posts := Insert(d.posts, Post(t, c, AuthorRef(author)))))
  }

  /** POST /posts/<id>/edit: a missing post is NotFound before the form is
      looked at; a valid form overwrites that post's title, content and
      author in place and nothing else. */
  function EditPost(d: Database, postId: Id, title: Option<string>, content: Option<string>, author: AuthorField): (r: Step)
    requires WellFormed(d)
    ensures WellFormed(r.db)
    ensures var t, c := FormText(title), FormText(content);
      && (r.outcome == NotFound <==> !HasId(d.posts, postId))
      && (r.outcome == ValidationError <==> HasId(d.posts, postId) && (t == [] || c == []))
      && (r.outcome == Ok <==> HasId(d.posts, postId) && t != [] && c != [])
      && (r.outcome != Ok ==> r.db == d)
      && (r.outcome == Ok ==>
            && r.db.users == d.users
            && r.db.comments == d.comments
            && |r.db.posts| == |d.posts|
            && forall i :: 0 <= i < |d.posts| ==>
                 r.db.posts[i] == if d.posts[i].id == postId
                                  then Row(postId, Post(t, c, AuthorRef(author)))
                                  else d.posts[i])
  {
    match IndexOf(d.posts, postId)
    case None => Step(NotFound, d)
    case Some(i) =>
      var t, c := FormText(title), FormText(content);
      if t == [] || c == [] then Step(ValidationError, d)
      else
        assert forall j :: 0 <= j < |d.posts| && j != i ==> d.posts[j].id != postId;
        Step(Ok, d.(posts := d.posts[i := Row(postId, Post(t, c, AuthorRef(author)))]))
  }

  /** POST /posts/<id>/delete: the post goes, and with it, through the
      delete-orphan cascade of `Post.comments`, every comment on it. */
  function DeletePost(d: Database, postId: Id): (r: Step)
    requires WellFormed(d)
    ensures WellFormed(r.db)
    ensures r.outcome == NotFound <==> !HasId(d.posts, postId)
    ensures r.outcome == Ok <==> HasId(d.posts, postId)
    ensures r.outcome != Ok ==> r.db == d
    ensures r.outcome == Ok ==>
      && r.db.users == d.users
      && (forall p :: p in r.db.posts <==> p in d.posts && p.id != postId)
      && (forall c :: c in r.db.comments <==> c in d.comments && c.fields.postId != postId)
      && |r.db.posts| == |d.posts| - 1
  {
    match IndexOf(d.posts, postId)
    case None => Step(NotFound, d)
    case Some(i) =>
      WithoutLength(d.posts, postId);
      Step(Ok, d.(posts := Without(d.posts, postId), comments := CommentsNotOn(d.comments, postId)))
  }

  /** POST /posts/<id>/comment: a missing post is NotFound before the body
      is looked at; a non-empty stripped body becomes one comment on it. */
  function AddComment(d: Database, postId: Id, body: Option<string>, author: AuthorField): (r: Step)
    requires WellFormed(d)
    ensures WellFormed(r.db)
    ensures var b := FormText(body);
      && (r.outcome == NotFound <==> !HasId(d.posts, postId))
      && (r.outcome == ValidationError <==> HasId(d.posts, postId) && b == [])
      && (r.outcome == Ok <==> HasId(d.posts, postId) && b != [])
      && (r.outcome != Ok ==> r.db == d)
      && (r.outcome == Ok ==>
            && AddsRow(d.comments, r.db.comments, Comment(b, postId, AuthorRef(author)))
            && r.db.users == d.users
            && r.db.posts == d.posts)
  {
    match IndexOf(d.posts, postId)
    case None => Step(NotFound, d)
    case Some(i) =>
      var b := FormText(body);
      if b == [] then Step(ValidationError, d)
      else Step(Ok, d.(comments := Insert(d.comments, Comment(b, d.posts[i].id, AuthorRef(author)))))
  }

  /** POST /users/<id>/delete: the two bulk deletes select the posts and the
      comments whose own `user_id` is the user's, then the user goes. The
      selection is by author only: a comment by someone else on one of the
      user's posts is not selected and stays. */
  function DeleteUser(d: Database, userId: Id): (r: Step)
    requires WellFormed(d)
    ensures WellFormed(r.db)
    ensures r.outcome == NotFound <==> !HasId(d.users, userId)
    ensures r.outcome == Ok <==> HasId(d.users, userId)
    ensures r.outcome != Ok ==> r.db == d
    ensures r.outcome == Ok ==>
      && (forall u :: u in r.db.users <==> u in d.users && u.id != userId)
      && (forall p :: p in r.db.posts <==> p in d.posts && p.fields.userId != Some(userId))
      && (forall c :: c in r.db.comments <==> c in d.comments && c.fields.userId != Some(userId))
      && |r.db.users| == |d.users| - 1
  {
    match IndexOf(d.users, userId)
    case None => Step(NotFound, d)
    case Some(i) =>
      WithoutLength(d.users, userId);
      Step(Ok, Database(Without(d.users, userId), PostsNotBy(d.posts, userId), CommentsNotBy(d.comments, userId)))
  }

  /** The demonstration rows, with the second username stored as written,
      leading space included. */
  const FirstUser := User("Kaden")
  const SecondUser := User(" Ben")
  function FirstPost(author: Id): Post {
    Post("Welcome to Ben's blog site", "This is the first post.", Some(author))
  }
  function SecondPost(author: Id): Post {
    Post("About the project", "This project is built with Flask.", Some(author))
  }
  function FirstComment(post: Id, author: Id): Comment {
    Comment("Nice work!", post, Some(author))
  }

  /** `e` is `d` after seeding: the two users are the only users; two posts
      and a comment follow the existing rows, each pointing at the rows the
      seed has just created. */
  ghost predicate Seeded(d: Database, e: Database) {
    var np, nc := |d.posts|, |d.comments|;
    && |e.users| == 2
    && e.users[0].fields == FirstUser
    && e.users[1].fields == SecondUser
    && |e.posts| == np + 2
    && e.posts[..np] == d.posts
    && e.posts[np].fields == FirstPost(e.users[1].id)
    && e.posts[np + 1].fields == SecondPost(e.users[0].id)
    && |e.comments| == nc + 1
    && e.comments[..nc] == d.comments
    && e.comments[nc].fields == FirstComment(e.posts[np].id, e.users[0].id)
  }

  /** GET /_seed_sample_data: skipped as soon as any user exists; otherwise
      two users, then two posts, then one comment. */
  function Seed(d: Database): (r: Step)
    requires WellFormed(d)
    ensures WellFormed(r.db)
    ensures r.outcome == Skipped <==> d.users != []
    ensures r.outcome == Ok <==> d.users == []
    ensures r.outcome != Ok ==> r.db == d
    ensures r.outcome == Ok ==> Seeded(d, r.db)
  {
    if d.users != [] then Step(Skipped, d)
    else
      var users := Insert(Insert(d.users, FirstUser), SecondUser);
      var u1, u2 := users[0].id, users[1].id;
      var posts := Insert(Insert(d.posts, FirstPost(u2)), SecondPost(u1));
      var p1 := posts[|d.posts|].id;
      var comments := Insert(d.comments, FirstComment(p1, u1));
      Step(Ok, Database(users, posts, comments))
  }

  /** The author named on the new-post form is stored as given, even when no
      user has that key: the handler never looks the id up. */
  lemma NewPostKeepsDanglingAuthor(d: Database, title: string, content: string, id: Id)
    requires WellFormed(d) && !HasId(d.users, id)
    requires !AllSpace(title) && !AllSpace(content)
    ensures var r := NewPost(d, Some(title), Some(content), Chosen(id));
      && r.outcome == Ok
      && r.db.posts[|d.posts|].fields.userId == Some(id)
      && !HasId(r.db.users, id)
  {
  }

  /** The same holds for the edit form: a valid edit of an existing post
      stores whatever author id was sent. */
  lemma EditPostKeepsDanglingAuthor(d: Database, postId: Id, title: string, content: string, id: Id)
    requires WellFormed(d) && HasId(d.posts, postId) && !HasId(d.users, id)
    requires !AllSpace(title) && !AllSpace(content)
    ensures var r := EditPost(d, postId, Some(title), Some(content), Chosen(id));
      && r.outcome == Ok
      && (exists i :: 0 <= i < |r.db.posts| && r.db.posts[i].id == postId && r.db.posts[i].fields.userId == Some(id))
      && !HasId(r.db.users, id)
  {
    var i := IndexOf(d.posts, postId).value;
    assert EditPost(d, postId, Some(title), Some(content), Chosen(id)).db.posts[i].fields.userId == Some(id);
  }

  /** And for the comment form: a comment's author id is not looked up. */
  lemma AddCommentKeepsDanglingAuthor(d: Database, postId: Id, body: string, id: Id)
    requires WellFormed(d) && HasId(d.posts, postId) && !HasId(d.users, id)
    requires !AllSpace(body)
    ensures var r := AddComment(d, postId, Some(body), Chosen(id));
      && r.outcome == Ok
      && r.db.comments[|d.comments|].fields.userId == Some(id)
      && !HasId(r.db.users, id)
  {
  }

  /** An author field that was not sent and one sent empty both store NULL:
      every write handler that takes an author treats them alike. */
  lemma BlankAuthorIsAbsent(d: Database, postId: Id, title: Option<string>, content: Option<string>)
    requires WellFormed(d)
    ensures NewPost(d, title, content, Blank) == NewPost(d, title, content, Absent)
    ensures EditPost(d, postId, title, content, Blank) == EditPost(d, postId, title, content, Absent)
    ensures AddComment(d, postId, content, Blank) == AddComment(d, postId, content, Absent)
    ensures NewPost(d, title, content, Blank).outcome == Ok ==>
      NewPost(d, title, content, Blank).db.posts[|d.posts|].fields.userId == None
    ensures AddComment(d, postId, content, Blank).outcome == Ok ==>
      AddComment(d, postId, content, Blank).db.comments[|d.comments|].fields.userId == None
  {
  }

  /** The membership clauses of `DeletePost` fix its result exactly: any
      well-formed database with those rows is the one it returns. */
  lemma DeletePostFixesTables(d: Database, postId: Id, e: Database)
    requires WellFormed(d) && HasId(d.posts, postId) && WellFormed(e)
    requires e.users == d.users
    requires forall p :: p in e.posts <==> p in d.posts && p.id != postId
    requires forall c :: c in e.comments <==> c in d.comments && c.fields.postId != postId
    ensures DeletePost(d, postId) == Step(Ok, e)
  {
    var r := DeletePost(d, postId).db;
    SameRowsSameTable(e.posts, r.posts);
    SameRowsSameTable(e.comments, r.comments);
  }

  /** Likewise the membership clauses of `DeleteUser` fix its result. */
  lemma DeleteUserFixesTables(d: Database, userId: Id, e: Database)
    requires WellFormed(d) && HasId(d.users, userId) && WellFormed(e)
    requires forall u :: u in e.users <==> u in d.users && u.id != userId
    requires forall p :: p in e.posts <==> p in d.posts && p.fields.userId != Some(userId)
    requires forall c :: c in e.comments <==> c in d.comments && c.fields.userId != Some(userId)
    ensures DeleteUser(d, userId) == Step(Ok, e)
  {
    var r := DeleteUser(d, userId).db;
    SameRowsSameTable(e.users, r.users);
    SameRowsSameTable(e.posts, r.posts);
    SameRowsSameTable(e.comments, r.comments);
  }

  /** Seeding a second time changes nothing, whatever the first call did. */
  lemma SeedIdempotent(d: Database)
    requires WellFormed(d)
    ensures Seed(Seed(d).db) == Step(Skipped, Seed(d).db)
  {
  }

  /** A user created once is found by exact name afterwards, and creating it
      again is refused as a duplicate. */
  lemma NewUserThenDuplicate(d: Database, username: Option<string>)
    requires WellFormed(d) && NewUser(d, username).outcome == Ok
    ensures UsernameTaken(NewUser(d, username).db.users, FormText(username))
    ensures NewUser(NewUser(d, username).db, username) == Step(Duplicate, NewUser(d, username).db)
  {
  }

  /** After a user is deleted no row names that user as its author. */
  lemma DeleteUserLeavesNoAuthoredRows(d: Database, userId: Id)
    requires WellFormed(d) && HasId(d.users, userId)
    ensures var e := DeleteUser(d, userId).db;
      && !HasId(e.users, userId)
      && (forall p :: p in e.posts ==> p.fields.userId != Some(userId))
      && (forall c :: c in e.comments ==> c.fields.userId != Some(userId))
  {
  }

  /** The bulk deletes do not reach comments by other users on the deleted
      user's posts: such a comment survives while its post is gone, so its
      `post_id` names no post. */
  lemma DeleteUserLeavesDanglingComment(d: Database, userId: Id, c: Row<Comment>)
    requires WellFormed(d) && HasId(d.users, userId)
    requires c in d.comments && c.fields.userId != Some(userId)
    requires exists p :: p in d.posts && p.id == c.fields.postId && p.fields.userId == Some(userId)
    ensures var e := DeleteUser(d, userId).db;
      c in e.comments && !HasId(e.posts, c.fields.postId)
  {
  }

  /** The same comment is removed when its post is deleted on its own:
      deleting the user and deleting the user's post disagree about it. */
  lemma DeletePostRemovesForeignComment(d: Database, c: Row<Comment>)
    requires WellFormed(d) && c in d.comments && HasId(d.posts, c.fields.postId)
    ensures c !in DeletePost(d, c.fields.postId).db.comments
  {
  }
}
