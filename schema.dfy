/** The three tables of the blog, the store invariant they keep, and how a
    handler reads its form fields. */
module Schema {
  import opened Tables
  import opened Text

  /** A row of the `user` table; `username` is declared unique. */
  datatype User = User(username: string)

  /** A row of the `post` table; `userId` is the nullable author reference. */
  datatype Post = Post(title: string, content: string, userId: Option<Id>)

  /** A row of the `comment` table; `postId` is required, `userId` nullable. */
  datatype Comment = Comment(body: string, postId: Id, userId: Option<Id>)

  datatype Database = Database(
    users: seq<Row<User>>,
    posts: seq<Row<Post>>,
    comments: seq<Row<Comment>>)

  predicate UniqueUsernames(users: seq<Row<User>>) {
    forall i, j :: 0 <= i < j < |users| ==> users[i].fields.username != users[j].fields.username
  }

  /** What every handler keeps: each table holds distinct keys in ascending
      order, and no username is used twice. Foreign keys are NOT part of it:
      SQLite does not enforce them here and the handlers do not check them. */
  predicate WellFormed(d: Database) {
    && IdsAscending(d.users)
    && IdsAscending(d.posts)
    && IdsAscending(d.comments)
    && UniqueUsernames(d.users)
  }

  /** What a write handler reports in place of its flash message and redirect. */
  datatype Outcome = Ok | ValidationError | Duplicate | NotFound | Skipped

  /** A text field: `request.form.get(name, "").strip()`, where a field the
      form did not send reads as the empty string. */
  function FormText(field: Option<string>): (r: string)
    ensures r == [] <==> field.None? || AllSpace(field.value)
    ensures field.Some? ==> r == Trim(field.value)
  {
    match field
    case None => []
    case Some(s) => Trim(s)
  }

  /** The `user_id` field: not sent, sent empty, or naming an id. */
  datatype AuthorField = Absent | Blank | Chosen(id: Id)

  /** `request.form.get("user_id") or None`: a missing or empty field stores
      NULL; any id is passed through without checking that the user exists. */
  function AuthorRef(field: AuthorField): (r: Option<Id>)
    ensures r.None? <==> !field.Chosen?
    ensures field.Chosen? ==> r == Some(field.id)
  {
    if field.Chosen? then Some(field.id) else None
  }

  /** `User.query.filter_by(username=name).first()` finds a row: the scan
      stops at the first row whose username matches exactly, case and
      whitespace included. */
  predicate UsernameTaken(users: seq<Row<User>>, name: string): (b: bool)
    ensures b <==> exists i :: 0 <= i < |users| && users[i].fields.username == name
  {
    users != [] && (users[0].fields.username == name || UsernameTaken(users[1..], name))
  }

  /** The posts `Post.query.filter_by(user_id=userId).delete()` leaves. */
  function PostsNotBy(posts: seq<Row<Post>>, userId: Id): (r: seq<Row<Post>>)
    ensures forall p :: p in r <==> p in posts && p.fields.userId != Some(userId)
    ensures IdsAscending(posts) ==> IdsAscending(r)
  {
    Filter(posts, (p: Row<Post>) => p.fields.userId != Some(userId))
  }

  /** The comments `Comment.query.filter_by(user_id=userId).delete()` leaves. */
  function CommentsNotBy(comments: seq<Row<Comment>>, userId: Id): (r: seq<Row<Comment>>)
    ensures forall c :: c in r <==> c in comments && c.fields.userId != Some(userId)
    ensures IdsAscending(comments) ==> IdsAscending(r)
  {
    Filter(comments, (c: Row<Comment>) => c.fields.userId != Some(userId))
  }

  /** The comments on post `postId`: the `Post.comments` relationship. */
  function CommentsOn(comments: seq<Row<Comment>>, postId: Id): (r: seq<Row<Comment>>)
    ensures forall c :: c in r <==> c in comments && c.fields.postId == postId
    ensures IdsAscending(comments) ==> IdsAscending(r)
  {
    Filter(comments, (c: Row<Comment>) => c.fields.postId == postId)
  }

  /** The comments the delete-orphan cascade of `Post.comments` leaves when
      post `postId` is deleted. */
  function CommentsNotOn(comments: seq<Row<Comment>>, postId: Id): (r: seq<Row<Comment>>)
    ensures forall c :: c in r <==> c in comments && c.fields.postId != postId
    ensures IdsAscending(comments) ==> IdsAscending(r)
  {
    Filter(comments, (c: Row<Comment>) => c.fields.postId != postId)
  }
}
