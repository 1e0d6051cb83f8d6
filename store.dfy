/** The database the blog's handlers write to, as an object whose three
    tables the write handlers change in place, one handler call at a time. */
module App {
  import opened Tables
  import opened Text
  import opened Schema
  import Handlers

  class Store {
    var users: seq<Row<User>>
    var posts: seq<Row<Post>>
    var comments: seq<Row<Comment>>

    function Snapshot(): Database
      reads this
    {
      Database(users, posts, comments)
    }

    ghost predicate Valid()
      reads this
    {
      WellFormed(Snapshot())
    }

    /** Opens the store on the rows the database file already holds. */
    constructor (initial: Database)
      requires WellFormed(initial)
      ensures Valid() && Snapshot() == initial
    {
      users, posts, comments := initial.users, initial.posts, initial.comments;
    }

    /** POST /users/new */
    method NewUser(username: Option<string>) returns (o: Outcome)
      requires Valid()
      modifies this
      ensures Valid()
      ensures Handlers.Step(o, Snapshot()) == Handlers.NewUser(old(Snapshot()), username)
    {
      var name := FormText(username);
      if name == [] {
        return ValidationError;
      }
      if UsernameTaken(users, name) {
        return Duplicate;
      }
      users := Insert(users, User(name));
      return Ok;
    }

    /** POST /posts/new */
    method NewPost(title: Option<string>, content: Option<string>, author: AuthorField) returns (o: Outcome)
      requires Valid()
      modifies this
      ensures Valid()
      ensures Handlers.Step(o, Snapshot()) == Handlers.NewPost(old(Snapshot()), title, content, author)
    {
      var t := FormText(title);
      var c := FormText(content);
      var userId := AuthorRef(author);
      if t == [] || c == [] {
        return ValidationError;
      }
      posts := Insert(posts, Post(t, c, userId));
      return Ok;
    }

    /** POST /posts/<id>/edit */
    method EditPost(postId: Id, title: Option<string>, content: Option<string>, author: AuthorField) returns (o: Outcome)
      requires Valid()
      modifies this
      ensures Valid()
      ensures Handlers.Step(o, Snapshot()) == Handlers.EditPost(old(Snapshot()), postId, title, content, author)
    {
      var found := IndexOf(posts, postId);
      if found.None? {
        return NotFound;
      }
      var i := found.value;
      var t := FormText(title);
      var c := FormText(content);
      var userId := AuthorRef(author);
      if t == [] || c == [] {
        return ValidationError;
      }
      var post := posts[i];
      post := post.(fields := post.fields.(title := t, content := c, userId := userId));
      posts := posts[i := post];
      return Ok;
    }

    /** POST /posts/<id>/delete */
    method DeletePost(postId: Id) returns (o: Outcome)
      requires Valid()
      modifies this
      ensures Valid()
      ensures Handlers.Step(o, Snapshot()) == Handlers.DeletePost(old(Snapshot()), postId)
    {
      var found := IndexOf(posts, postId);
      if found.None? {
        return NotFound;
      }
      var post := posts[found.value];
      comments := CommentsNotOn(comments, post.id);
      posts := Without(posts, post.id);
      return Ok;
    }

    /** POST /posts/<id>/comment */
    method AddComment(postId: Id, body: Option<string>, author: AuthorField) returns (o: Outcome)
      requires Valid()
      modifies this
      ensures Valid()
      ensures Handlers.Step(o, Snapshot()) == Handlers.AddComment(old(Snapshot()), postId, body, author)
    {
      var found := IndexOf(posts, postId);
      if found.None? {
        return NotFound;
      }
      var post := posts[found.value];
      var b := FormText(body);
      var userId := AuthorRef(author);
      if b == [] {
        return ValidationError;
      }
      comments := Insert(comments, Comment(b, post.id, userId));
      return Ok;
    }

    /** POST /users/<id>/delete */
    method DeleteUser(userId: Id) returns (o: Outcome)
      requires Valid()
      modifies this
      ensures Valid()
      ensures Handlers.Step(o, Snapshot()) == Handlers.DeleteUser(old(Snapshot()), userId)
    {
      var found := IndexOf(users, userId);
      if found.None? {
        return NotFound;
      }
      var user := users[found.value];
      posts := PostsNotBy(posts, user.id);
      comments := CommentsNotBy(comments, user.id);
      users := Without(users, user.id);
      return Ok;
    }

    /** GET /_seed_sample_data: three phases, each reading the keys the
        previous one assigned. */
    method Seed() returns (o: Outcome)
      requires Valid()
      modifies this
      ensures Valid()
      ensures Handlers.Step(o, Snapshot()) == Handlers.Seed(old(Snapshot()))
    {
      if users != [] {
        return Skipped;
      }
      users := Insert(users, Handlers.FirstUser);
      users := Insert(users, Handlers.SecondUser);
      var u1, u2 := users[0].id, users[1].id;

      var before := |posts|;
      posts := Insert(posts, Handlers.FirstPost(u2));
      posts := Insert(posts, Handlers.SecondPost(u1));
      var p1 := posts[before].id;

      comments := Insert(comments, Handlers.FirstComment(p1, u1));
      return Ok;
    }
  }
}
