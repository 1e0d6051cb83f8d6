/** The read handlers of the blog: the table counts, the two listings and the
    post detail page, as functions of the database. */
module Queries {
  import opened Tables
  import opened Text
  import opened Schema

  /** The three counts the home page and the analytics page both show. */
  datatype Counts = Counts(posts: nat, users: nat, comments: nat)

  /** GET / and GET /analytics: `COUNT(*)` of each table, which is the number
      of distinct keys in it. */
  function Summary(d: Database): (r: Counts)
    requires WellFormed(d)
    ensures r.posts == |Ids(d.posts)|
    ensures r.users == |Ids(d.users)|
    ensures r.comments == |Ids(d.comments)|
  {
    IdsCount(d.posts);
    IdsCount(d.users);
    IdsCount(d.comments);
    Counts(|d.posts|, |d.users|, |d.comments|)
  }

  predicate SortedByUsername(s: seq<Row<User>>) {
    forall i, j :: 0 <= i < j < |s| ==> NotAfter(s[i].fields.username, s[j].fields.username)
  }

  /** Places `u` before the first row whose username sorts after it. */
  function InsertByUsername(u: Row<User>, s: seq<Row<User>>): (r: seq<Row<User>>)
    requires SortedByUsername(s)
    ensures SortedByUsername(r)
    ensures multiset(r) == multiset(s) + multiset{u}
  {
    if s == [] || NotAfter(u.fields.username, s[0].fields.username) then
      InsertAtFront(u, s);
      [u] + s
    else
      var rest := InsertByUsername(u, s[1..]);
      NotAfterTotal(u.fields.username, s[0].fields.username);
      assert s == [s[0]] + s[1..];
      SortedCons(s[0], rest, multiset(s[1..]) + multiset{u});
      [s[0]] + rest
  }

  lemma InsertAtFront(u: Row<User>, s: seq<Row<User>>)
    requires SortedByUsername(s)
    requires s == [] || NotAfter(u.fields.username, s[0].fields.username)
    ensures SortedByUsername([u] + s)
  {
    var r := [u] + s;
    forall i, j | 0 <= i < j < |r| ensures NotAfter(r[i].fields.username, r[j].fields.username) {
      if i == 0 && j > 1 {
        NotAfterTransitive(u.fields.username, s[0].fields.username, s[j - 1].fields.username);
      }
    }
  }

  /** A head that sorts no later than every element of a sorted tail keeps
      the sequence sorted. */
  lemma SortedCons(h: Row<User>, rest: seq<Row<User>>, m: multiset<Row<User>>)
    requires SortedByUsername(rest) && multiset(rest) == m
    requires forall x :: x in m ==> NotAfter(h.fields.username, x.fields.username)
    ensures SortedByUsername([h] + rest)
  {
  }

  /** `ORDER BY username`: the rows in ascending username order. */
  function SortByUsername(s: seq<Row<User>>): (r: seq<Row<User>>)
    ensures SortedByUsername(r)
    ensures multiset(r) == multiset(s)
  {
    if s == [] then []
    else
      assert s == [s[0]] + s[1..];
      InsertByUsername(s[0], SortByUsername(s[1..]))
  }

  /** GET /users: every user, once, in strictly ascending username order
      (strictly, because usernames are unique): a later row's name never
      sorts before or equal to an earlier one's. */
  function UsersList(d: Database): (r: seq<Row<User>>)
    requires WellFormed(d)
    ensures multiset(r) == multiset(d.users)
    ensures forall i, j :: 0 <= i < j < |r| ==>
      && NotAfter(r[i].fields.username, r[j].fields.username)
      && r[i].fields.username != r[j].fields.username
      && !NotAfter(r[j].fields.username, r[i].fields.username)
  {
    var r := SortByUsername(d.users);
    UniqueAfterSort(d.users, r);
    forall i, j | 0 <= i < j < |r| ensures !NotAfter(r[j].fields.username, r[i].fields.username) {
      if NotAfter(r[j].fields.username, r[i].fields.username) {
        NotAfterAntisymmetric(r[i].fields.username, r[j].fields.username);
      }
    }
    r
  }

  lemma UniqueAfterSort(s: seq<Row<User>>, r: seq<Row<User>>)
    requires UniqueUsernames(s) && IdsAscending(s) && multiset(r) == multiset(s)
    ensures UniqueUsernames(r)
  {
    forall i, j | 0 <= i < j < |r| ensures r[i].fields.username != r[j].fields.username {
      assert r[i] in multiset(s) && r[j] in multiset(s);
      var a :| 0 <= a < |s| && s[a] == r[i];
      var b :| 0 <= b < |s| && s[b] == r[j];
      OccursOnce(s, a);
      DistinctPositions(r, i, j);
      assert a != b;
    }
  }

  /** Rows with distinct keys are distinct rows: each occurs once. */
  lemma OccursOnce(s: seq<Row<User>>, a: nat)
    requires IdsAscending(s) && a < |s|
    ensures multiset(s)[s[a]] == 1
  {
    var x := s[a];
    assert s == s[..a] + [x] + s[a + 1..];
    assert x !in s[..a] by {
      forall k | 0 <= k < a ensures s[..a][k] != x { assert s[k].id < x.id; }
    }
    var tail := s[a + 1..];
    assert x !in tail by {
      forall m | 0 <= m < |tail| ensures tail[m] != x {
        assert tail[m] == s[a + 1 + m];
      }
    }
    assert multiset(s) == multiset(s[..a]) + multiset{x} + multiset(s[a + 1..]);
  }

  /** A row that occurs once in the source table occurs once in the
      listing, so two positions of the listing hold different rows. */
  lemma DistinctPositions(r: seq<Row<User>>, i: nat, j: nat)
    requires i < j < |r|
    ensures multiset(r)[r[i]] >= (if r[i] == r[j] then 2 else 1)
  {
    var x := r[i];
    assert r == r[..i] + [r[i]] + r[i + 1..];
    assert multiset(r) == multiset(r[..i]) + multiset{x} + multiset(r[i + 1..]);
    if x == r[j] {
      assert r[j] in r[i + 1..] by { assert r[i + 1..][j - i - 1] == r[j]; }
    }
  }

  /** GET /posts: every post, once, newest (highest id) first. A rowid table
      read backwards is in descending key order. */
  function PostsList(d: Database): (r: seq<Row<Post>>)
    requires WellFormed(d)
    ensures |r| == |d.posts|
    ensures forall p :: p in r <==> p in d.posts
    ensures forall i, j :: 0 <= i < j < |r| ==> r[i].id > r[j].id
  {
    var r := seq(|d.posts|, i requires 0 <= i < |d.posts| => d.posts[|d.posts| - 1 - i]);
    assert forall p :: p in d.posts ==> p in r by {
      forall p | p in d.posts ensures p in r {
        var k :| 0 <= k < |d.posts| && d.posts[k] == p;
        assert r[|d.posts| - 1 - k] == p;
      }
    }
    r
  }

  /** What the post page shows: the post, its comments, and the user list
      offered for a new comment's author. */
  datatype Details = Details(post: Row<Post>, comments: seq<Row<Comment>>, users: seq<Row<User>>)

  /** GET /posts/<id>: None is the 404 page. */
  function PostDetails(d: Database, postId: Id): (r: Option<Details>)
    requires WellFormed(d)
    ensures r.None? <==> !HasId(d.posts, postId)
    ensures r.Some? ==>
      && r.value.post in d.posts
      && r.value.post.id == postId
      && (forall c :: c in r.value.comments <==> c in d.comments && c.fields.postId == postId)
      && r.value.users == UsersList(d)
  {
    match IndexOf(d.posts, postId)
    case None => None
    case Some(i) =>
      Some(Details(d.posts[i], CommentsOn(d.comments, postId), UsersList(d)))
  }
}
