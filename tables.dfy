/** A table of the relational store: rows with an integer primary key, kept
    in ascending key order as SQLite keeps a rowid table. */
module Tables {

  datatype Option<T> = None | Some(value: T)

  type Id = nat

  /** One row: its integer primary key and its other columns. */
  datatype Row<T> = Row(id: Id, fields: T)

  /** Keys strictly ascend, so no key is used twice. */
  predicate IdsAscending<T>(t: seq<Row<T>>) {
    forall i, j :: 0 <= i < j < |t| ==> t[i].id < t[j].id
  }

  predicate HasId<T>(t: seq<Row<T>>, id: Id) {
    exists i :: 0 <= i < |t| && t[i].id == id
  }

  /** The set of keys in use. */
  function Ids<T>(t: seq<Row<T>>): set<Id> {
    set i | 0 <= i < |t| :: t[i].id
  }

  /** The key an insert is given: one more than the largest key in use, and
      1 in an empty table. It is fresh and above every key in use. */
  function NextId<T>(t: seq<Row<T>>): (id: Id)
    requires IdsAscending(t)
    ensures 0 < id && !HasId(t, id)
    ensures forall i :: 0 <= i < |t| ==> t[i].id < id
  {
    if t == [] then 1 else t[|t| - 1].id + 1
  }

  /** `after` is `before` with one more row, holding `f` under a fresh key. */
  ghost predicate AddsRow<T>(before: seq<Row<T>>, after: seq<Row<T>>, f: T) {
    && |after| == |before| + 1
    && after[..|before|] == before
    && after[|before|].fields == f
    && !HasId(before, after[|before|].id)
  }

  /** An INSERT of the columns `f`. */
  function Insert<T>(t: seq<Row<T>>, f: T): (r: seq<Row<T>>)
    requires IdsAscending(t)
    ensures IdsAscending(r)
    ensures AddsRow(t, r, f)
    ensures forall i :: 0 <= i < |t| ==> t[i].id < r[|t|].id
  {
    t + [Row(NextId(t), f)]
  }

  /** Where the row with key `id` sits, if there is one. */
  function IndexOf<T>(t: seq<Row<T>>, id: Id): (r: Option<nat>)
    ensures r.Some? ==> r.value < |t| && t[r.value].id == id
    ensures r.None? <==> !HasId(t, id)
  {
    if t == [] then None
    else if t[0].id == id then Some(0)
    else match IndexOf(t[1..], id)
      case None => None
      case Some(i) => Some(i + 1)
  }

  /** The rows `keep` accepts, in their order: what remains after a DELETE
      of the rows it rejects. */
  function Filter<T(!new)>(t: seq<Row<T>>, keep: Row<T> -> bool): (r: seq<Row<T>>)
    ensures |r| <= |t|
    ensures forall x :: x in r <==> x in t && keep(x)
    ensures IdsAscending(t) ==> IdsAscending(r)
  {
    if t == [] then []
    else
      var rest := Filter(t[1..], keep);
      assert forall x :: x in t <==> x == t[0] || x in t[1..];
      HeadBelowRest(t, rest);
      if keep(t[0]) then [t[0]] + rest else rest
  }

  lemma HeadBelowRest<T>(t: seq<Row<T>>, rest: seq<Row<T>>)
    requires t != [] && forall x :: x in rest ==> x in t[1..]
    ensures IdsAscending(t) && IdsAscending(rest) ==> IdsAscending([t[0]] + rest)
  {
    if IdsAscending(t) && IdsAscending(rest) {
      forall k | 0 <= k < |rest| ensures t[0].id < rest[k].id {
        assert rest[k] in t[1..];
        var j :| 0 <= j < |t[1..]| && t[1..][j] == rest[k];
        assert t[j + 1] == rest[k];
      }
    }
  }

  /** The table without the row whose key is `id`. */
  function Without<T(!new)>(t: seq<Row<T>>, id: Id): (r: seq<Row<T>>)
    ensures forall x :: x in r <==> x in t && x.id != id
    ensures IdsAscending(t) ==> IdsAscending(r)
  {
    Filter(t, (x: Row<T>) => x.id != id)
  }

  /** Deleting a key that is in use removes exactly one row. */
  lemma {:induction false} WithoutLength<T(!new)>(t: seq<Row<T>>, id: Id)
    requires IdsAscending(t) && HasId(t, id)
    ensures |Without(t, id)| == |t| - 1
  {
    if t[0].id == id {
      WithoutAbsent(t[1..], id);
    } else {
      WithoutLength(t[1..], id);
    }
  }

  lemma {:induction false} WithoutAbsent<T(!new)>(t: seq<Row<T>>, id: Id)
    requires !HasId(t, id)
    ensures Without(t, id) == t
  {
    if t != [] {
      WithoutAbsent(t[1..], id);
      assert t == [t[0]] + t[1..];
    }
  }

  /** A table is fixed by its rows: two tables with ascending keys that hold
      the same rows are the same sequence, order and multiplicity included. */
  lemma {:induction false} SameRowsSameTable<T>(a: seq<Row<T>>, b: seq<Row<T>>)
    requires IdsAscending(a) && IdsAscending(b)
    requires forall x :: x in a <==> x in b
    ensures a == b
  {
    if a == [] {
      FirstRowIn(b);
    } else {
      assert a[0] in b && b != [];
      assert b[0] in a;
      var k :| 0 <= k < |b| && b[k] == a[0];
      var m :| 0 <= m < |a| && a[m] == b[0];
      assert k == 0;
      forall x ensures x in a[1..] <==> x in b[1..] {
        RestIsOthers(a, x);
        RestIsOthers(b, x);
      }
      SameRowsSameTable(a[1..], b[1..]);
      assert a == [a[0]] + a[1..];
      assert b == [b[0]] + b[1..];
    }
  }

  lemma FirstRowIn<T>(t: seq<Row<T>>)
    ensures t == [] || t[0] in t
  {
  }

  /** Past the head of an ascending table are exactly its other rows. */
  lemma RestIsOthers<T>(t: seq<Row<T>>, x: Row<T>)
    requires IdsAscending(t) && t != []
    ensures x in t[1..] <==> x in t && x != t[0]
  {
    if x in t[1..] {
      var j :| 0 <= j < |t[1..]| && t[1..][j] == x;
      assert t[j + 1] == x && t[0].id < t[j + 1].id;
    }
    if x in t && x != t[0] {
      var j :| 0 <= j < |t| && t[j] == x;
      assert t[1..][j - 1] == x;
    }
  }

  /** Each key names one row: there are as many keys as rows, which is what
      COUNT(*) reports. */
  lemma {:induction false} IdsCount<T>(t: seq<Row<T>>)
    requires IdsAscending(t)
    ensures |Ids(t)| == |t|
  {
    if t != [] {
      IdsCount(t[1..]);
      assert Ids(t) == {t[0].id} + Ids(t[1..]);
      assert t[0].id !in Ids(t[1..]);
    }
  }
}
