/** A table of the catalog as the session sees it: rows in storage order,
    each with its integer primary key.  `.first()` on a filtered query, the
    key SQLite assigns to an inserted row, and deletion of a row by key. */
module Tables {
  import opened Options

  datatype Row<R> = Row(id: int, val: R)

  /** Index of the first row, in storage order, whose record satisfies `p`:
      `query.filter(p).first()`. */
  function FirstIndex<R>(t: seq<Row<R>>, p: R -> bool): (r: Option<nat>)
    ensures r.Some? ==> r.value < |t| && p(t[r.value].val)
    ensures r.Some? ==> forall j :: 0 <= j < r.value ==> !p(t[j].val)
    ensures r.None? <==> forall j :: 0 <= j < |t| ==> !p(t[j].val)
    decreases |t|
  {
    if |t| == 0 then None
    else if p(t[0].val) then Some(0)
    else match FirstIndex(t[1..], p)
      case None => None
      case Some(k) => Some(k + 1)
  }

  /** The row `.first()` returns, if any. */
  function First<R>(t: seq<Row<R>>, p: R -> bool): (r: Option<Row<R>>)
  {
    match FirstIndex(t, p)
    case None => None
    case Some(i) => Some(t[i])
  }

  /** What the callers of `.first()` may rely on: a returned row is in the
      table and satisfies the filter, and nothing is returned only when no
      row satisfies it. */
  lemma FirstSound<R>(t: seq<Row<R>>, p: R -> bool)
    ensures First(t, p).Some? ==> First(t, p).value in t && p(First(t, p).value.val)
    ensures First(t, p).None? <==> forall r :: r in t ==> !p(r.val)
  {
    if First(t, p).None? {
      forall r | r in t ensures !p(r.val) {
        var j :| 0 <= j < |t| && t[j] == r;
      }
    }
  }

  /** The largest key in a non-empty table. */
  function MaxId<R>(t: seq<Row<R>>): (m: int)
    requires |t| > 0
    ensures exists j :: 0 <= j < |t| && t[j].id == m
    ensures forall j :: 0 <= j < |t| ==> t[j].id <= m
    decreases |t|
  {
    if |t| == 1 then t[0].id
    else
      var rest := MaxId(t[1..]);
      if t[0].id >= rest then t[0].id else rest
  }

  /** The key SQLite gives a row inserted without one: one more than the
      largest key in the table, or 1 in an empty table. */
  function NextId<R>(t: seq<Row<R>>): (n: int)
    ensures forall j :: 0 <= j < |t| ==> t[j].id < n
  {
    if |t| == 0 then 1 else MaxId(t) + 1
  }

  /** Primary keys are unique. */
  ghost predicate IdsDistinct<R>(t: seq<Row<R>>)
  {
    forall i, j :: 0 <= i < j < |t| ==> t[i].id != t[j].id
  }

  /** Keys of a table. */
  ghost function Ids<R>(t: seq<Row<R>>): set<int>
  {
    set j | 0 <= j < |t| :: t[j].id
  }

  /** An insert with the key SQLite chooses keeps keys unique. */
  lemma InsertKeepsIdsDistinct<R>(t: seq<Row<R>>, v: R)
    requires IdsDistinct(t)
    ensures IdsDistinct(t + [Row(NextId(t), v)])
  {
  }

  /** `session.delete(row)`: the table without the row carrying key `id`. */
  function RemoveId<R>(t: seq<Row<R>>, id: int): (r: seq<Row<R>>)
    ensures |r| <= |t|
    ensures forall j :: 0 <= j < |r| ==> r[j].id != id
    decreases |t|
  {
    if |t| == 0 then []
    else if t[0].id == id then RemoveId(t[1..], id)
    else [t[0]] + RemoveId(t[1..], id)
  }

  /** Deleting by key removes that key and keeps every other row. */
  lemma {:induction false} RemoveIdKeeps<R>(t: seq<Row<R>>, id: int)
    ensures forall x :: x in RemoveId(t, id) <==> x in t && x.id != id
    ensures Ids(RemoveId(t, id)) == Ids(t) - {id}
    decreases |t|
  {
    if |t| > 0 {
      RemoveIdKeeps(t[1..], id);
      assert t == [t[0]] + t[1..];
      assert Ids(t) == {t[0].id} + Ids(t[1..]) by {
        forall k | k in Ids(t) ensures k in {t[0].id} + Ids(t[1..]) {
          var j :| 0 <= j < |t| && t[j].id == k;
          if j > 0 { assert t[1..][j - 1].id == k; }
        }
      }
      var rest := RemoveId(t[1..], id);
      if t[0].id != id {
        assert RemoveId(t, id) == [t[0]] + rest;
        assert Ids([t[0]] + rest) == {t[0].id} + Ids(rest) by {
          forall k | k in Ids([t[0]] + rest) ensures k in {t[0].id} + Ids(rest) {
            var j :| 0 <= j < |[t[0]] + rest| && ([t[0]] + rest)[j].id == k;
            if j > 0 { assert rest[j - 1].id == k; }
          }
          forall k | k in Ids(rest) ensures k in Ids([t[0]] + rest) {
            var j :| 0 <= j < |rest| && rest[j].id == k;
            assert ([t[0]] + rest)[j + 1].id == k;
          }
          assert ([t[0]] + rest)[0].id == t[0].id;
        }
      }
    }
  }

  /** With unique keys, deleting a present key removes exactly one row. */
  lemma {:induction false} RemoveIdCount<R>(t: seq<Row<R>>, id: int)
    requires IdsDistinct(t)
    ensures |RemoveId(t, id)| == if id in Ids(t) then |t| - 1 else |t|
    decreases |t|
  {
    if |t| > 0 {
      RemoveIdCount(t[1..], id);
      assert Ids(t) == {t[0].id} + Ids(t[1..]) by {
        forall k | k in Ids(t) ensures k in {t[0].id} + Ids(t[1..]) {
          var j :| 0 <= j < |t| && t[j].id == k;
          if j > 0 { assert t[1..][j - 1].id == k; }
        }
        forall k | k in Ids(t[1..]) ensures k in Ids(t) {
          var j :| 0 <= j < |t[1..]| && t[1..][j].id == k;
          assert t[j + 1].id == k;
        }
        assert t[0].id in Ids(t);
      }
      if t[0].id == id {
        assert id !in Ids(t[1..]);
      }
    }
  }

  /** Deletion keeps the remaining rows in their order: any two of them come
      from two rows of the original table in the same order. */
  lemma {:induction false} RemoveIdOrder<R>(t: seq<Row<R>>, id: int, i: nat, j: nat)
    requires i < j < |RemoveId(t, id)|
    ensures exists a, b :: 0 <= a < b < |t| && t[a] == RemoveId(t, id)[i] && t[b] == RemoveId(t, id)[j]
    decreases |t|
  {
    var rest := RemoveId(t[1..], id);
    if t[0].id == id {
      RemoveIdOrder(t[1..], id, i, j);
      var a, b :| 0 <= a < b < |t[1..]| && t[1..][a] == rest[i] && t[1..][b] == rest[j];
      assert t[a + 1] == rest[i] && t[b + 1] == rest[j];
    } else if i == 0 {
      RemoveIdIndex(t[1..], id, j - 1);
      var b :| 0 <= b < |t[1..]| && t[1..][b] == rest[j - 1];
      assert t[0] == RemoveId(t, id)[0] && t[b + 1] == RemoveId(t, id)[j];
    } else {
      RemoveIdOrder(t[1..], id, i - 1, j - 1);
      var a, b :| 0 <= a < b < |t[1..]| && t[1..][a] == rest[i - 1] && t[1..][b] == rest[j - 1];
      assert t[a + 1] == RemoveId(t, id)[i] && t[b + 1] == RemoveId(t, id)[j];
    }
  }

  /** Every remaining row comes from the original table. */
  lemma {:induction false} RemoveIdIndex<R>(t: seq<Row<R>>, id: int, i: nat)
    requires i < |RemoveId(t, id)|
    ensures exists b :: 0 <= b < |t| && t[b] == RemoveId(t, id)[i]
    decreases |t|
  {
    var rest := RemoveId(t[1..], id);
    if t[0].id == id {
      RemoveIdIndex(t[1..], id, i);
      var b :| 0 <= b < |t[1..]| && t[1..][b] == rest[i];
      assert t[b + 1] == rest[i];
    } else if i > 0 {
      RemoveIdIndex(t[1..], id, i - 1);
      var b :| 0 <= b < |t[1..]| && t[1..][b] == rest[i - 1];
      assert t[b + 1] == RemoveId(t, id)[i];
    } else {
      assert t[0] == RemoveId(t, id)[0];
    }
  }
}
