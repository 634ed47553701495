/** The review table as a sequence of rows in table order, with the filters,
    the filtered deletes and the rate change of the reviews service as
    functions over it. */
module ReviewTables {
  import opened Outcomes

  /** A review row. `id`, `userId`, `movieId` and `rate` are the columns the
      service reads and writes; `text` stands for the row's other columns,
      which the service only carries along. */
  datatype Review = Review(id: int, userId: int, movieId: int, text: string, rate: int)

  /** The integer columns a `where` clause of the service filters on. */
  datatype Column = Id | UserId | MovieId

  /** The two directions a rate can be changed in. */
  datatype RateOp = Increase | Decrease

  function ValueAt(row: Review, c: Column): int
  {
    match c
    case Id => row.id
    case UserId => row.userId
    case MovieId => row.movieId
  }

  /** The primary key: no two rows share an id. */
  ghost predicate UniqueIds(rows: seq<Review>)
  {
    forall i, j :: 0 <= i < j < |rows| ==> rows[i].id != rows[j].id
  }

  /** `findAll({where: {c: key}})`: the rows whose column `c` is `key`, in table order. */
  function Where(rows: seq<Review>, c: Column, key: int): (r: seq<Review>)
    ensures forall x {:trigger x in r} :: x in r <==> x in rows && ValueAt(x, c) == key
  {
    if rows == [] then []
    else
      assert rows == [rows[0]] + rows[1..];
      (if ValueAt(rows[0], c) == key then [rows[0]] else []) + Where(rows[1..], c, key)
  }

  /** The table after `destroy({where: {c: key}})`: the rows whose column `c`
      is not `key`, in table order. */
  function Except(rows: seq<Review>, c: Column, key: int): (r: seq<Review>)
    ensures forall x {:trigger x in r} :: x in r <==> x in rows && ValueAt(x, c) != key
  {
    if rows == [] then []
    else
      assert rows == [rows[0]] + rows[1..];
      (if ValueAt(rows[0], c) != key then [rows[0]] else []) + Except(rows[1..], c, key)
  }

  /** The position of the row with primary key `id`, if any: the first such row. */
  function IndexOf(rows: seq<Review>, id: int): (r: Option<nat>)
    ensures r.Some? ==> r.value < |rows| && rows[r.value].id == id
    ensures r.Some? ==> forall k :: 0 <= k < r.value ==> rows[k].id != id
    ensures r.None? <==> forall k :: 0 <= k < |rows| ==> rows[k].id != id
  {
    if rows == [] then None
    else if rows[0].id == id then Some(0)
    else match IndexOf(rows[1..], id)
      case None => None
      case Some(k) => Some(k + 1)
  }

  /** `findByPk(id)`: the row with primary key `id`, or none. */
  function Find(rows: seq<Review>, id: int): (r: Option<Review>)
    ensures r.Some? ==> r.value in rows && r.value.id == id
    ensures r.None? <==> forall x :: x in rows ==> x.id != id
  {
    match IndexOf(rows, id)
    case None => None
    case Some(i) => Some(rows[i])
  }

  /** The rate after one step in direction `op`. The service sets no floor
      or ceiling; rates here are unbounded integers. */
  function Bump(rate: int, op: RateOp): int
  {
    match op
    case Increase => rate + 1
    case Decrease => rate - 1
  }

  /** `row.save()`: every row with `row.id` is replaced by `row`; positions stay. */
  function SaveRow(rows: seq<Review>, row: Review): (r: seq<Review>)
    ensures |r| == |rows|
    ensures forall k :: 0 <= k < |rows| ==> r[k].id == rows[k].id
    ensures forall k :: 0 <= k < |rows| && rows[k].id != row.id ==> r[k] == rows[k]
    ensures forall k :: 0 <= k < |rows| && rows[k].id == row.id ==> r[k] == row
  {
    seq(|rows|, k requires 0 <= k < |rows| => if rows[k].id == row.id then row else rows[k])
  }

  /** The table after a rate change of review `id` in direction `op`; the
      table itself when there is no such review. */
  function ChangeRate(rows: seq<Review>, id: int, op: RateOp): (r: seq<Review>)
    ensures |r| == |rows|
    ensures forall k :: 0 <= k < |rows| && rows[k].id != id ==> r[k] == rows[k]
    ensures Find(rows, id).None? ==> r == rows
  {
    match Find(rows, id)
    case None => rows
    case Some(o) => SaveRow(rows, o.(rate := Bump(o.rate, op)))
  }

  // ---------------------------------------------------------------- properties

  /** Every row lands in exactly one of `Where` and `Except`, so the two
      partition the table. */
  lemma {:induction false} WhereExceptPartition(rows: seq<Review>, c: Column, key: int)
    ensures multiset(Where(rows, c, key)) + multiset(Except(rows, c, key)) == multiset(rows)
    ensures |Where(rows, c, key)| + |Except(rows, c, key)| == |rows|
  {
    if rows != [] {
      var h, t := rows[0], rows[1..];
      WhereExceptPartition(t, c, key);
      SplitHead(rows);
      if ValueAt(h, c) == key {
        SplitHead(Where(rows, c, key));
      } else {
        SplitHead(Except(rows, c, key));
      }
    }
  }

  /** The multiset of a non-empty table is its head plus the multiset of its tail. */
  lemma SplitHead(rows: seq<Review>)
    requires rows != []
    ensures multiset(rows) == multiset{rows[0]} + multiset(rows[1..])
  {
    assert rows == [rows[0]] + rows[1..];
  }

  /** The tail of a table with a unique key has a unique key, and none of
      its rows shares the head's id. */
  lemma UniqueTail(rows: seq<Review>)
    requires UniqueIds(rows) && rows != []
    ensures UniqueIds(rows[1..])
    ensures forall x :: x in rows[1..] ==> x.id != rows[0].id
  {
    var t := rows[1..];
    forall i, j | 0 <= i < j < |t| ensures t[i].id != t[j].id {
      assert t[i] == rows[i + 1] && t[j] == rows[j + 1];
    }
    forall x | x in t ensures x.id != rows[0].id {
      var k :| 0 <= k < |t| && t[k] == x;
      assert t[k] == rows[k + 1];
    }
  }

  /** A row whose id is new to a table with a unique key can go in front. */
  lemma UniqueCons(h: Review, t: seq<Review>)
    requires UniqueIds(t) && forall x :: x in t ==> x.id != h.id
    ensures UniqueIds([h] + t)
  {
    var r := [h] + t;
    forall i, j | 0 <= i < j < |r| ensures r[i].id != r[j].id {
      assert r[j] == t[j - 1] && r[j] in t;
      if i > 0 {
        assert r[i] == t[i - 1];
      }
    }
  }

  /** Removing rows keeps the primary key unique. */
  lemma {:induction false} ExceptKeepsUniqueIds(rows: seq<Review>, c: Column, key: int)
    requires UniqueIds(rows)
    ensures UniqueIds(Except(rows, c, key))
  {
    if rows != [] {
      var h, t := rows[0], rows[1..];
      UniqueTail(rows);
      ExceptKeepsUniqueIds(t, c, key);
      var rest := Except(t, c, key);
      if ValueAt(h, c) != key {
        assert Except(rows, c, key) == [h] + rest;
        UniqueCons(h, rest);
      } else {
        assert Except(rows, c, key) == rest;
      }
    }
  }

  /** Under a unique primary key at most one row has a given id, so deleting
      by id removes at most one row. */
  lemma {:induction false} AtMostOneById(rows: seq<Review>, id: int)
    requires UniqueIds(rows)
    ensures |Where(rows, Id, id)| <= 1
  {
    if rows != [] {
      var t := rows[1..];
      UniqueTail(rows);
      AtMostOneById(t, id);
      if rows[0].id == id {
        forall x | x in t ensures ValueAt(x, Id) != id { }
        NoMatchNoRows(t, Id, id);
      }
    }
  }

  /** When no row has `key` in column `c`, the filter selects nothing. */
  lemma {:induction false} NoMatchNoRows(rows: seq<Review>, c: Column, key: int)
    requires forall x :: x in rows ==> ValueAt(x, c) != key
    ensures Where(rows, c, key) == []
  {
    if rows != [] {
      assert rows[0] in rows;
      forall x | x in rows[1..] ensures ValueAt(x, c) != key {
        assert x in rows;
      }
      NoMatchNoRows(rows[1..], c, key);
    }
  }

  /** After deleting by a column value no row with that value remains. */
  lemma ExceptThenWhereIsEmpty(rows: seq<Review>, c: Column, key: int)
    ensures Where(Except(rows, c, key), c, key) == []
  {
    NoMatchNoRows(Except(rows, c, key), c, key);
  }

  /** Under a unique primary key the row found for `id` is at every position
      that holds that id. */
  lemma FoundIsOnlyRow(rows: seq<Review>, id: int, k: int)
    requires UniqueIds(rows) && Find(rows, id).Some?
    requires 0 <= k < |rows| && rows[k].id == id
    ensures rows[k] == Find(rows, id).value
  {
    var i := IndexOf(rows, id).value;
    assert rows[i].id == id;
  }

  /** A rate change alters only the `rate` of the targeted review, by exactly
      one step, and keeps the primary key unique. */
  lemma ChangeRateOnlyRate(rows: seq<Review>, id: int, op: RateOp)
    requires UniqueIds(rows)
    ensures UniqueIds(ChangeRate(rows, id, op))
    ensures forall k :: 0 <= k < |rows| ==>
      ChangeRate(rows, id, op)[k].(rate := rows[k].rate) == rows[k]
    ensures forall k :: 0 <= k < |rows| && rows[k].id == id ==>
      ChangeRate(rows, id, op)[k].rate == Bump(rows[k].rate, op)
  {
    var r := ChangeRate(rows, id, op);
    forall k | 0 <= k < |rows| && rows[k].id == id
      ensures r[k].(rate := rows[k].rate) == rows[k] && r[k].rate == Bump(rows[k].rate, op)
    {
      FoundIsOnlyRow(rows, id, k);
    }
  }

  /** After a rate change the review is found with its new rate. */
  lemma FindAfterChangeRate(rows: seq<Review>, id: int, op: RateOp)
    requires UniqueIds(rows) && Find(rows, id).Some?
    ensures Find(ChangeRate(rows, id, op), id)
      == Some(Find(rows, id).value.(rate := Bump(Find(rows, id).value.rate, op)))
  {
    var o := Find(rows, id).value;
    var r := ChangeRate(rows, id, op);
    var i := IndexOf(rows, id).value;
    assert r[i] == o.(rate := Bump(o.rate, op));
    assert IndexOf(r, id) == Some(i);
  }

  /** Increasing and then decreasing the same review restores the table. */
  lemma IncreaseThenDecreaseRestores(rows: seq<Review>, id: int)
    requires UniqueIds(rows)
    ensures ChangeRate(ChangeRate(rows, id, Increase), id, Decrease) == rows
  {
    if Find(rows, id).Some? {
      var o := Find(rows, id).value;
      var up := ChangeRate(rows, id, Increase);
      FindAfterChangeRate(rows, id, Increase);
      var down := ChangeRate(up, id, Decrease);
      assert down == SaveRow(up, o);
      forall k | 0 <= k < |rows| ensures down[k] == rows[k] {
        if rows[k].id == id {
          FoundIsOnlyRow(rows, id, k);
        }
      }
    }
  }
}
