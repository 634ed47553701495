/** The reviews service: a review table changed in place by deletes and by
    the rate change, read through filters. */
module Reviews {
  import opened Outcomes
  import opened ReviewTables

  class ReviewsService {
    /** The review table, in table order. */
    var rows: seq<Review>

    /** The primary key of the table is unique. */
    ghost predicate Valid()
      reads this
    {
      UniqueIds(rows)
    }

    constructor (table: seq<Review>)
      requires UniqueIds(table)
      ensures Valid() && rows == table
    {
      rows := table;
    }

    /** Deletes the review with primary key `id`; returns how many rows went (0 or 1). */
    method RemoveOneById(id: int) returns (count: nat)
      requires Valid()
      modifies this
      ensures Valid()
      ensures rows == Except(old(rows), Id, id)
      ensures count == |old(rows)| - |rows| && count <= 1
      ensures count == 1 <==> old(Find(rows, id)).Some?
    {
      WhereExceptPartition(rows, Id, id);
      AtMostOneById(rows, id);
      ExceptKeepsUniqueIds(rows, Id, id);
      count := |Where(rows, Id, id)|;
      if Find(rows, id).Some? {
        assert Find(rows, id).value in Where(rows, Id, id);
      } else {
        NoMatchNoRows(rows, Id, id);
      }
      rows := Except(rows, Id, id);
    }

    /** Deletes every review written by user `userId`; returns how many rows went. */
    method RemoveAllByUserId(userId: int) returns (count: nat)
      requires Valid()
      modifies this
      ensures Valid()
      ensures rows == Except(old(rows), UserId, userId)
      ensures count == |Where(old(rows), UserId, userId)| == |old(rows)| - |rows|
      ensures forall x :: x in rows ==> x.userId != userId
    {
      WhereExceptPartition(rows, UserId, userId);
      ExceptKeepsUniqueIds(rows, UserId, userId);
      count := |Where(rows, UserId, userId)|;
      rows := Except(rows, UserId, userId);
    }

    /** The reviews of movie `movieId`, in table order. */
    function GetByMovieId(movieId: int): (r: seq<Review>)
      reads this
      ensures forall x :: x in r <==> x in rows && x.movieId == movieId
      ensures multiset(r) <= multiset(rows)
    {
      WhereExceptPartition(rows, MovieId, movieId);
      Where(rows, MovieId, movieId)
    }

    /** The reviews written by user `userId`, in table order. */
    function GetByUserId(userId: int): (r: seq<Review>)
      reads this
      ensures forall x :: x in r <==> x in rows && x.userId == userId
      ensures multiset(r) <= multiset(rows)
    {
      WhereExceptPartition(rows, UserId, userId);
      Where(rows, UserId, userId)
    }

    /** The review with primary key `id`, or none (a missing review is returned as null). */
    function GetOneById(id: int): (r: Option<Review>)
      reads this
      ensures r.Some? ==> r.value in rows && r.value.id == id
      ensures r.None? <==> forall x :: x in rows ==> x.id != id
    {
      Find(rows, id)
    }

    /** The shared body of `IncreaseRate` and `DecreaseRate`: a missing review
        is a not-found outcome and nothing changes; otherwise its rate moves
        one step, it is saved and the updated row is returned. */
    method ChangeRateOf(id: int, op: RateOp) returns (r: Result<Review>)
      requires Valid()
      modifies this
      ensures Valid()
      ensures rows == ChangeRate(old(rows), id, op)
      ensures old(Find(rows, id)).None? ==> r == Err(ReviewNotFound) && rows == old(rows)
      ensures old(Find(rows, id)).Some? ==>
        var o := old(Find(rows, id)).value;
        r == Ok(o.(rate := Bump(o.rate, op))) && Find(rows, id) == Some(r.value)
    {
      var review := Find(rows, id);
      if review.None? {
        return Err(ReviewNotFound);
      }
      var o := review.value;
      ChangeRateOnlyRate(rows, id, op);
      FindAfterChangeRate(rows, id, op);
      var saved := o.(rate := Bump(o.rate, op));
      rows := SaveRow(rows, saved);
      r := Ok(saved);
    }

    /** Adds one to the rate of review `id`. */
    method IncreaseRate(id: int) returns (r: Result<Review>)
      requires Valid()
      modifies this
      ensures Valid()
      ensures rows == ChangeRate(old(rows), id, Increase)
      ensures old(Find(rows, id)).None? ==> r == Err(ReviewNotFound) && rows == old(rows)
      ensures old(Find(rows, id)).Some? ==>
        r.Ok? && r.value == old(Find(rows, id)).value.(rate := old(Find(rows, id)).value.rate + 1)
    {
      r := ChangeRateOf(id, Increase);
    }

    /** Subtracts one from the rate of review `id`; the rate may go below zero. */
    method DecreaseRate(id: int) returns (r: Result<Review>)
      requires Valid()
      modifies this
      ensures Valid()
      ensures rows == ChangeRate(old(rows), id, Decrease)
      ensures old(Find(rows, id)).None? ==> r == Err(ReviewNotFound) && rows == old(rows)
      ensures old(Find(rows, id)).Some? ==>
        r.Ok? && r.value == old(Find(rows, id)).value.(rate := old(Find(rows, id)).value.rate - 1)
    {
      r := ChangeRateOf(id, Decrease);
    }
  }

  /** A client scenario: increasing and then decreasing a review's rate leaves the
      table as it was, and deleting a user's reviews leaves none of theirs. */
  method RateRoundTrip(table: seq<Review>, id: int, userId: int)
    requires UniqueIds(table)
  {
    var s := new ReviewsService(table);
    var up := s.IncreaseRate(id);
    var down := s.DecreaseRate(id);
    IncreaseThenDecreaseRestores(table, id);
    assert s.rows == table;
    var n := s.RemoveAllByUserId(userId);
    assert n == |Where(table, UserId, userId)|;
    assert s.GetByUserId(userId) == [] by {
      ExceptThenWhereIsEmpty(table, UserId, userId);
    }
  }
}
