/**
 Building the user-item rating matrix from MovieLens rating records, keeping
 for every (user, item) cell only the most recent rating.

 The two tables `ratings` and `times` are 943 x 1682 buffers updated in place,
 one record at a time. `CellAfter` is the specification of one cell: the
 left fold of the records that target it.
 */
module DataInput {

  /** Number of users and of items in the data set (data_input.py:17-18). */
  const UserCount: nat := 943
  const ItemCount: nat := 1682

  /** One line of the ratings file: 1-based user and item ids, rating, unix timestamp. */
  datatype Record = Record(userId: int, itemId: int, rating: int, timestamp: int)

  /** The pair (rating, time) held by one cell of the two tables. */
  datatype Cell = Cell(rating: int, time: int)

  /** Ids that address a cell of the tables once made 0-based. */
  predicate ValidIds(r: Record)
  {
    1 <= r.userId <= UserCount && 1 <= r.itemId <= ItemCount
  }

  /** The record's 0-based indices are (u, i). */
  predicate Targets(r: Record, u: int, i: int)
  {
    r.userId - 1 == u && r.itemId - 1 == i
  }

  /** The loop body's decision for the cell a record targets: keep the cell
      when it holds a nonzero rating stamped strictly later than the record,
      otherwise take the record's rating and time. */
  function Merge(c: Cell, r: Record): (m: Cell)
    ensures m == c || m == Cell(r.rating, r.timestamp)
    ensures c.rating == 0 ==> m == Cell(r.rating, r.timestamp)
    ensures c.rating != 0 ==> m.time == (if c.time > r.timestamp then c.time else r.timestamp)
  {
    if c.rating != 0 && c.time > r.timestamp then c else Cell(r.rating, r.timestamp)
  }

  /** The content of cell (u, i) after processing `records` in order, from `start`. */
  function CellAfter(start: Cell, records: seq<Record>, u: int, i: int): Cell
    decreases |records|
  {
    if records == [] then start
    else
      var c := CellAfter(start, records[..|records| - 1], u, i);
      var r := records[|records| - 1];
      if Targets(r, u, i) then Merge(c, r) else c
  }

  predicate IsTable(t: array2<int>)
  {
    t.Length0 == UserCount && t.Length1 == ItemCount
  }

  /** One iteration of the record loop: either skip the record or overwrite
      its cell in both tables; no other cell changes. */
  method ApplyRecord(r: Record, ratings: array2<int>, times: array2<int>)
    requires ratings != times && IsTable(ratings) && IsTable(times)
    requires ValidIds(r)
    modifies ratings, times
    ensures var u, i := r.userId - 1, r.itemId - 1;
      var skipped := old(ratings[u, i]) != 0 && old(times[u, i]) > r.timestamp;
      && (skipped ==> ratings[u, i] == old(ratings[u, i]) && times[u, i] == old(times[u, i]))
      && (!skipped ==> ratings[u, i] == r.rating && times[u, i] == r.timestamp)
    ensures forall v, j :: 0 <= v < UserCount && 0 <= j < ItemCount && !Targets(r, v, j) ==>
      ratings[v, j] == old(ratings[v, j]) && times[v, j] == old(times[v, j])
  {
    var u, i := r.userId - 1, r.itemId - 1;
    if ratings[u, i] != 0 && times[u, i] > r.timestamp {
      return;
    }
    ratings[u, i] := r.rating;
    times[u, i] := r.timestamp;
  }

  /** The record loop: every cell ends as the fold of the records that target it. */
  method MergeRecords(records: seq<Record>, ratings: array2<int>, times: array2<int>)
    requires ratings != times && IsTable(ratings) && IsTable(times)
    requires forall k :: 0 <= k < |records| ==> ValidIds(records[k])
    modifies ratings, times
    ensures forall u, i :: 0 <= u < UserCount && 0 <= i < ItemCount ==>
      Cell(ratings[u, i], times[u, i]) == CellAfter(Cell(old(ratings[u, i]), old(times[u, i])), records, u, i)
  {
    for n := 0 to |records|
      invariant forall u, i :: 0 <= u < UserCount && 0 <= i < ItemCount ==>
        Cell(ratings[u, i], times[u, i]) == CellAfter(Cell(old(ratings[u, i]), old(times[u, i])), records[..n], u, i)
    {
      ApplyRecord(records[n], ratings, times);
      assert records[..n + 1][..n] == records[..n];
    }
    assert records[..|records|] == records;
  }

  /** The rating matrix: both tables start all zero, then every record is merged. */
  method GetUserItemMat(records: seq<Record>) returns (ratings: array2<int>)
    requires forall k :: 0 <= k < |records| ==> ValidIds(records[k])
    ensures IsTable(ratings)
    ensures forall u, i :: 0 <= u < UserCount && 0 <= i < ItemCount ==>
      ratings[u, i] == CellAfter(Cell(0, 0), records, u, i).rating
  {
    ratings := new int[UserCount, ItemCount]((u, i) => 0);
    var times := new int[UserCount, ItemCount]((u, i) => 0);
    MergeRecords(records, ratings, times);
  }

  /** A cell that no record targets keeps its initial content (0 in the rating matrix). */
  lemma {:induction false} UntouchedCellKeepsStart(start: Cell, records: seq<Record>, u: int, i: int)
    requires forall k :: 0 <= k < |records| ==> !Targets(records[k], u, i)
    ensures CellAfter(start, records, u, i) == start
    decreases |records|
  {
    if records != [] {
      UntouchedCellKeepsStart(start, records[..|records| - 1], u, i);
    }
  }

  /** With nonzero ratings, a targeted cell holds the record that carries the
      largest timestamp among the cell's records, and among those the last one. */
  lemma {:induction false} LatestMaximumKept(records: seq<Record>, u: int, i: int) returns (j: nat)
    requires forall k :: 0 <= k < |records| && Targets(records[k], u, i) ==> records[k].rating != 0
    requires exists k :: 0 <= k < |records| && Targets(records[k], u, i)
    ensures j < |records| && Targets(records[j], u, i)
    ensures CellAfter(Cell(0, 0), records, u, i) == Cell(records[j].rating, records[j].timestamp)
    ensures forall k :: 0 <= k < |records| && Targets(records[k], u, i) ==>
      records[k].timestamp <= records[j].timestamp
    ensures forall k :: j < k < |records| && Targets(records[k], u, i) ==>
      records[k].timestamp < records[j].timestamp
    decreases |records|
  {
    var n := |records| - 1;
    var init, last := records[..n], records[n];
    if k :| 0 <= k < n && Targets(records[k], u, i) {
      assert init[k] == records[k];
      var j0 := LatestMaximumKept(init, u, i);
      assert init[j0] == records[j0];
      if Targets(last, u, i) && records[j0].timestamp <= last.timestamp {
        j := n;
      } else {
        j := j0;
      }
    } else {
      UntouchedCellKeepsStart(Cell(0, 0), init, u, i);
      j := n;
    }
  }

  /** "Most recent wins": if record j has the maximum timestamp among the
      records of its cell and no later record of that cell reaches it (an
      equal timestamp later in the input overwrites), the cell ends with
      record j's rating and time. */
  lemma MostRecentWins(records: seq<Record>, u: int, i: int, j: nat)
    requires forall k :: 0 <= k < |records| && Targets(records[k], u, i) ==> records[k].rating != 0
    requires j < |records| && Targets(records[j], u, i)
    requires forall k :: 0 <= k < |records| && Targets(records[k], u, i) ==>
      records[k].timestamp <= records[j].timestamp
    requires forall k :: j < k < |records| && Targets(records[k], u, i) ==>
      records[k].timestamp < records[j].timestamp
    ensures CellAfter(Cell(0, 0), records, u, i) == Cell(records[j].rating, records[j].timestamp)
  {
    var m := LatestMaximumKept(records, u, i);
    assert m == j;
  }

  /** A stored rating of 0 does not protect its cell: a later record with an
      earlier timestamp still overwrites it. */
  lemma ZeroRatingOverwritten()
    ensures CellAfter(Cell(0, 0), [Record(1, 1, 0, 100), Record(1, 1, 4, 50)], 0, 0) == Cell(4, 50)
  {
  }
}
