/**
 * The pure decisions of `ReservationService.reserveSeats`: which rows are
 * candidates, which candidate is the best row, and which seats of that row
 * the seat walk takes.
 */
module Allocation {
  import opened Wrappers
  import opened Seating

  /** `CUT_BY_MIDDLE`: the candidate count is divided by it to get the centre. */
  const CutByMiddle: int := 2

  /**
   * The stream filter: the rows whose wheelchair flag equals the request
   * exactly, in theater order.
   */
  function Candidates(rows: seq<Row>, wheelchairAccessible: bool): (c: seq<Row>)
    ensures |c| <= |rows|
    ensures forall r :: r in c ==> r in rows && r.isWheelchairAccessible == wheelchairAccessible
    ensures forall r :: r in rows && r.isWheelchairAccessible == wheelchairAccessible ==> r in c
  {
    if rows == [] then []
    else
      (if rows[0].isWheelchairAccessible == wheelchairAccessible then [rows[0]] else [])
      + Candidates(rows[1..], wheelchairAccessible)
  }

  /** The filter keeps theater order: it distributes over concatenation. */
  lemma {:induction false} CandidatesAppend(a: seq<Row>, b: seq<Row>, wheelchairAccessible: bool)
    ensures Candidates(a + b, wheelchairAccessible)
         == Candidates(a, wheelchairAccessible) + Candidates(b, wheelchairAccessible)
  {
    if a == [] {
      assert a + b == b;
    } else {
      assert (a + b)[1..] == a[1..] + b;
      CandidatesAppend(a[1..], b, wheelchairAccessible);
    }
  }

  /** The centre the rows are measured against: the candidate count halved. */
  function CenterRow(candidateRows: seq<Row>): int
  {
    |candidateRows| / CutByMiddle
  }

  /** `Math.abs(row.getRowNumber() - centerRow)`. */
  function Distance(row: Row, centerRow: int): nat
  {
    if row.rowNumber >= centerRow then row.rowNumber - centerRow else centerRow - row.rowNumber
  }

  /**
   * The index `Stream.min` settles on: it folds from the left and keeps the
   * element it holds unless the next one is strictly closer.
   */
  function BestIndex(candidateRows: seq<Row>, centerRow: int): (k: nat)
    requires |candidateRows| > 0
    ensures k < |candidateRows|
    ensures forall j :: 0 <= j < |candidateRows| ==>
              Distance(candidateRows[k], centerRow) <= Distance(candidateRows[j], centerRow)
    ensures forall j :: 0 <= j < k ==>
              Distance(candidateRows[j], centerRow) > Distance(candidateRows[k], centerRow)
  {
    if |candidateRows| == 1 then 0
    else
      var last := |candidateRows| - 1;
      var k := BestIndex(candidateRows[..last], centerRow);
      if Distance(candidateRows[k], centerRow) <= Distance(candidateRows[last], centerRow) then k else last
  }

  /**
   * `findBestRow`: `None` (Java's `null`) exactly when there is no candidate;
   * otherwise the first candidate whose row number is closest to the centre.
   */
  function FindBestRow(candidateRows: seq<Row>): (best: Option<Row>)
    ensures best.None? <==> candidateRows == []
    ensures best.Some? ==> exists k :: (
              && 0 <= k < |candidateRows| && candidateRows[k] == best.value
              && (forall j :: 0 <= j < |candidateRows| ==>
                    Distance(best.value, CenterRow(candidateRows)) <= Distance(candidateRows[j], CenterRow(candidateRows)))
              && (forall j :: 0 <= j < k ==>
                    Distance(candidateRows[j], CenterRow(candidateRows)) > Distance(best.value, CenterRow(candidateRows))))
  {
    if candidateRows == [] then None
    else Some(candidateRows[BestIndex(candidateRows, CenterRow(candidateRows))])
  }

  /**
   * The centre is measured from the candidate count, not from the row
   * numbers: with candidates numbered `1..k` in order (`k >= 2`) the best row
   * is row `k / 2`, so five rows give row 2 rather than the middle row 3.
   */
  lemma ConsecutiveRowsBest(candidateRows: seq<Row>)
    requires |candidateRows| >= 2
    requires forall i :: 0 <= i < |candidateRows| ==> candidateRows[i].rowNumber == i + 1
    ensures FindBestRow(candidateRows) == Some(candidateRows[|candidateRows| / 2 - 1])
    ensures FindBestRow(candidateRows).value.rowNumber == |candidateRows| / 2
  {
  }

  /**
   * The row `reserveSeats` settles on for an accessibility request: a row of
   * the theater with the requested flag, and none only when no row has it.
   */
  function ChosenRow(rows: seq<Row>, wheelchairAccessible: bool): (best: Option<Row>)
    ensures best.Some? ==> best.value in rows && best.value.isWheelchairAccessible == wheelchairAccessible
    ensures best.None? <==> forall r :: r in rows ==> r.isWheelchairAccessible != wheelchairAccessible
  {
    FindBestRow(Candidates(rows, wheelchairAccessible))
  }

  /**
   * Free seats only accumulate along a row: a longer prefix has at least as
   * many, and strictly more once it takes in another free seat.
   */
  lemma FreeCountPrefix(h: seq<Option<Name>>, a: nat, b: nat)
    requires a <= b <= |h|
    ensures FreeCount(h[..a]) <= FreeCount(h[..b])
    ensures a < b && h[a] == None ==> FreeCount(h[..a]) < FreeCount(h[..b])
  {
    assert h[..b] == h[..a] + h[a..b];
    if a < b {
      assert h[a..b] == [h[a]] + h[a + 1..b];
    }
  }

  /** Extending a prefix by one seat adds one free seat exactly when that seat is free. */
  lemma FreeCountStep(h: seq<Option<Name>>, i: nat)
    requires i < |h|
    ensures FreeCount(h[..i + 1]) == FreeCount(h[..i]) + if h[i] == None then 1 else 0
  {
    assert h[..i + 1] == h[..i] + [h[i]];
  }

  /** The seats among the first `i` whose holder in `h` is free, in seat order. */
  function FreeSeats(seats: seq<Seat>, h: seq<Option<Name>>, i: nat): seq<Seat>
    requires i <= |seats| == |h|
  {
    if i == 0 then [] else FreeSeats(seats, h, i - 1) + if h[i - 1] == None then [seats[i - 1]] else []
  }

  /**
   * In a row without repeated seats, a seat is among the free seats of a
   * prefix exactly when it lies in that prefix and was free.
   */
  lemma {:induction false} FreeSeatsMembers(seats: seq<Seat>, h: seq<Option<Name>>, i: nat)
    requires i <= |seats| == |h| && Distinct(seats)
    ensures forall s :: s in FreeSeats(seats, h, i) ==> s in seats
    ensures forall j :: 0 <= j < |seats| ==> (seats[j] in FreeSeats(seats, h, i) <==> j < i && h[j] == None)
  {
    if i > 0 {
      FreeSeatsMembers(seats, h, i - 1);
      DistinctAt(seats, i - 1);
    }
  }

  /**
   * The seat walk over the row's holders: each free seat is given to `name`
   * until `n` seats are taken; held seats are skipped and everything after
   * the `n`-th free seat is left alone.
   */
  function ReserveFirst(h: seq<Option<Name>>, n: nat, name: Name): seq<Option<Name>>
  {
    if h == [] || n == 0 then h
    else if h[0] == None then [Some(name)] + ReserveFirst(h[1..], n - 1, name)
    else [h[0]] + ReserveFirst(h[1..], n, name)
  }

  /**
   * Seat `j` ends up with `name` exactly when it was free and fewer than `n`
   * free seats come before it; every other seat keeps its holder.
   */
  lemma {:induction false} ReserveFirstAt(h: seq<Option<Name>>, n: nat, name: Name, j: nat)
    requires j < |h|
    ensures |ReserveFirst(h, n, name)| == |h|
    ensures ReserveFirst(h, n, name)[j]
         == if h[j] == None && FreeCount(h[..j]) < n then Some(name) else h[j]
  {
    if n == 0 {
    } else if j == 0 {
      ReserveFirstLength(h[1..], if h[0] == None then n - 1 else n, name);
    } else {
      var m := if h[0] == None then n - 1 else n;
      ReserveFirstAt(h[1..], m, name, j - 1);
      assert h[..j] == [h[0]] + h[1..][..j - 1];
    }
  }

  /** The holders once the walk has visited the first `i` seats and taken every free one among them. */
  function Walked(h: seq<Option<Name>>, i: nat, name: Name): (w: seq<Option<Name>>)
    ensures |w| == |h|
  {
    seq(|h|, j requires 0 <= j < |h| => if j < i && h[j] == None then Some(name) else h[j])
  }

  /**
   * Where the walk may stop: once `n` seats are taken, or at the end of the
   * row with fewer. Either way it has done what `ReserveFirst` describes and
   * taken `min(n, free seats)` seats.
   */
  lemma WalkStopsAtReserveFirst(h: seq<Option<Name>>, n: nat, name: Name, i: nat)
    requires i <= |h| && FreeCount(h[..i]) <= n
    requires i < |h| ==> FreeCount(h[..i]) == n
    ensures Walked(h, i, name) == ReserveFirst(h, n, name)
    ensures FreeCount(h[..i]) == if FreeCount(h) < n then FreeCount(h) else n
  {
    ReserveFirstLength(h, n, name);
    FreeCountPrefix(h, i, |h|);
    assert h[..|h|] == h;
    forall j | 0 <= j < |h|
      ensures Walked(h, i, name)[j] == ReserveFirst(h, n, name)[j]
    {
      ReserveFirstAt(h, n, name, j);
      if j < i {
        FreeCountPrefix(h, j, i);
      } else {
        FreeCountPrefix(h, i, j);
      }
    }
  }

  lemma {:induction false} ReserveFirstLength(h: seq<Option<Name>>, n: nat, name: Name)
    ensures |ReserveFirst(h, n, name)| == |h|
  {
    if h != [] && n != 0 {
      ReserveFirstLength(h[1..], if h[0] == None then n - 1 else n, name);
    }
  }

  /**
   * The walk takes `min(n, free seats)` seats: that many more seats hold
   * `name` and that many fewer are free; no other holder gains or loses a seat.
   */
  lemma {:induction false} ReserveFirstCounts(h: seq<Option<Name>>, n: nat, name: Name)
    ensures var taken := if FreeCount(h) < n then FreeCount(h) else n;
      var r := ReserveFirst(h, n, name);
      && FreeCount(r) == FreeCount(h) - taken
      && multiset(r)[Some(name)] == multiset(h)[Some(name)] + taken
      && forall x :: x != None && x != Some(name) ==> multiset(r)[x] == multiset(h)[x]
  {
    if h != [] && n != 0 {
      assert h == [h[0]] + h[1..];
      ReserveFirstCounts(h[1..], if h[0] == None then n - 1 else n, name);
    }
  }
}
