/**
 * The theater layout that the allocator works on: a theater owns an ordered
 * sequence of rows, a row an ordered sequence of seats. Only a seat's holder
 * ever changes; row numbers, accessibility flags and the layout are fixed once
 * built.
 */
module Seating {
  import opened Wrappers

  type Name = string

  /** A seat; `reservedFor == None` means the seat is free. */
  class Seat {
    var reservedFor: Option<Name>

    constructor ()
      ensures reservedFor == None
    {
      reservedFor := None;
    }

    /** `Seat.reserve(name)`: the seat now holds `name`. */
    method Reserve(name: Name)
      modifies this
      ensures reservedFor == Some(name)
    {
      reservedFor := Some(name);
    }

    /** `Seat.notReserved()`: the seat is free again. */
    method NotReserved()
      modifies this
      ensures reservedFor == None
    {
      reservedFor := None;
    }
  }

  class Row {
    const rowNumber: int
    const isWheelchairAccessible: bool
    const seats: seq<Seat>

    constructor (rowNumber: int, isWheelchairAccessible: bool, seats: seq<Seat>)
      ensures this.rowNumber == rowNumber && this.isWheelchairAccessible == isWheelchairAccessible
      ensures this.seats == seats
    {
      this.rowNumber := rowNumber;
      this.isWheelchairAccessible := isWheelchairAccessible;
      this.seats := seats;
    }

    /** No seat object appears twice in a row. */
    ghost predicate Valid()
    {
      Distinct(seats)
    }

    /** The holders of the row's seats, in seat order. */
    ghost function Holders(): (h: seq<Option<Name>>)
      reads seats
    {
      seq(|seats|, i reads seats requires 0 <= i < |seats| => seats[i].reservedFor)
    }
  }

  class Theater {
    const rows: seq<Row>
    const totalRows: int

    constructor (rows: seq<Row>, totalRows: int)
      ensures this.rows == rows && this.totalRows == totalRows
    {
      this.rows := rows;
      this.totalRows := totalRows;
    }

    ghost predicate Valid()
    {
      forall r :: r in rows ==> r.Valid()
    }
  }

  ghost predicate Distinct(seats: seq<Seat>)
  {
    seats == [] || (seats[0] !in seats[1..] && Distinct(seats[1..]))
  }

  /** In a sequence without repeats, the seat at `i` is found at no other index. */
  lemma {:induction false} DistinctAt(seats: seq<Seat>, i: nat)
    requires Distinct(seats) && i < |seats|
    ensures forall j :: 0 <= j < |seats| && j != i ==> seats[j] != seats[i]
  {
    if i == 0 {
      assert forall j :: 0 < j < |seats| ==> seats[j] == seats[1..][j - 1];
    } else {
      DistinctAt(seats[1..], i - 1);
      assert seats[i] in seats[1..];
    }
  }

  /** The number of free seats among holders `h`. */
  function FreeCount(h: seq<Option<Name>>): nat
  {
    multiset(h)[None]
  }
}
