/**
 * `ReservationService`: the seat allocator `reserveSeats` and the input check
 * `checkValidSeatNumber`. What the Java code prints is returned here as an
 * `Outcome`.
 */
module TheaterReservationSystem {
  import opened Wrappers
  import opened IntParsing
  import opened Seating
  import opened Allocation

  /** How a reservation request ended; `Success` carries the chosen row's number. */
  datatype Outcome = InvalidCount | NoRow | Insufficient | Success(rowNumber: int)

  /**
   * The seats `reserveSeats` may change: those of the row it settles on, and
   * none when the count is not positive or no row has the requested flag.
   */
  ghost function ChosenSeats(rows: seq<Row>, numSeats: int, wheelchairAccessible: bool): set<Seat>
  {
    if numSeats > 0 && ChosenRow(rows, wheelchairAccessible).Some? then
      set s | s in ChosenRow(rows, wheelchairAccessible).value.seats
    else {}
  }

  class ReservationService {
    /** The theater `checkValidSeatNumber` checks against. */
    const theater: Theater

    constructor (theater: Theater)
      ensures this.theater == theater
    {
      this.theater := theater;
    }

    /**
     * `reserveSeats`: all or nothing. Only the seats of the chosen row may
     * change (the `modifies` clause). Either the first `numSeats` free seats of
     * that row now hold `name`, or every one of its seats is as it was.
     */
    method ReserveSeats(theater: Theater, numSeats: int, name: Name, wheelchairAccessible: bool)
      returns (outcome: Outcome)
      requires theater.Valid()
      modifies ChosenSeats(theater.rows, numSeats, wheelchairAccessible)
      ensures numSeats <= 0 ==> outcome == InvalidCount
      ensures numSeats > 0 && ChosenRow(theater.rows, wheelchairAccessible).None? ==> outcome == NoRow
      ensures numSeats > 0 && ChosenRow(theater.rows, wheelchairAccessible).Some? ==>
                var best := ChosenRow(theater.rows, wheelchairAccessible).value;
                && outcome == (if FreeCount(old(best.Holders())) >= numSeats then Success(best.rowNumber) else Insufficient)
                && (outcome.Success? ==> best.Holders() == ReserveFirst(old(best.Holders()), numSeats, name))
                && (outcome.Success? ==>
                      multiset(best.Holders())[Some(name)] == multiset(old(best.Holders()))[Some(name)] + numSeats)
                && (!outcome.Success? ==> best.Holders() == old(best.Holders()))
    {
      if numSeats <= 0 {
        return InvalidCount;
      }

      var candidateRows := Candidates(theater.rows, wheelchairAccessible);
      var bestRow := FindBestRow(candidateRows);
      if bestRow == None {
        return NoRow;
      }
      assert bestRow == ChosenRow(theater.rows, wheelchairAccessible);
      var best := bestRow.value;
      assert best in theater.rows;
      ghost var h0 := best.Holders();

      var reservedSeats, numReserved := TakeFreeSeats(best, numSeats, name);

      if numReserved == numSeats {
        ReserveFirstCounts(h0, numSeats, name);
        outcome := Success(best.rowNumber);
      } else {
        FreeSeatsMembers(best.seats, h0, |best.seats|);
        Release(reservedSeats);
        forall j | 0 <= j < |best.seats|
          ensures best.seats[j].reservedFor == h0[j]
        {
          ReserveFirstAt(h0, numSeats, name, j);
          if h0[j] == None {
            assert best.seats[j] in reservedSeats;
          } else {
            assert best.seats[j] !in reservedSeats;
          }
        }
        assert best.Holders() == h0;
        outcome := Insufficient;
      }
    }

    /**
     * The seat walk of `reserveSeats`: gives free seats of `row` to `name` in
     * seat order, skipping held seats, until `numSeats` are taken or the row
     * ends. Returns the seats it took, in seat order, and their count; when it
     * ran short, those are all the seats of the row that were free.
     */
    method TakeFreeSeats(row: Row, numSeats: int, name: Name) returns (reservedSeats: seq<Seat>, numReserved: int)
      requires row.Valid() && numSeats > 0
      modifies row.seats
      ensures numReserved == |reservedSeats|
      ensures numReserved == if FreeCount(old(row.Holders())) < numSeats then FreeCount(old(row.Holders())) else numSeats
      ensures row.Holders() == ReserveFirst(old(row.Holders()), numSeats, name)
      ensures numReserved < numSeats ==> reservedSeats == FreeSeats(row.seats, old(row.Holders()), |row.seats|)
    {
      ghost var h0 := row.Holders();
      reservedSeats := [];
      numReserved := 0;
      var i := 0;
      while i < |row.seats|
        invariant 0 <= i <= |row.seats|
        invariant numReserved == |reservedSeats| == FreeCount(h0[..i]) <= numSeats
        invariant forall j :: 0 <= j < |row.seats| ==>
                    row.seats[j].reservedFor == if j < i && h0[j] == None then Some(name) else h0[j]
        invariant reservedSeats == FreeSeats(row.seats, h0, i)
      {
        if numReserved == numSeats {
          break;
        }
        var seat := row.seats[i];
        DistinctAt(row.seats, i);
        if seat.reservedFor == None {
          seat.Reserve(name);
          reservedSeats := reservedSeats + [seat];
          numReserved := numReserved + 1;
        }
        FreeCountStep(h0, i);
        i := i + 1;
      }

      assert row.Holders() == Walked(h0, i, name);
      WalkStopsAtReserveFirst(h0, numSeats, name, i);
      assert h0 == old(row.Holders());
    }

    /** `reservedSeats.forEach(Seat::notReserved)`: frees every listed seat. */
    method Release(seats: seq<Seat>)
      modifies seats
      ensures forall s :: s in seats ==> s.reservedFor == None
    {
      for k := 0 to |seats|
        invariant forall s :: s in seats[..k] ==> s.reservedFor == None
      {
        seats[k].NotReserved();
      }
    }

    /**
     * `checkValidSeatNumber`: the input must parse as an `int` lying in
     * `1..totalRows`; unparsable and out-of-range input are both refused.
     */
    function CheckValidSeatNumber(usersInputForSeat: string): (valid: bool)
      ensures valid ==> 0 < theater.totalRows
      ensures valid ==> |usersInputForSeat| > 0 && usersInputForSeat[0] != '-'
      ensures valid ==> IsDigit(usersInputForSeat[|usersInputForSeat| - 1])
    {
      match ParseInt(usersInputForSeat)
      case None => false
      case Some(seat) => seat > 0 && seat <= theater.totalRows
    }
  }

  /** Every `int` written in decimal is accepted exactly when it lies in `1..totalRows`. */
  lemma CheckValidSeatNumberOfInt(service: ReservationService, n: int)
    requires MinInt <= n <= MaxInt
    ensures service.CheckValidSeatNumber(ShowInt(n)) <==> 1 <= n <= service.theater.totalRows
  {
    ParseShowInt(n);
  }

  /**
   * A digit string, bare or after a '+', is accepted exactly when its decimal
   * value lies in `1..totalRows`, leading zeros included ("03" and "+3" are seat 3).
   */
  lemma CheckValidSeatNumberOfDigits(service: ReservationService, sign: string, d: string)
    requires sign == "" || sign == "+"
    requires |d| > 0 && AllDigits(d)
    requires service.theater.totalRows <= MaxInt
    ensures service.CheckValidSeatNumber(sign + d) <==> 1 <= DigitsValue(d) <= service.theater.totalRows
  {
    ParseUnsigned(sign, d);
  }

  /** Input holding a stray character (anything but a digit, or a sign in front) is refused. */
  lemma CheckValidSeatNumberRejectsMalformed(service: ReservationService, input: string, i: nat)
    requires i < |input| && !IsDigit(input[i]) && (i == 0 ==> input[0] != '-' && input[0] != '+')
    ensures !service.CheckValidSeatNumber(input)
  {
    ParseRejectsNonDigit(input, i);
  }
}
