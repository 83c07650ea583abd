# Theater seat reservation: a Dafny model of the seat allocator

This project models the seat allocator of a small theater reservation
service (`ReservationService` in the `TheaterReservationSystem` package). A
theater has an ordered list of rows. Each row has a row number, a
wheelchair-accessibility flag and an ordered list of seats. Each seat is free
or held under a customer name. The allocator takes a request (how many seats,
a name, and whether wheelchair-accessible seats are wanted) and works in four
steps:

1. It refuses a seat count that is not positive.
2. It keeps the rows whose accessibility flag equals the request exactly.
3. It picks the candidate whose row number is closest to
   `candidateCount / 2`. On a tie the earlier candidate wins, because the
   stream `min` keeps the element it already holds.
4. It walks that row's seats in order. It gives each free seat to the name
   until enough seats are taken. If the row runs out first, it frees every seat
   it took in this call.

The Java method prints its result. Here it returns an `Outcome` instead:
`InvalidCount`, `NoRow`, `Insufficient` or `Success(rowNumber)`. The
auxiliary check `checkValidSeatNumber` is modelled too. Its call to
`Integer.parseInt` becomes a total function `ParseInt` to `Option<int>`.

Layout:

- `wrappers.dfy`, module `Wrappers`: `Option`. `None` stands for Java's `null`.
- `seating.dfy`, module `Seating`: the `Seat` class, whose `reservedFor`
  field changes in place, and the `Row` and `Theater` classes, whose fields
  never change. It also holds `Row.Holders()`, the row's holders as a sequence,
  and `FreeCount`, the number of free seats in such a sequence.
- `allocation.dfy`, module `Allocation`: the pure decisions. These are the
  candidate filter, `findBestRow`, the chosen row, and `ReserveFirst`, the
  specification of the seat walk: "the first `n` free seats, in seat order,
  now hold the name". It also holds the lemmas about them.
- `reservation_service.dfy`, module `TheaterReservationSystem`: the class
  `ReservationService`. `ReserveSeats` is the imperative method. The seat walk
  is the loop in `TakeFreeSeats`, and the rollback
  `reservedSeats.forEach(Seat::notReserved)` is the loop in `Release`.
  `CheckValidSeatNumber` is here too.
- `int_parsing.dfy`, module `IntParsing`: decimal parsing in the way
  `Integer.parseInt` does it. It accepts an optional sign and then at least
  one digit, and the value must fit a 32-bit `int`. The module also has the
  inverse rendering, `ShowInt`.

`ReserveSeats` is all or nothing. Its `modifies` clause is the set of seats
of the row that `ChosenRow` picks. That set is empty when the count is not
positive or no row has the requested flag, so by Dafny's frame rule no other
seat of the theater can change. On `Success`, the chosen row's holders equal
`ReserveFirst` of its old holders. On `Insufficient`, they equal the old
holders. The outcome is `Success` exactly when the chosen row had at least
`numSeats` free seats.

Where the program's own wording and its code disagree, the model follows the
code. The failure message (ReservationService.java lines 54 and 74) speaks of
seats "together", but the code skips held seats, so the seats it reserves need
not be next to each other. `ReserveFirst` models that: it takes the first free seats,
wherever they are in the row. The centre used to pick the row comes from the
number of candidate rows, but it is compared with actual row numbers.
`Allocation.ConsecutiveRowsBest` shows the effect: with candidates numbered
`1..k`, the chosen row is row `k / 2`.

## Model

| member | source | states |
|---|---|---|
| `Allocation.Candidates` | HW9_version2/src/main/java/TheaterReservationSystem/ReservationService.java:41-50 | a row is a candidate if and only if it is a row of the theater whose wheelchair flag equals the request; there are never more candidates than rows |
| `Allocation.CandidatesAppend` | HW9_version2/src/main/java/TheaterReservationSystem/ReservationService.java:41-50 | the filter keeps theater order: filtering a concatenation is the concatenation of the filtered parts |
| `Allocation.BestIndex` | HW9_version2/src/main/java/TheaterReservationSystem/ReservationService.java:110-112 | the index the stream `min` settles on: no candidate is closer to the centre, and every earlier candidate is strictly farther (ties go to the first) |
| `Allocation.FindBestRow` | HW9_version2/src/main/java/TheaterReservationSystem/ReservationService.java:107-113 | returns null exactly when there are no candidates; otherwise returns a candidate at minimal distance from `size / 2` with no earlier candidate equally close |
| `Allocation.ConsecutiveRowsBest` | HW9_version2/src/main/java/TheaterReservationSystem/ReservationService.java:109-111 | with candidates numbered `1..k` (`k >= 2`) the best row is row `k / 2`: the centre comes from the candidate count, not from the row numbers |
| `Allocation.ChosenRow` | HW9_version2/src/main/java/TheaterReservationSystem/ReservationService.java:41-56 | the row picked for a request is a theater row with the requested flag; there is none exactly when no row has that flag |
| `Allocation.ReserveFirstAt` | HW9_version2/src/main/java/TheaterReservationSystem/ReservationService.java:60-69 | after the walk, seat `j` holds the name if and only if it was free and fewer than `n` free seats come before it; every other seat keeps its holder |
| `Allocation.ReserveFirstCounts` | HW9_version2/src/main/java/TheaterReservationSystem/ReservationService.java:60-71 | the walk takes `min(n, free seats)` seats: free seats drop by that many, seats held by the name rise by that many, and no other holder gains or loses a seat |
| `Allocation.WalkStopsAtReserveFirst` | HW9_version2/src/main/java/TheaterReservationSystem/ReservationService.java:60-69 | both ways the loop can stop (count reached, or row exhausted) leave the row as `ReserveFirst` describes, having taken `min(n, free seats)` seats |
| `Allocation.FreeSeatsMembers` | HW9_version2/src/main/java/TheaterReservationSystem/ReservationService.java:64-66 | the `reservedSeats` list built by the walk holds a seat of the row exactly when the walk passed it and it was free |
| `Seating.Seat.Reserve` | HW9_version2/src/main/java/TheaterReservationSystem/ReservationService.java:65 | `seat.reserve(name)`: the seat now holds the name |
| `Seating.Seat.NotReserved` | HW9_version2/src/main/java/TheaterReservationSystem/ReservationService.java:75 | `Seat::notReserved`: the seat is free again |
| `TheaterReservationSystem.ReservationService.ReserveSeats` | HW9_version2/src/main/java/TheaterReservationSystem/ReservationService.java:35-77 | a non-positive count gives `InvalidCount`; no row with the flag gives `NoRow`; otherwise `Success(row number)` exactly when the chosen row had at least `numSeats` free seats, and then its first `numSeats` free seats hold the name (that many more seats hold it). `Insufficient` leaves the row as it was. Only the chosen row's seats are in the frame |
| `TheaterReservationSystem.ReservationService.TakeFreeSeats` | HW9_version2/src/main/java/TheaterReservationSystem/ReservationService.java:58-69 | the loop with its `break`: takes `min(numSeats, free seats)` seats, leaves the row as `ReserveFirst` of its old holders, and when it runs short it returns every seat of the row that was free, in seat order |
| `TheaterReservationSystem.ReservationService.Release` | HW9_version2/src/main/java/TheaterReservationSystem/ReservationService.java:75 | every seat in the list is free afterwards |
| `TheaterReservationSystem.ReservationService.constructor` | HW9_version2/src/main/java/TheaterReservationSystem/ReservationService.java:23-25 | the service keeps the theater it is given |
| `TheaterReservationSystem.ReservationService.CheckValidSeatNumber` | HW9_version2/src/main/java/TheaterReservationSystem/ReservationService.java:84-91 | no input is accepted unless the theater has at least one row; an accepted input is non-empty, does not start with '-' (no negative number or zero is a seat) and ends in a digit, so "", "+" and "-" are refused |
| `TheaterReservationSystem.CheckValidSeatNumberOfInt` | HW9_version2/src/main/java/TheaterReservationSystem/ReservationService.java:84-91 | a 32-bit integer written in decimal is accepted if and only if it lies in `1..totalRows` |
| `TheaterReservationSystem.CheckValidSeatNumberOfDigits` | HW9_version2/src/main/java/TheaterReservationSystem/ReservationService.java:84-91 | a digit string, bare or after '+', is accepted if and only if its decimal value lies in `1..totalRows`; leading zeros and a '+' are allowed, as `parseInt` allows them |
| `TheaterReservationSystem.CheckValidSeatNumberRejectsMalformed` | HW9_version2/src/main/java/TheaterReservationSystem/ReservationService.java:84-91 | input with a character that is neither a digit nor a leading sign (the first character included) is refused, as the `NumberFormatException` branch does |
| `IntParsing.ParseInt` | HW9_version2/src/main/java/TheaterReservationSystem/ReservationService.java:86 | a parsed value fits a 32-bit `int`; only an optional sign followed by at least one digit parses; the value is the digits' decimal value, negated after '-' |
| `IntParsing.ParseShowInt` | HW9_version2/src/main/java/TheaterReservationSystem/ReservationService.java:86 | every 32-bit integer, written in decimal, parses back to itself |
| `IntParsing.ParseUnsigned` | HW9_version2/src/main/java/TheaterReservationSystem/ReservationService.java:86 | a digit string, bare or after '+', parses to its decimal value exactly when that value fits an `int`, and does not parse otherwise |
| `IntParsing.ParseRejectsNonDigit` | HW9_version2/src/main/java/TheaterReservationSystem/ReservationService.java:86-89 | a string with a character that is neither a digit nor a leading sign does not parse |

## Left out

- Console output (ReservationService.java lines 37, 54, 72, 74, 97 and 104) is not modelled. The outcome is returned as an `Outcome` value, and the message wording is not kept.
- `displaySeatMap` and `reservationConfirmation` are left out, because they only print.
- Construction and `toString` of `Theater`, `Row` and `Seat` are left out. Those classes are not part of this model beyond the fields the allocator uses. `Row.Valid()` assumes that no seat object appears twice in one row, which is what a row that builds its own seats gives. `Theater.totalRows` is taken as given and is not tied to the number of rows.
- `IntParsing.ParseInt` accepts ASCII digits only. `Integer.parseInt` also accepts other Unicode decimal digits. A `null` input is not modelled, because strings here are never null.
- `Allocation.Distance` uses unbounded integers. Java's `row.getRowNumber() - centerRow` and `Math.abs` can overflow for row numbers near the `int` limits, and that is not modelled.
- `TakeFreeSeats` and `Release` are the two loops of `reserveSeats`, written as separate methods so that each can be verified alone. The Java code has them inline.
- TheaterReservationSystem.ReservationService.TakeFreeSeats: when the requested count is reached, the contract gives the returned list's length but not its elements. `ReserveSeats` uses the list only on the short path, where the contract states it in full.
- `reserveSeats` ignores the instance field `theater` and works on its parameter, as in the Java code; the model does the same.
- A `null` customer name is not modelled. `reserveSeats` hands `name` to `seat.reserve` unchecked (line 65); `Seat.java` is not part of this model, so what a seat does with `null` is not known here, and `Name` is a string that is never null.
- Concurrency is not modelled. The service is single-threaded.
