/** Seat inventory of one cinema hall, as values.

    A hall's state is its set of free seat numbers. A booking attempt that
    got past the show checks and the admission semaphore either fails
    without touching the set, or removes the requested seats one by one
    (the booking system's remove loop, which raises on a seat that is no
    longer free). A release puts seats back only when every one of them is in
    range and currently taken. */
module Inventory {
  import opened Seqs

  /** What one call of the booking operation ends with. The booking
      system answers with a success flag and a message; the message text
      is not modelled, only which branch produced it. KeyErrorRaised is
      the exception that the remove loop raises on a repeated seat number. */
  datatype Outcome =
    | Booked
    | MovieNotFound
    | AlreadyStarted
    | HallNotFound
    | AdmissionTimeout
    | InvalidSeats
    | SeatsTaken
    | KeyErrorRaised

  /** The seat numbers of a hall of the given capacity: 1 .. capacity. */
  function Range(capacity: int): (r: set<int>)
    ensures forall s :: s in r <==> 1 <= s <= capacity
    decreases capacity
  {
    if capacity < 1 then {} else Range(capacity - 1) + {capacity}
  }

  /** Every free seat lies in 1 .. capacity. */
  predicate WithinHall(free: set<int>, capacity: int) {
    forall s | s in free :: 1 <= s <= capacity
  }

  /** Every seat of the hall is free, and nothing else is. */
  ghost predicate AllSeatsFree(free: set<int>, capacity: int) {
    forall s :: s in free <==> 1 <= s <= capacity
  }

  /** A hall whose every seat is free has free set Range(capacity), which
      lies within the hall. */
  lemma FreshHall(free: set<int>, capacity: int)
    requires AllSeatsFree(free, capacity)
    ensures free == Range(capacity) && WithinHall(free, capacity)
  {
  }

  /** The seat numbers mentioned in a request. */
  function SeatSet(seats: seq<int>): set<int> {
    Elements(seats)
  }

  /** Every requested seat is free (vacuously true for no seats). */
  predicate AllFree(free: set<int>, seats: seq<int>) {
    forall s | s in seats :: s in free
  }

  lemma AllFreeIsSubset(free: set<int>, seats: seq<int>)
    ensures AllFree(free, seats) <==> SeatSet(seats) <= free
  {
    if AllFree(free, seats) {
      forall s | s in SeatSet(seats) ensures s in free {
        assert s in seats;
      }
    }
  }

  /** Every requested seat is taken, i.e. not free. */
  predicate AllTaken(free: set<int>, seats: seq<int>) {
    forall s | s in seats :: s !in free
  }

  /** Every requested seat number lies in 1 .. capacity. */
  predicate AllInRange(seats: seq<int>, capacity: int) {
    forall s | s in seats :: 1 <= s <= capacity
  }

  lemma {:induction false} RangeSize(capacity: int)
    ensures |Range(capacity)| == if capacity < 0 then 0 else capacity
    decreases capacity
  {
    if capacity > 0 {
      RangeSize(capacity - 1);
    }
  }

  /** A free set that stays inside the hall holds at most `capacity` seats. */
  lemma FreeCountBounded(free: set<int>, capacity: int)
    requires WithinHall(free, capacity)
    ensures |free| <= (if capacity < 0 then 0 else capacity)
    ensures |Range(capacity) - free| == (if capacity < 0 then 0 else capacity) - |free|
  {
    assert free <= Range(capacity);
    RangeSize(capacity);
    SubsetSize(free, Range(capacity));
  }

  /** The state left by the remove loop, and whether it raised. */
  datatype Removal = Removal(free: set<int>, raised: bool)

  /** The booking system's remove loop, which takes each requested seat
      out of the free set in turn. Seats are removed in order; the first
      one that is no longer free raises (KeyError) and leaves the seats
      removed before it removed. */
  function RemoveSeats(free: set<int>, seats: seq<int>): (r: Removal)
    ensures r.free <= free
    ensures free - r.free <= SeatSet(seats)
    ensures !r.raised ==> r.free == free - SeatSet(seats)
  {
    if seats == [] then Removal(free, false)
    else if seats[0] !in free then Removal(free, true)
    else
      assert SeatSet(seats) == {seats[0]} + SeatSet(seats[1..]) by {
        assert seats == [seats[0]] + seats[1..];
      }
      RemoveSeats(free - {seats[0]}, seats[1..])
  }

  /** The remove loop completes exactly when every seat is free and none is
      repeated; a repeated seat finds itself already removed. */
  lemma {:induction false} RemoveSeatsCompletes(free: set<int>, seats: seq<int>)
    ensures !RemoveSeats(free, seats).raised <==> AllFree(free, seats) && Distinct(seats)
  {
    if seats != [] {
      var s0, tail := seats[0], seats[1..];
      assert seats == [s0] + tail;
      if s0 in free {
        RemoveSeatsCompletes(free - {s0}, tail);
        // all free after removing s0 and tail distinct <==> all free, s0 not repeated, distinct
        if AllFree(free, seats) && Distinct(seats) {
          forall k | 0 <= k < |tail| ensures tail[k] in free - {s0} {
            assert tail[k] == seats[k + 1];
          }
          forall i, j | 0 <= i < j < |tail| ensures tail[i] != tail[j] {
            assert tail[i] == seats[i + 1] && tail[j] == seats[j + 1];
          }
        }
        if AllFree(free - {s0}, tail) && Distinct(tail) {
          forall i, j | 0 <= i < j < |seats| ensures seats[i] != seats[j] {
            if i > 0 {
              assert seats[i] == tail[i - 1] && seats[j] == tail[j - 1];
            } else {
              assert seats[j] == tail[j - 1];
            }
          }
        }
      }
    }
  }

  /** With every seat of `prefix` free and no repetition in it, a request
      `prefix + [x] + rest` that repeats a seat `x` of `prefix` raises
      after removing exactly the seats of `prefix`: those seats are then
      neither free nor recorded in the log. */
  lemma {:induction false} RepeatedSeatRaises(free: set<int>, prefix: seq<int>, x: int, rest: seq<int>)
    requires AllFree(free, prefix) && Distinct(prefix) && x in prefix
    ensures RemoveSeats(free, prefix + [x] + rest) == Removal(free - SeatSet(prefix), true)
  {
    if prefix == [] {
    } else {
      var p0, ptail := prefix[0], prefix[1..];
      assert prefix + [x] + rest == [p0] + (ptail + [x] + rest);
      assert p0 !in ptail by {
        forall k | 0 <= k < |ptail| ensures ptail[k] != p0 {
          assert ptail[k] == prefix[k + 1];
        }
      }
      if x == p0 {
        RemoveFree(free - {p0}, ptail, x, rest);
        assert SeatSet(prefix) == {p0} + SeatSet(ptail) by { assert prefix == [p0] + ptail; }
      } else {
        assert x in ptail by { assert prefix == [p0] + ptail; }
        forall k | 0 <= k < |ptail| ensures ptail[k] in free - {p0} {
          assert ptail[k] == prefix[k + 1];
        }
        forall i, j | 0 <= i < j < |ptail| ensures ptail[i] != ptail[j] {
          assert ptail[i] == prefix[i + 1] && ptail[j] == prefix[j + 1];
        }
        RepeatedSeatRaises(free - {p0}, ptail, x, rest);
        assert SeatSet(prefix) == {p0} + SeatSet(ptail) by { assert prefix == [p0] + ptail; }
      }
    }
  }

  /** Helper for RepeatedSeatRaises: removing the distinct free seats of
      `prefix` and then meeting a seat `x` that is no longer free raises. */
  lemma {:induction false} RemoveFree(free: set<int>, prefix: seq<int>, x: int, rest: seq<int>)
    requires AllFree(free, prefix) && Distinct(prefix) && x !in free
    ensures RemoveSeats(free, prefix + [x] + rest) == Removal(free - SeatSet(prefix), true)
  {
    if prefix == [] {
      assert prefix + [x] + rest == [x] + rest;
      assert SeatSet(prefix) == {};
    } else {
      var p0, ptail := prefix[0], prefix[1..];
      assert prefix + [x] + rest == [p0] + (ptail + [x] + rest);
      forall k | 0 <= k < |ptail| ensures ptail[k] in free - {p0} {
        assert ptail[k] == prefix[k + 1];
        assert ptail[k] != p0;
      }
      forall i, j | 0 <= i < j < |ptail| ensures ptail[i] != ptail[j] {
        assert ptail[i] == prefix[i + 1] && ptail[j] == prefix[j + 1];
      }
      RemoveFree(free - {p0}, ptail, x, rest);
      assert SeatSet(prefix) == {p0} + SeatSet(ptail) by { assert prefix == [p0] + ptail; }
    }
  }

  /** The hall state after a booking attempt, and how the attempt ended. */
  datatype Step = Step(outcome: Outcome, free: set<int>)

  /** One booking attempt against a hall, once the show is known, not yet
      started, its hall found and an admission permit held. `fuel` is the
      number of passes the retry loop makes (zero when the wait budget is
      not positive). Each pass checks range, then availability; nothing
      frees seats between passes in this sequential model, so a pass that
      finds a seat taken is repeated with the same result until the fuel
      runs out. */
  function Attempt(free: set<int>, capacity: int, seats: seq<int>, fuel: nat): Step {
    if fuel == 0 then Step(SeatsTaken, free)
    else if !AllInRange(seats, capacity) then Step(InvalidSeats, free)
    else if !AllFree(free, seats) then Step(SeatsTaken, free)
    else
      var r := RemoveSeats(free, seats);
      Step(if r.raised then KeyErrorRaised else Booked, r.free)
  }

  /** In-range, free, distinct seats are booked: exactly those seats leave
      the free set, and no others. */
  lemma AttemptBooks(free: set<int>, capacity: int, seats: seq<int>, fuel: nat)
    requires fuel > 0 && AllInRange(seats, capacity) && AllFree(free, seats) && Distinct(seats)
    ensures Attempt(free, capacity, seats, fuel) == Step(Booked, free - SeatSet(seats))
    ensures |Attempt(free, capacity, seats, fuel).free| == |free| - |seats|
  {
    RemoveSeatsCompletes(free, seats);
    DistinctElementsSize(seats);
    assert SeatSet(seats) <= free;
    SubsetSize(SeatSet(seats), free);
  }

  /** Booking is all-or-nothing: an attempt either books, having found
      every requested seat free, and removes exactly the requested seats,
      or (short of the repeated-seat exception) leaves the free set as it
      was. */
  lemma AllOrNothing(free: set<int>, capacity: int, seats: seq<int>, fuel: nat)
    ensures var st := Attempt(free, capacity, seats, fuel);
      && (st.outcome == Booked ==>
            fuel > 0 && AllInRange(seats, capacity) && AllFree(free, seats) && Distinct(seats)
            && st.free == free - SeatSet(seats))
      && (st.outcome != Booked && st.outcome != KeyErrorRaised ==> st.free == free)
      && st.outcome in {Booked, InvalidSeats, SeatsTaken, KeyErrorRaised}
  {
    RemoveSeatsCompletes(free, seats);
  }

  /** A seat outside 1 .. capacity fails the attempt with no change, as
      soon as the retry loop runs at all. */
  lemma OutOfRangeRejected(free: set<int>, capacity: int, seats: seq<int>, fuel: nat)
    requires fuel > 0 && exists s :: s in seats && (s < 1 || s > capacity)
    ensures Attempt(free, capacity, seats, fuel) == Step(InvalidSeats, free)
  {
  }

  /** With a wait budget that lets the loop run zero times, every request,
      even an out-of-range one, ends in the "occupied" failure. */
  lemma NoFuelReportsTaken(free: set<int>, capacity: int, seats: seq<int>)
    ensures Attempt(free, capacity, seats, 0) == Step(SeatsTaken, free)
  {
  }

  /** An in-range request with a taken seat ends in the "occupied" failure
      and removes nothing. */
  lemma TakenSeatRejected(free: set<int>, capacity: int, seats: seq<int>, fuel: nat)
    requires fuel > 0 && AllInRange(seats, capacity)
    requires exists s :: s in seats && s !in free
    ensures Attempt(free, capacity, seats, fuel) == Step(SeatsTaken, free)
  {
  }

  /** An attempt never adds a seat, so a free set inside the hall stays
      inside the hall. */
  lemma AttemptKeepsRange(free: set<int>, capacity: int, seats: seq<int>, fuel: nat)
    requires WithinHall(free, capacity)
    ensures Attempt(free, capacity, seats, fuel).free <= free
    ensures WithinHall(Attempt(free, capacity, seats, fuel).free, capacity)
  {
  }

  /** An empty request is booked (when the loop runs at all) and changes
      nothing in the free set; the booking operation still logs it. */
  lemma EmptyRequestBooked(free: set<int>, capacity: int, fuel: nat)
    requires fuel > 0
    ensures Attempt(free, capacity, [], fuel) == Step(Booked, free)
  {
  }

  /** The state after a release, and whether the release was accepted. */
  datatype Released = Released(accepted: bool, free: set<int>)

  /** The guarded release: every seat must be taken and in range; then each
      one is added back. */
  function Release(free: set<int>, capacity: int, seats: seq<int>): Released {
    if !AllTaken(free, seats) || !AllInRange(seats, capacity) then Released(false, free)
    else Released(true, free + SeatSet(seats))
  }

  /** A release only adds in-range seats, so the free set stays inside the
      hall; a rejected release changes nothing. */
  lemma ReleaseKeepsRange(free: set<int>, capacity: int, seats: seq<int>)
    requires WithinHall(free, capacity)
    ensures var r := Release(free, capacity, seats);
      && WithinHall(r.free, capacity)
      && free <= r.free
      && (!r.accepted ==> r.free == free)
  {
  }

  /** Releasing the seats of a booking restores the free set to what it was
      before the booking. */
  lemma ReleaseUndoesBooking(free: set<int>, capacity: int, seats: seq<int>, fuel: nat)
    requires Attempt(free, capacity, seats, fuel).outcome == Booked
    ensures Release(Attempt(free, capacity, seats, fuel).free, capacity, seats) == Released(true, free)
  {
    AllOrNothing(free, capacity, seats, fuel);
    var after := free - SeatSet(seats);
    assert AllTaken(after, seats);
    assert after + SeatSet(seats) == free;
  }

  /** The same non-empty release cannot be accepted twice in a row: the
      first one made its seats free again. */
  lemma DoubleReleaseRejected(free: set<int>, capacity: int, seats: seq<int>)
    requires seats != [] && Release(free, capacity, seats).accepted
    ensures !Release(Release(free, capacity, seats).free, capacity, seats).accepted
  {
    var x := seats[0];
    assert x in seats;
    assert x in SeatSet(seats);
  }

  /** Occupancy accounting: the free seats and the taken seats of a hall
      partition 1 .. capacity. */
  lemma OccupancyAccounting(free: set<int>, capacity: int)
    requires WithinHall(free, capacity)
    ensures free !! (Range(capacity) - free)
    ensures |free| + |Range(capacity) - free| == (if capacity < 0 then 0 else capacity)
  {
    FreeCountBounded(free, capacity);
  }
}
