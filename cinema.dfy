/** The cinema booking system: halls whose free-seat sets are updated in
    place, a fixed schedule of shows mapped onto halls, and an admission
    semaphore modelled by its permit count.

    Locks, the condition variable and blocking waits are abstracted away:
    the check-and-commit step under the hall lock is one atomic step, a
    call that finds no permit fails at once (nothing can release one while
    a sequential caller waits), and the retry loop runs `fuel` times. Time
    is an integer number of minutes passed in as `now`. */
module Cinema {
  import opened Wrappers
  import opened Seqs
  import opened Inventory

  /** A scheduled show; `capacity` is the denormalised copy of its hall's
      capacity. */
  datatype Show = Show(id: string, title: string, start: int, capacity: int)

  /** One entry of a hall's reservation log (the commit timestamp and the
      elapsed booking time are not modelled). */
  datatype Reservation = Reservation(userId: int, movieId: string, title: string, seats: seq<int>)

  /** One line of the listing of upcoming shows. */
  datatype Listing = Listing(id: string, title: string, start: int, availableSeats: int, totalSeats: int)

  /** A hall's statistics. */
  datatype Stats = Stats(hallId: string, capacity: int, available: int, occupied: int, totalBookings: int)

  /** One member's request inside a group booking, with how it ended. */
  datatype Member = Member(userId: int, seats: seq<int>, outcome: Outcome)

  /** The user id given to the i-th (0-based) request of a group. */
  function MemberId(groupId: int, i: int): int {
    groupId * 100 + i + 1
  }

  /** Within a group of at most 100 requests, member ids are distinct and
      do not collide with any other group's ids. */
  lemma MemberIdsCollisionFree(g: int, i: int, g': int, i': int)
    requires 0 <= i < 100 && 0 <= i' < 100
    ensures MemberId(g, i) == MemberId(g', i') <==> g == g' && i == i'
  {
    if g != g' {
      assert g * 100 - g' * 100 == (g - g') * 100;
    }
  }

  /** From the 101st request on, a group's ids run into the next group's. */
  lemma MemberIdsCollideAfterHundred(g: int)
    ensures MemberId(g, 100) == MemberId(g + 1, 0)
  {
  }

  /** `members` are the first |members| requests of group `groupId`, each
      under the id its position gives it and with the seats it asked for. */
  ghost predicate Roster(members: seq<Member>, groupId: int, requests: seq<seq<int>>) {
    && |members| <= |requests|
    && forall i | 0 <= i < |members| ::
         members[i].userId == MemberId(groupId, i) && members[i].seats == requests[i]
  }

  /** Processing the next request extends the roster by one. */
  lemma RosterExtend(members: seq<Member>, groupId: int, requests: seq<seq<int>>, outcome: Outcome)
    requires Roster(members, groupId, requests) && |members| < |requests|
    ensures Roster(members + [Member(MemberId(groupId, |members|), requests[|members|], outcome)], groupId, requests)
  {
  }

  /** How the requests of a group fare against one hall once the show has
      passed every check: the outcome of each request processed, in order,
      and the hall's free set afterwards. The group stops right after the
      first request whose remove loop raises, since that exception leaves
      the group booking. */
  datatype Run = Run(outcomes: seq<Outcome>, free: set<int>)

  function GroupRun(free: set<int>, capacity: int, requests: seq<seq<int>>, fuel: nat): (r: Run)
    ensures |r.outcomes| <= |requests| && r.free <= free
    ensures forall i | 0 <= i < |r.outcomes| - 1 :: r.outcomes[i] != KeyErrorRaised
    ensures |r.outcomes| < |requests| ==> r.outcomes != [] && r.outcomes[|r.outcomes| - 1] == KeyErrorRaised
  {
    if requests == [] then Run([], free)
    else
      var st := Attempt(free, capacity, requests[0], fuel);
      if st.outcome == KeyErrorRaised then Run([KeyErrorRaised], st.free)
      else
        var rest := GroupRun(st.free, capacity, requests[1..], fuel);
        Run([st.outcome] + rest.outcomes, rest.free)
  }

  /** No seat is booked twice within a group: each booked request's seats
      were free when the group started, are taken when it ends, and no two
      booked requests share a seat. */
  lemma {:induction false} GroupSeatsDisjoint(free: set<int>, capacity: int, requests: seq<seq<int>>, fuel: nat)
    ensures var r := GroupRun(free, capacity, requests, fuel);
      forall i | 0 <= i < |r.outcomes| && r.outcomes[i] == Booked ::
        SeatSet(requests[i]) <= free && SeatSet(requests[i]) !! r.free
    ensures var r := GroupRun(free, capacity, requests, fuel);
      forall i, j | 0 <= i < j < |r.outcomes| && r.outcomes[i] == Booked && r.outcomes[j] == Booked ::
        SeatSet(requests[i]) !! SeatSet(requests[j])
  {
    if requests != [] {
      var st := Attempt(free, capacity, requests[0], fuel);
      AllOrNothing(free, capacity, requests[0], fuel);
      AllFreeIsSubset(free, requests[0]);
      if st.outcome != KeyErrorRaised {
        var tail := requests[1..];
        GroupSeatsDisjoint(st.free, capacity, tail, fuel);
        var rest := GroupRun(st.free, capacity, tail, fuel);
        var r := GroupRun(free, capacity, requests, fuel);
        assert r.outcomes == [st.outcome] + rest.outcomes;
        forall i | 0 < i < |r.outcomes|
          ensures r.outcomes[i] == rest.outcomes[i - 1] && requests[i] == tail[i - 1]
        {
        }
      }
    }
  }

  /** The outcomes of a group's members, in order. */
  function OutcomesOf(ms: seq<Member>): (r: seq<Outcome>)
    ensures |r| == |ms| && forall i | 0 <= i < |ms| :: r[i] == ms[i].outcome
  {
    if ms == [] then [] else [ms[0].outcome] + OutcomesOf(ms[1..])
  }

  /** The log entries a group's booked members add to their hall, in order. */
  function Reservations(movie: string, title: string, ms: seq<Member>): (log: seq<Reservation>)
    ensures |log| == |ms|
    ensures forall i | 0 <= i < |ms| :: log[i] == Reservation(ms[i].userId, movie, title, ms[i].seats)
  {
    if ms == [] then [] else [Reservation(ms[0].userId, movie, title, ms[0].seats)] + Reservations(movie, title, ms[1..])
  }

  /** Partway through a group: the whole run is the outcomes of the members
      done so far followed by the run of the remaining requests from the
      hall's current free set. */
  ghost predicate Midway(run: Run, done: seq<Member>, free: set<int>, capacity: int, rest: seq<seq<int>>, fuel: nat) {
    var r := GroupRun(free, capacity, rest, fuel);
    run == Run(OutcomesOf(done) + r.outcomes, r.free)
  }

  lemma MidwayStart(free: set<int>, capacity: int, requests: seq<seq<int>>, fuel: nat)
    ensures Midway(GroupRun(free, capacity, requests, fuel), [], free, capacity, requests[0..], fuel)
  {
    assert requests[0..] == requests;
    assert OutcomesOf([]) + GroupRun(free, capacity, requests, fuel).outcomes
        == GroupRun(free, capacity, requests, fuel).outcomes;
  }

  /** One more request processed: the run goes on from the hall's new
      free set, or, when the request raised, nothing remains of it. */
  lemma MidwayStep(run: Run, done: seq<Member>, free: set<int>, capacity: int,
                   requests: seq<seq<int>>, i: nat, fuel: nat, m: Member)
    requires i < |requests| && Midway(run, done, free, capacity, requests[i..], fuel)
    requires m.outcome == Attempt(free, capacity, requests[i], fuel).outcome
    ensures Midway(run, done + [m], Attempt(free, capacity, requests[i], fuel).free, capacity,
                   if m.outcome == KeyErrorRaised then [] else requests[i + 1..], fuel)
  {
    var rest := requests[i..];
    assert rest[0] == requests[i] && rest[1..] == requests[i + 1..];
    var outs := OutcomesOf(done + [m]);
    assert outs == OutcomesOf(done) + [m.outcome];
    if m.outcome != KeyErrorRaised {
      var later := GroupRun(Attempt(free, capacity, requests[i], fuel).free, capacity, requests[i + 1..], fuel);
      AppendAssoc(OutcomesOf(done), [m.outcome], later.outcomes);
    } else {
      assert outs + [] == outs;
    }
  }

  /** Nothing remains: the run is complete. */
  lemma MidwayEnd(run: Run, done: seq<Member>, free: set<int>, capacity: int, fuel: nat)
    requires Midway(run, done, free, capacity, [], fuel)
    ensures run == Run(OutcomesOf(done), free)
  {
    assert OutcomesOf(done) + [] == OutcomesOf(done);
  }

  /** A member's booking call extends the hall log by its reservation
      exactly when it booked. */
  lemma LogStep(log0: seq<Reservation>, before: seq<Reservation>, after: seq<Reservation>,
                movie: string, title: string, done: seq<Member>, m: Member)
    requires before == log0 + Reservations(movie, title, Successes(done))
    requires after == before + (if m.outcome == Booked then [Reservation(m.userId, movie, title, m.seats)] else [])
    ensures after == log0 + Reservations(movie, title, Successes(done + [m]))
  {
    SuccessesAppend(done, m);
    if m.outcome == Booked {
      ReservationsAppend(movie, title, Successes(done), m);
      AppendAssoc(log0, Reservations(movie, title, Successes(done)), [Reservation(m.userId, movie, title, m.seats)]);
    } else {
      assert before + [] == before;
    }
  }

  /** The requests of a group that were booked, in order. */
  function Successes(ms: seq<Member>): seq<Member> {
    if ms == [] then []
    else (if ms[0].outcome == Booked then [ms[0]] else []) + Successes(ms[1..])
  }

  /** The requests of a group that failed, in order. */
  function Failures(ms: seq<Member>): seq<Member> {
    if ms == [] then []
    else (if ms[0].outcome != Booked then [ms[0]] else []) + Failures(ms[1..])
  }

  /** The lists a group booking has built once `members` were booked: the
      booked ones in `successful`, the others in `failed` unless the last
      one raised, and `raised` exactly when the last one raised, no earlier
      one having done so. */
  predicate Filed(members: seq<Member>, raised: bool, successful: seq<Member>, failed: seq<Member>) {
    && (raised <==> members != [] && members[|members| - 1].outcome == KeyErrorRaised)
    && (forall j | 0 <= j < |members| - 1 :: members[j].outcome != KeyErrorRaised)
    && successful == Successes(members)
    && (!raised ==> failed == Failures(members))
  }

  /** Filing the next member: a raise stops the lists, a booking extends
      `successful` and any other outcome extends `failed`. */
  lemma FiledStep(members: seq<Member>, successful: seq<Member>, failed: seq<Member>, m: Member)
    requires Filed(members, false, successful, failed)
    ensures m.outcome == KeyErrorRaised ==> Filed(members + [m], true, successful, failed)
    ensures m.outcome == Booked ==> Filed(members + [m], false, successful + [m], failed)
    ensures m.outcome != KeyErrorRaised && m.outcome != Booked ==>
      Filed(members + [m], false, successful, failed + [m])
  {
    SuccessesAppend(members, m);
  }

  /** The lists a group booking returns once its loop stops, either after
      the last request or at a raise. */
  lemma FiledDone(members: seq<Member>, raised: bool, successful: seq<Member>, failed: seq<Member>,
                  requests: seq<seq<int>>)
    requires Filed(members, raised, successful, failed)
    requires raised || |members| == |requests|
    ensures raised <==> members != [] && members[|members| - 1].outcome == KeyErrorRaised
    ensures forall i | 0 <= i < |members| - 1 :: members[i].outcome != KeyErrorRaised
    ensures !raised ==> |members| == |requests|
    ensures !raised ==> successful == Successes(members) && failed == Failures(members)
    ensures !raised ==> |successful| + |failed| == |requests|
  {
    SuccessesAndFailuresPartition(members);
  }

  /** Every request lands in exactly one of the two lists. */
  lemma {:induction false} SuccessesAndFailuresPartition(ms: seq<Member>)
    ensures |Successes(ms)| + |Failures(ms)| == |ms|
    ensures forall m :: m in Successes(ms) <==> m in ms && m.outcome == Booked
    ensures forall m :: m in Failures(ms) <==> m in ms && m.outcome != Booked
  {
    if ms != [] {
      SuccessesAndFailuresPartition(ms[1..]);
      assert ms == [ms[0]] + ms[1..];
    }
  }

  /** The ids of the shows in `order` that have not started at `now`, in
      that order. */
  function Upcoming(order: seq<string>, schedule: map<string, Show>, now: int): seq<string> {
    if order == [] then []
    else
      (if order[0] in schedule && schedule[order[0]].start > now then [order[0]] else [])
      + Upcoming(order[1..], schedule, now)
  }

  /** The upcoming listing holds exactly the scheduled shows that start
      strictly after `now`, each once, in schedule order. */
  lemma {:induction false} UpcomingExactly(order: seq<string>, schedule: map<string, Show>, now: int)
    ensures forall m :: m in Upcoming(order, schedule, now) <==> m in order && m in schedule && schedule[m].start > now
    ensures |Upcoming(order, schedule, now)| <= |order|
    ensures Distinct(order) ==> Distinct(Upcoming(order, schedule, now))
  {
    if order != [] {
      UpcomingExactly(order[1..], schedule, now);
      assert order == [order[0]] + order[1..];
      var rest := Upcoming(order[1..], schedule, now);
      if Distinct(order) {
        DistinctTail(order);
        if order[0] in schedule && schedule[order[0]].start > now {
          PrependDistinct(order[0], rest);
        }
      }
    }
  }

  /** The initial data is consistent: every show has a hall, each show's
      recorded capacity is its hall's capacity, and shows m1 and m5 share
      hall_a, so their seats come out of one inventory. */
  lemma InitialDataConsistent(now: int)
    ensures var sched, wiring, caps :=
      BookingSystem.InitialSchedule(now), BookingSystem.InitialWiring(), BookingSystem.InitialCapacities();
      && sched.Keys == wiring.Keys
      && (forall m | m in wiring :: wiring[m] in caps && caps[wiring[m]] == sched[m].capacity)
      && wiring["m1"] == wiring["m5"] == "hall_a"
      && (forall m | m in sched :: sched[m].id == m && sched[m].start > now)
  {
  }

  /** A hall: its capacity, its free seats and its append-only log. */
  class Hall {
    const id: string
    const capacity: int
    var free: set<int>
    var log: seq<Reservation>

    /** The free set stays within 1 .. capacity. */
    ghost predicate Valid()
      reads this
    {
      WithinHall(free, capacity)
    }

    /** A fresh hall has every seat free and an empty log. */
    constructor (id: string, capacity: int)
      ensures this.id == id && this.capacity == capacity
      ensures AllSeatsFree(free, capacity) && log == []
      ensures Valid()
    {
      this.id := id;
      this.capacity := capacity;
      free := Range(capacity);
      log := [];
    }

    /** The booking step under the hall's lock, retried up to `fuel` times
        while some seat is taken: seats out of range are refused, free
        seats are removed one by one and the booking logged. */
    method Book(userId: int, movie: string, title: string, seats: seq<int>, fuel: nat)
      returns (outcome: Outcome)
      requires Valid()
      modifies this
      ensures Valid()
      ensures var st := Attempt(old(free), capacity, seats, fuel);
        outcome == st.outcome && free == st.free
      ensures log == old(log) + (if outcome == Booked then [Reservation(userId, movie, title, seats)] else [])
    {
      outcome := SeatsTaken;
      var pass := 0;
      while pass < fuel
        invariant 0 <= pass <= fuel
        invariant free == old(free) && log == old(log)
        invariant pass > 0 ==> AllInRange(seats, capacity) && !AllFree(free, seats)
      {
        var allAvailable := forall s | s in seats :: s in free;
        var validSeats := forall s | s in seats :: 1 <= s <= capacity;
        if !validSeats {
          outcome := InvalidSeats;
          break;
        }
        if allAvailable {
          var raised := RemoveEach(seats);
          if raised {
            outcome := KeyErrorRaised;
          } else {
            log := log + [Reservation(userId, movie, title, seats)];
            outcome := Booked;
          }
          break;
        }
        pass := pass + 1;
      }
      AttemptKeepsRange(old(free), capacity, seats, fuel);
    }

    /** The booking system's remove loop, run on the hall's free set. */
    method RemoveEach(seats: seq<int>) returns (raised: bool)
      modifies this`free
      ensures RemoveSeats(old(free), seats) == Removal(free, raised)
    {
      raised := false;
      var i := 0;
      while i < |seats|
        invariant 0 <= i <= |seats|
        invariant RemoveSeats(free, seats[i..]) == RemoveSeats(old(free), seats)
      {
        assert seats[i..][0] == seats[i] && seats[i..][1..] == seats[i + 1..];
        if seats[i] !in free {
          raised := true;
          return;
        }
        free := free - {seats[i]};
        i := i + 1;
      }
    }
  }

  class BookingSystem {
    var schedule: map<string, Show>
    /** The key order of the schedule: the order in which the shows were inserted. */
    var showOrder: seq<string>
    var movieToHall: map<string, string>
    var halls: map<string, Hall>
    /** The admission semaphore's current value. */
    var permits: int
    var initialized: bool

    ghost predicate Valid()
      reads this, halls.Values
    {
      && permits >= 0
      && (forall k | k in halls :: halls[k].Valid())
      && (forall k, k' | k in halls && k' in halls && k != k' :: halls[k] != halls[k'])
      && Distinct(showOrder)
      && (forall m :: m in showOrder <==> m in schedule)
      && movieToHall.Keys <= schedule.Keys
    }

    /** Every show has a hall, and every hall named exists. */
    ghost predicate Wired()
      reads this
    {
      && schedule.Keys == movieToHall.Keys
      && (forall m | m in movieToHall :: movieToHall[m] in halls)
    }

    /** The show's hall id, when the show is known and names a hall that
        exists; an empty hall id counts as missing. */
    predicate HallFound(movie: string)
      reads this
    {
      movie in movieToHall && movieToHall[movie] != "" && movieToHall[movie] in halls
    }

    /** The refusal a booking of `movie` at `now` meets before it reaches
        the hall, if any: unknown show, show started, hall missing, or no
        admission permit, checked in that order. */
    function Gate(movie: string, now: int): (g: Option<Outcome>)
      reads this
      ensures g.None? <==> movie in schedule && now < schedule[movie].start && HallFound(movie) && permits != 0
      ensures g.Some? ==> g.value in {MovieNotFound, AlreadyStarted, HallNotFound, AdmissionTimeout}
    {
      if movie !in schedule then Some(MovieNotFound)
      else if now >= schedule[movie].start then Some(AlreadyStarted)
      else if !HallFound(movie) then Some(HallNotFound)
      else if permits == 0 then Some(AdmissionTimeout)
      else None
    }

    constructor (now: int)
      ensures Valid() && Wired() && initialized
      ensures permits == 4
      ensures schedule == InitialSchedule(now) && showOrder == InitialOrder() && movieToHall == InitialWiring()
      ensures halls.Keys == InitialCapacities().Keys
      ensures forall k | k in halls ::
        && halls[k].capacity == InitialCapacities()[k]
        && AllSeatsFree(halls[k].free, halls[k].capacity) && halls[k].log == []
    {
      schedule := map[];
      showOrder := [];
      movieToHall := map[];
      halls := map[];
      permits := 4;
      initialized := false;
      new;
      InitializeData(now);
    }

    static function InitialCapacities(): map<string, int> {
      map["hall_a" := 50, "hall_b" := 40, "hall_c" := 60, "hall_d" := 30]
    }

    /** The schedule's keys in the order they were inserted. */
    static function InitialOrder(): seq<string> {
      ["m1", "m2", "m3", "m4", "m5"]
    }

    static function InitialSchedule(now: int): map<string, Show> {
      map[
        "m1" := Show("m1", "Интерстеллар", now + 120, 50),
        "m2" := Show("m2", "Начало", now + 180, 40),
        "m3" := Show("m3", "Матрица", now + 60, 60),
        "m4" := Show("m4", "Титаник", now + 240, 30),
        "m5" := Show("m5", "Аватар", now + 300, 50)
      ]
    }

    static function InitialWiring(): map<string, string> {
      map["m1" := "hall_a", "m2" := "hall_b", "m3" := "hall_c", "m4" := "hall_d", "m5" := "hall_a"]
    }

    /** Fills the halls, the schedule and the show-to-hall map once; a
        second call changes nothing. Shows m1 and m5 share hall_a. */
    method InitializeData(now: int)
      requires Valid()
      modifies this
      ensures Valid() && initialized && permits == old(permits)
      ensures old(initialized) ==>
        schedule == old(schedule) && showOrder == old(showOrder)
        && movieToHall == old(movieToHall) && halls == old(halls)
      ensures !old(initialized) ==>
        && Wired()
        && schedule == InitialSchedule(now)
        && showOrder == InitialOrder()
        && movieToHall == InitialWiring()
        && halls.Keys == InitialCapacities().Keys
        && (forall k | k in halls ::
              && fresh(halls[k]) && halls[k].id == k
              && halls[k].capacity == InitialCapacities()[k]
              && AllSeatsFree(halls[k].free, halls[k].capacity) && halls[k].log == [])
    {
      if !initialized {
        var hs := NewHalls();
        InitialKeys(now);
        Load(hs, InitialSchedule(now), InitialOrder(), InitialWiring());
      }
    }

    /** Installs halls, a schedule, its key order and its show-to-hall
        map. */
    method Load(hs: map<string, Hall>, sched: map<string, Show>, order: seq<string>, wiring: map<string, string>)
      requires permits >= 0
      requires forall k | k in hs :: hs[k].Valid()
      requires forall k, k' | k in hs && k' in hs && k != k' :: hs[k] != hs[k']
      requires Distinct(order) && (forall m :: m in order <==> m in sched)
      requires wiring.Keys == sched.Keys
      requires forall m | m in wiring :: wiring[m] in hs
      modifies this
      ensures Valid() && Wired() && initialized && permits == old(permits)
      ensures halls == hs && schedule == sched && showOrder == order && movieToHall == wiring
    {
      halls, schedule, showOrder, movieToHall, initialized := hs, sched, order, wiring, true;
    }

    /** The initial show order lists every scheduled show once, and every
        show is wired to one of the initial halls. */
    static lemma InitialKeys(now: int)
      ensures Distinct(InitialOrder())
      ensures forall m :: m in InitialOrder() <==> m in InitialSchedule(now)
      ensures InitialWiring().Keys == InitialSchedule(now).Keys
      ensures forall m | m in InitialWiring() :: InitialWiring()[m] in InitialCapacities()
    {
      InitialDataConsistent(now);
    }

    /** The four halls of the initial data, every seat free. */
    static method NewHalls() returns (hs: map<string, Hall>)
      ensures hs.Keys == InitialCapacities().Keys
      ensures forall k | k in hs ::
        && fresh(hs[k]) && hs[k].id == k && hs[k].capacity == InitialCapacities()[k]
        && AllSeatsFree(hs[k].free, hs[k].capacity) && hs[k].log == [] && hs[k].Valid()
      ensures forall k, k' | k in hs && k' in hs && k != k' :: hs[k] != hs[k']
    {
      var a := new Hall("hall_a", 50);
      var b := new Hall("hall_b", 40);
      var c := new Hall("hall_c", 60);
      var d := new Hall("hall_d", 30);
      hs := map["hall_a" := a, "hall_b" := b, "hall_c" := c, "hall_d" := d];
      assert hs.Keys == {"hall_a", "hall_b", "hall_c", "hall_d"};
      forall k | k in hs
        ensures fresh(hs[k]) && hs[k].id == k && hs[k].capacity == InitialCapacities()[k]
        ensures AllSeatsFree(hs[k].free, hs[k].capacity) && hs[k].log == [] && hs[k].Valid()
      {
        if k == "hall_a" {
          assert hs[k] == a;
        } else if k == "hall_b" {
          assert hs[k] == b;
        } else if k == "hall_c" {
          assert hs[k] == c;
        } else {
          assert hs[k] == d;
        }
      }
      forall k, k' | k in hs && k' in hs && k != k' ensures hs[k] != hs[k'] {
        assert hs[k].id == k && hs[k'].id == k';
      }
    }

    /** The shows that have not started at `now`, in schedule order, with
        the free-seat count of each show's hall. */
    method GetAvailableMovies(now: int) returns (r: seq<Listing>)
      requires Valid() && Wired()
      ensures |r| == |Upcoming(showOrder, schedule, now)|
      ensures forall i | 0 <= i < |r| ::
        var m := Upcoming(showOrder, schedule, now)[i];
        && m in schedule
        && r[i] == Listing(m, schedule[m].title, schedule[m].start,
                           |halls[movieToHall[m]].free|, schedule[m].capacity)
    {
      r := [];
      ghost var ids: seq<string> := [];
      var i := 0;
      while i < |showOrder|
        invariant 0 <= i <= |showOrder|
        invariant ids == Upcoming(showOrder[..i], schedule, now)
        invariant |r| == |ids|
        invariant forall j | 0 <= j < |r| ::
          ids[j] in schedule
          && r[j] == Listing(ids[j], schedule[ids[j]].title, schedule[ids[j]].start,
                             |halls[movieToHall[ids[j]]].free|, schedule[ids[j]].capacity)
      {
        var m := showOrder[i];
        assert m in schedule;
        UpcomingAppend(showOrder[..i], m, schedule, now);
        assert showOrder[..i + 1] == showOrder[..i] + [m];
        var show := schedule[m];
        if show.start > now {
          var hall := halls[movieToHall[m]];
          r := r + [Listing(m, show.title, show.start, |hall.free|, show.capacity)];
          ids := ids + [m];
        }
        i := i + 1;
      }
      assert showOrder[..|showOrder|] == showOrder;
    }

    /** Whether the requested seats of a show are all free in its hall:
        false for an unknown show, otherwise whether every requested seat
        is free. */
    function CheckSeatAvailability(movie: string, seats: seq<int>): (ok: bool)
      reads this, halls.Values
      requires movie in movieToHall ==> movieToHall[movie] in halls
      ensures movie !in movieToHall ==> !ok
      ensures movie in movieToHall ==>
        (ok <==> SeatSet(seats) <= halls[movieToHall[movie]].free)
    {
      if movie !in movieToHall then false
      else
        var free := halls[movieToHall[movie]].free;
        AllFreeIsSubset(free, seats);
        AllFree(free, seats)
    }

    /** A hall's capacity, free and occupied counts and number of logged
        bookings; nothing for an unknown hall. */
    function HallStatistics(hallId: string): (r: Option<Stats>)
      reads this, halls.Values
      requires Valid()
      ensures r.None? <==> hallId !in halls
      ensures r.Some? ==>
        var h := halls[hallId];
        && r.value.hallId == hallId
        && r.value.capacity == h.capacity
        && r.value.available == |h.free|
        && r.value.available + r.value.occupied == r.value.capacity
        && r.value.totalBookings == |h.log|
        && (h.capacity >= 0 ==> 0 <= r.value.occupied <= r.value.capacity)
        && (h.capacity >= 0 ==> r.value.occupied == |Range(h.capacity) - h.free|)
    {
      if hallId !in halls then None
      else
        var h := halls[hallId];
        FreeCountBounded(h.free, h.capacity);
        Some(Stats(hallId, h.capacity, |h.free|, h.capacity - |h.free|, |h.log|))
    }

    /** Books `seats` of show `movie` for `userId`. The decision ladder is
        unknown show, show already started, hall missing, no admission
        permit, then the hall attempt (range, availability, the remove loop
        and one log entry on success). The permit taken is given back on
        every exit; other halls are untouched. */
    method BookSeats(movie: string, userId: int, seats: seq<int>, now: int, fuel: nat)
      returns (outcome: Outcome)
      requires Valid()
      modifies this`permits, halls.Values
      ensures Valid()
      ensures permits == old(permits)
      ensures Gate(movie, now).Some? ==>
        && outcome == Gate(movie, now).value
        && forall k | k in halls :: halls[k].free == old(halls[k].free) && halls[k].log == old(halls[k].log)
      ensures Gate(movie, now).None? ==>
        var hall := halls[movieToHall[movie]];
        var st := Attempt(old(hall.free), hall.capacity, seats, fuel);
        && outcome == st.outcome
        && hall.free == st.free
        && hall.log == old(hall.log)
             + (if outcome == Booked then [Reservation(userId, movie, schedule[movie].title, seats)] else [])
        && (forall k | k in halls && halls[k] != hall ::
              halls[k].free == old(halls[k].free) && halls[k].log == old(halls[k].log))
    {
      if movie !in schedule {
        return MovieNotFound;
      }
      var show := schedule[movie];
      if now >= show.start {
        return AlreadyStarted;
      }
      if !(movie in movieToHall && movieToHall[movie] != "" && movieToHall[movie] in halls) {
        return HallNotFound;
      }
      var hall := halls[movieToHall[movie]];
      if permits == 0 {
        return AdmissionTimeout;
      }
      permits := permits - 1;
      outcome := hall.Book(userId, movie, show.title, seats, fuel);
      permits := permits + 1;
    }

    /** Puts `seats` of show `movie` back when the show is known, its hall
        exists and every seat is in range and taken; otherwise changes
        nothing. Logs are never touched. */
    method ReleaseSeats(movie: string, seats: seq<int>) returns (ok: bool)
      requires Valid()
      modifies halls.Values
      ensures Valid()
      ensures forall k | k in halls :: halls[k].log == old(halls[k].log)
      ensures !(movie in movieToHall && movieToHall[movie] in halls) ==>
        !ok && forall k | k in halls :: halls[k].free == old(halls[k].free)
      ensures movie in movieToHall && movieToHall[movie] in halls ==>
        var hall := halls[movieToHall[movie]];
        && Released(ok, hall.free) == Release(old(hall.free), hall.capacity, seats)
        && (forall k | k in halls && halls[k] != hall :: halls[k].free == old(halls[k].free))
    {
      if movie !in movieToHall {
        return false;
      }
      var hallId := movieToHall[movie];
      if hallId !in halls {
        return false;
      }
      var hall := halls[hallId];
      var allOccupied := forall s | s in seats :: s !in hall.free;
      var validSeats := forall s | s in seats :: 1 <= s <= hall.capacity;
      if !allOccupied || !validSeats {
        return false;
      }
      for i := 0 to |seats|
        invariant hall.free == old(hall.free) + SeatSet(seats[..i])
        invariant hall.log == old(hall.log)
        modifies hall
      {
        assert seats[..i + 1] == seats[..i] + [seats[i]];
        hall.free := hall.free + {seats[i]};
      }
      assert seats[..|seats|] == seats;
      ReleaseKeepsRange(old(hall.free), hall.capacity, seats);
      ok := true;
    }

    /** Where the halls stand while a group is being booked, against the
        free sets `frees0` and logs `logs0` the halls had when the group
        arrived: a refused show has left every hall alone; otherwise hall
        `key` is where `run` has got to after `members`, with `rest` still
        to go, its log has gained one entry per booked member, and every
        other hall is as it was. A refused show has refused every member
        alike. */
    ghost predicate Tracks(gate: Option<Outcome>, key: string, run: Run, members: seq<Member>, rest: seq<seq<int>>,
                           movie: string, fuel: nat, frees0: map<string, set<int>>, logs0: map<string, seq<Reservation>>)
      reads this, halls.Values
    {
      && halls.Keys == frees0.Keys == logs0.Keys
      && (forall k | k in halls && (gate.Some? || k != key) :: halls[k].free == frees0[k] && halls[k].log == logs0[k])
      && (gate.Some? ==> forall j | 0 <= j < |members| :: members[j].outcome == gate.value)
      && (gate.None? ==>
            && key in halls && movie in schedule
            && Midway(run, members, halls[key].free, halls[key].capacity, rest, fuel)
            && halls[key].log == logs0[key] + Reservations(movie, schedule[movie].title, Successes(members)))
    }

    /** One round of the group loop: books request `i` of the group under
        the member id its position gives it and files the member, into
        `successful` when booked and into `failed` otherwise; a remove loop
        that raises files nothing and leaves `raised` set. */
    method BookMember(movie: string, groupId: int, requests: seq<seq<int>>, i: nat, now: int, fuel: nat,
                      successful: seq<Member>, failed: seq<Member>, ghost members: seq<Member>,
                      ghost gate: Option<Outcome>, ghost key: string, ghost run: Run,
                      ghost frees0: map<string, set<int>>, ghost logs0: map<string, seq<Reservation>>)
      returns (successful': seq<Member>, failed': seq<Member>, raised': bool,
               ghost members': seq<Member>, ghost rest': seq<seq<int>>)
      requires Valid() && Gate(movie, now) == gate && i == |members| < |requests|
      requires gate.None? ==> key == movieToHall[movie]
      requires Roster(members, groupId, requests) && Filed(members, false, successful, failed)
      requires Tracks(gate, key, run, members, requests[i..], movie, fuel, frees0, logs0)
      modifies this`permits, halls.Values
      ensures Valid() && permits == old(permits) && Gate(movie, now) == gate
      ensures |members'| == i + 1 && Roster(members', groupId, requests)
      ensures Filed(members', raised', successful', failed')
      ensures rest' == if raised' then [] else requests[i + 1..]
      ensures Tracks(gate, key, run, members', rest', movie, fuel, frees0, logs0)
    {
      ghost var freeBefore := if gate.None? then halls[key].free else {};
      ghost var logBefore := if gate.None? then halls[key].log else [];
      var userId := MemberId(groupId, i);
      var outcome := BookSeats(movie, userId, requests[i], now, fuel);
      var member := Member(userId, requests[i], outcome);
      if gate.None? {
        MidwayStep(run, members, freeBefore, halls[key].capacity, requests, i, fuel, member);
        LogStep(logs0[key], logBefore, halls[key].log, movie, schedule[movie].title, members, member);
      }
      FiledStep(members, successful, failed, member);
      RosterExtend(members, groupId, requests, outcome);
      members' := members + [member];
      successful', failed', raised' := successful, failed, false;
      if outcome == KeyErrorRaised {
        raised' := true;
      } else if outcome == Booked {
        successful' := successful + [member];
      } else {
        failed' := failed + [member];
      }
      rest' := if raised' then [] else requests[i + 1..];
    }

    /** Where a group booking starts: the halls as they are, and for a show
        that passes every check the whole group still to go against its
        hall. */
    lemma TracksStart(gate: Option<Outcome>, key: string, movie: string, requests: seq<seq<int>>, fuel: nat)
      returns (run: Run, frees0: map<string, set<int>>, logs0: map<string, seq<Reservation>>)
      requires gate.None? ==> key in halls && movie in schedule
      ensures halls.Keys == frees0.Keys == logs0.Keys
      ensures forall k | k in halls :: frees0[k] == halls[k].free && logs0[k] == halls[k].log
      ensures gate.None? ==> run == GroupRun(halls[key].free, halls[key].capacity, requests, fuel)
      ensures Tracks(gate, key, run, [], requests[0..], movie, fuel, frees0, logs0)
    {
      frees0 := map k | k in halls :: halls[k].free;
      logs0 := map k | k in halls :: halls[k].log;
      run := if gate.None? then GroupRun(halls[key].free, halls[key].capacity, requests, fuel) else Run([], {});
      if gate.None? {
        MidwayStart(halls[key].free, halls[key].capacity, requests, fuel);
        assert Reservations(movie, schedule[movie].title, Successes([])) == [];
      }
    }

    /** Where a group booking ends, against the free sets `frees0` and logs
        `logs0` the halls had when the group arrived: a refused show refused
        every member alike and left every hall alone; otherwise the members
        fared as `run` says, the hall's log gained one entry per booked
        member and no other hall changed. */
    lemma GroupSettled(movie: string, requests: seq<seq<int>>, fuel: nat, members: seq<Member>,
                       gate: Option<Outcome>, key: string, run: Run,
                       frees0: map<string, set<int>>, logs0: map<string, seq<Reservation>>)
      requires gate.Some? ==> gate.value != KeyErrorRaised
      requires |members| == |requests| || (members != [] && members[|members| - 1].outcome == KeyErrorRaised)
      requires Tracks(gate, key, run, members, [], movie, fuel, frees0, logs0)
      ensures gate.Some? ==>
        && |members| == |requests|
        && (forall i | 0 <= i < |members| :: members[i].outcome == gate.value)
        && (forall k | k in halls :: halls[k].free == frees0[k] && halls[k].log == logs0[k])
      ensures gate.None? ==>
        && OutcomesOf(members) == run.outcomes
        && halls[key].free == run.free
        && halls[key].log == logs0[key] + Reservations(movie, schedule[movie].title, Successes(members))
        && (forall k | k in halls && k != key :: halls[k].free == frees0[k] && halls[k].log == logs0[k])
    {
      if gate.None? {
        MidwayEnd(run, members, halls[key].free, halls[key].capacity, fuel);
      }
    }

    /** The loop of a group booking: books the requests in turn from the
        first, filing each member, until the last request or the first
        remove loop that raises. */
    method BookGroup(movie: string, groupId: int, requests: seq<seq<int>>, now: int, fuel: nat,
                     ghost gate: Option<Outcome>, ghost key: string, ghost run: Run,
                     ghost frees0: map<string, set<int>>, ghost logs0: map<string, seq<Reservation>>)
      returns (successful: seq<Member>, failed: seq<Member>, raised: bool, ghost members: seq<Member>)
      requires Valid() && Gate(movie, now) == gate
      requires gate.None? ==> key == movieToHall[movie]
      requires Tracks(gate, key, run, [], requests[0..], movie, fuel, frees0, logs0)
      modifies this`permits, halls.Values
      ensures Valid() && permits == old(permits)
      ensures Roster(members, groupId, requests) && Filed(members, raised, successful, failed)
      ensures raised || |members| == |requests|
      ensures Tracks(gate, key, run, members, [], movie, fuel, frees0, logs0)
    {
      successful, failed, raised, members := [], [], false, [];
      ghost var rest := requests[0..];
      var i := 0;
      while i < |requests| && !raised
        invariant 0 <= i <= |requests| && i == |members|
        invariant Valid() && permits == old(permits) && Gate(movie, now) == gate
        invariant Roster(members, groupId, requests)
        invariant Filed(members, raised, successful, failed)
        invariant rest == if raised then [] else requests[i..]
        invariant Tracks(gate, key, run, members, rest, movie, fuel, frees0, logs0)
      {
        successful, failed, raised, members, rest :=
          BookMember(movie, groupId, requests, i, now, fuel, successful, failed, members, gate, key, run, frees0, logs0);
        i := i + 1;
      }
      assert rest == [];
    }

    /** Books each request of a group in turn, member i under id
        `MemberId(groupId, i)`, sorting the members into the successful and
        the failed. A refused show refuses every member alike and touches
        no hall. Otherwise the members fare as `GroupRun` says against the
        show's hall, whose log gains one entry per booked member; no other
        hall changes. A remove loop that raises ends the group booking with
        that exception, after the member that raised. */
    method ProcessGroupBooking(movie: string, groupId: int, requests: seq<seq<int>>, now: int, fuel: nat)
      returns (successful: seq<Member>, failed: seq<Member>, raised: bool, ghost members: seq<Member>)
      requires Valid()
      modifies this`permits, halls.Values
      ensures Valid() && permits == old(permits)
      ensures Roster(members, groupId, requests)
      ensures raised <==> members != [] && members[|members| - 1].outcome == KeyErrorRaised
      ensures forall i | 0 <= i < |members| - 1 :: members[i].outcome != KeyErrorRaised
      ensures !raised ==> |members| == |requests|
      ensures !raised ==> successful == Successes(members) && failed == Failures(members)
      ensures !raised ==> |successful| + |failed| == |requests|
      ensures Gate(movie, now).Some? ==>
        && |members| == |requests|
        && (forall i | 0 <= i < |members| :: members[i].outcome == Gate(movie, now).value)
        && (forall k | k in halls :: halls[k].free == old(halls[k].free) && halls[k].log == old(halls[k].log))
      ensures Gate(movie, now).None? ==>
        var hall := halls[movieToHall[movie]];
        var run := GroupRun(old(hall.free), hall.capacity, requests, fuel);
        && OutcomesOf(members) == run.outcomes
        && hall.free == run.free
        && hall.log == old(hall.log) + Reservations(movie, schedule[movie].title, Successes(members))
        && (forall k | k in halls && halls[k] != hall ::
              halls[k].free == old(halls[k].free) && halls[k].log == old(halls[k].log))
    {
      ghost var gate := Gate(movie, now);
      ghost var key := if gate.None? then movieToHall[movie] else "";
      ghost var run, frees0, logs0 := TracksStart(gate, key, movie, requests, fuel);
      successful, failed, raised, members := BookGroup(movie, groupId, requests, now, fuel, gate, key, run, frees0, logs0);
      GroupSettled(movie, requests, fuel, members, gate, key, run, frees0, logs0);
      FiledDone(members, raised, successful, failed, requests);
    }
  }

  lemma {:induction false} UpcomingAppend(order: seq<string>, m: string, schedule: map<string, Show>, now: int)
    ensures Upcoming(order + [m], schedule, now)
         == Upcoming(order, schedule, now) + (if m in schedule && schedule[m].start > now then [m] else [])
  {
    var last := if m in schedule && schedule[m].start > now then [m] else [];
    if order == [] {
      assert [m][1..] == [];
      assert order + [m] == [m];
      assert Upcoming([m], schedule, now) == last + Upcoming([], schedule, now);
    } else {
      var first := if order[0] in schedule && schedule[order[0]].start > now then [order[0]] else [];
      var ext := order + [m];
      assert ext[0] == order[0] && ext[1..] == order[1..] + [m];
      UpcomingAppend(order[1..], m, schedule, now);
      calc {
        Upcoming(ext, schedule, now);
        first + Upcoming(order[1..] + [m], schedule, now);
        first + (Upcoming(order[1..], schedule, now) + last);
        { AppendAssoc(first, Upcoming(order[1..], schedule, now), last); }
        (first + Upcoming(order[1..], schedule, now)) + last;
        Upcoming(order, schedule, now) + last;
      }
    }
  }

  lemma {:induction false} SuccessesAppend(ms: seq<Member>, m: Member)
    ensures Successes(ms + [m]) == Successes(ms) + (if m.outcome == Booked then [m] else [])
    ensures Failures(ms + [m]) == Failures(ms) + (if m.outcome != Booked then [m] else [])
  {
    var won := if m.outcome == Booked then [m] else [];
    var lost := if m.outcome != Booked then [m] else [];
    if ms == [] {
      assert [m][1..] == [];
      assert ms + [m] == [m];
      assert Successes([m]) == won + Successes([]);
      assert Failures([m]) == lost + Failures([]);
    } else {
      var ext := ms + [m];
      assert ext[0] == ms[0] && ext[1..] == ms[1..] + [m];
      SuccessesAppend(ms[1..], m);
      var s0 := if ms[0].outcome == Booked then [ms[0]] else [];
      var f0 := if ms[0].outcome != Booked then [ms[0]] else [];
      calc {
        Successes(ext);
        s0 + Successes(ms[1..] + [m]);
        s0 + (Successes(ms[1..]) + won);
        { AppendAssoc(s0, Successes(ms[1..]), won); }
        (s0 + Successes(ms[1..])) + won;
        Successes(ms) + won;
      }
      calc {
        Failures(ext);
        f0 + Failures(ms[1..] + [m]);
        f0 + (Failures(ms[1..]) + lost);
        { AppendAssoc(f0, Failures(ms[1..]), lost); }
        (f0 + Failures(ms[1..])) + lost;
        Failures(ms) + lost;
      }
    }
  }

  lemma ReservationsAppend(movie: string, title: string, ms: seq<Member>, m: Member)
    ensures Reservations(movie, title, ms + [m])
         == Reservations(movie, title, ms) + [Reservation(m.userId, movie, title, m.seats)]
  {
    var r := Reservations(movie, title, ms + [m]);
    assert r[|ms|] == Reservation(m.userId, movie, title, m.seats);
    assert forall i | 0 <= i < |ms| :: r[i] == Reservations(movie, title, ms)[i];
  }
}
