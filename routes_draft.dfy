/** The global-state draft of the route half (obsluga_zapytan.cpp:23-212):
    route registration without the empty-route check and without ever
    recording a route id, a trip check whose time chain starts from the first
    arrival, and a wait scan that keeps the last stop where waiting is needed. */
module RoutesDraft {
  import opened Routes
  import opened Trips

  /** The draft's acceptance rule (obsluga_zapytan.cpp:43-60): a new id, no
      stop twice, strictly increasing times; an empty route passes. */
  ghost predicate DraftValidNewRoute(id: int, route: seq<StopTime>, existing: set<int>)
  {
    id !in existing && Increasing(route) && DistinctStops(route)
  }

  /** The draft `is_valid_new_route` (obsluga_zapytan.cpp:43-60). */
  method DraftIsValidNewRoute(id: int, route: seq<StopTime>, existing: set<int>) returns (ok: bool)
    ensures ok <==> DraftValidNewRoute(id, route, existing)
  {
    if id in existing {
      return false;
    }
    ok := ScanStops(route);
  }

  /** The draft and kasa.cc agree on every route with at least one stop;
      the empty route is accepted by the draft for any new id and refused by kasa.cc. */
  lemma DraftValidityVersusFinal(id: int, route: seq<StopTime>, existing: set<int>)
    ensures route != [] ==> (DraftValidNewRoute(id, route, existing) <==> ValidNewRoute(id, route, existing))
    ensures DraftValidNewRoute(id, [], existing) <==> id !in existing
    ensures !ValidNewRoute(id, [], existing)
  {
    assert IncreasingUpTo([], 0) && DistinctUpTo([], 0);
  }

  /** The draft's globals `schedule` and `existing_routes` (obsluga_zapytan.cpp:23-26). */
  class DraftTimetable {
    var routes: set<int>
    var schedule: Schedule

    constructor ()
      ensures routes == {} && schedule == map[]
    {
      routes := {};
      schedule := map[];
    }

    /** The draft `add_new_route` (obsluga_zapytan.cpp:87-93): writes the
        route's keys when the draft rule accepts it, and never records the id. */
    method AddRoute(id: int, route: seq<StopTime>) returns (ok: bool)
      modifies this
      ensures routes == old(routes)
      ensures ok <==> DraftValidNewRoute(id, route, old(routes))
      ensures ok ==> schedule == WithRoute(old(schedule), id, route)
      ensures !ok ==> schedule == old(schedule)
    {
      ok := DraftIsValidNewRoute(id, route, routes);
      if !ok {
        return;
      }
      for i := 0 to |route|
        invariant routes == old(routes)
        invariant schedule == WithRoute(old(schedule), id, route[..i])
      {
        assert route[..i + 1][..i] == route[..i];
        schedule := schedule[SchedulePoint(route[i].stop, id) := route[i].time];
      }
      assert route[..|route|] == route;
    }
  }

  /** In the draft a route number can be registered twice: both calls
      succeed and the second one's times replace the first one's. */
  method DraftRegistersTwice(id: int, first: seq<StopTime>, second: seq<StopTime>)
    returns (ok1: bool, ok2: bool, times: Schedule)
    requires DraftValidNewRoute(id, first, {}) && DraftValidNewRoute(id, second, {})
    ensures ok1 && ok2
    ensures forall i | 0 <= i < |second| ::
      (SchedulePoint(second[i].stop, id) in times && times[SchedulePoint(second[i].stop, id)] == second[i].time)
  {
    var t := new DraftTimetable();
    ok1 := t.AddRoute(id, first);
    ok2 := t.AddRoute(id, second);
    WithRouteWrites(WithRoute(map[], id, first), id, second);
    times := t.schedule;
  }

  /** kasa.cc records the id, so the same number is refused the second time. */
  method FinalRegistersOnce(id: int, first: seq<StopTime>, second: seq<StopTime>)
    returns (ok1: bool, ok2: bool)
    requires ValidNewRoute(id, first, {})
    ensures ok1 && !ok2
  {
    var t := new Timetable();
    ok1 := t.AddRoute(id, first);
    ok2 := t.AddRoute(id, second);
  }

  // ---------------------------------------------------------------------------
  // Trip checks

  /** Every departure and arrival key is in the schedule (the two `any_of`
      calls of obsluga_zapytan.cpp:117-124); `not_scheduled` is `!in`. */
  ghost predicate DraftKeysScheduled(schedule: Schedule, stops: seq<string>, routes: seq<int>)
    requires |stops| >= |routes| + 1
  {
    forall i :: 0 <= i < |routes| ==>
      Departure(stops, routes, i) in schedule && Arrival(stops, routes, i) in schedule
  }

  /** The time leg i must not leave before in the draft: the arrival of leg
      i - 1, and for the first leg its own arrival (obsluga_zapytan.cpp:126). */
  ghost function DraftPrevious(schedule: Schedule, stops: seq<string>, routes: seq<int>, i: int): int
    requires |stops| >= |routes| + 1 && DraftKeysScheduled(schedule, stops, routes)
    requires 0 <= i < |routes|
  {
    if i == 0 then schedule[Arrival(stops, routes, 0)] else schedule[Arrival(stops, routes, i - 1)]
  }

  /** One turn of the draft chain (obsluga_zapytan.cpp:131-135). */
  ghost predicate DraftLegOk(schedule: Schedule, stops: seq<string>, routes: seq<int>, i: int)
    requires |stops| >= |routes| + 1 && DraftKeysScheduled(schedule, stops, routes)
    requires 0 <= i < |routes|
  {
    DraftPrevious(schedule, stops, routes, i) <= schedule[Departure(stops, routes, i)]
      <= schedule[Arrival(stops, routes, i)]
  }

  /** What the draft `check_trip_validity` accepts (obsluga_zapytan.cpp:108-138). */
  ghost predicate DraftTripValid(schedule: Schedule, stops: seq<string>, routes: seq<int>)
    requires |stops| >= 2 && |routes| >= 1 ==> |stops| >= |routes| + 1
  {
    && |stops| >= 2 && |routes| >= 1
    && DraftKeysScheduled(schedule, stops, routes)
    && forall i :: 0 <= i < |routes| ==> DraftLegOk(schedule, stops, routes, i)
  }

  /** The draft `check_trip_validity`. It never compares the number of stops
      with the number of routes, so it needs at least one stop more than
      routes to read the arrival stops. */
  method DraftCheckTripValidity(stops: seq<string>, routes: seq<int>, schedule: Schedule) returns (ok: bool)
    requires |stops| >= 2 && |routes| >= 1 ==> |stops| >= |routes| + 1
    ensures ok <==> DraftTripValid(schedule, stops, routes)
  {
    if |stops| < 2 {
      return false;
    }
    if |routes| < 1 {
      return false;
    }
    var departures := seq(|routes|, i requires 0 <= i < |routes| => SchedulePoint(stops[i], routes[i]));
    for i := 0 to |routes|
      invariant forall j :: 0 <= j < i ==> Departure(stops, routes, j) in schedule
    {
      assert departures[i] == Departure(stops, routes, i);
      if departures[i] !in schedule {
        return false;
      }
    }
    var arrivals := seq(|routes|, i requires 0 <= i < |routes| => SchedulePoint(stops[i + 1], routes[i]));
    for i := 0 to |routes|
      invariant forall j :: 0 <= j < i ==> Arrival(stops, routes, j) in schedule
    {
      assert arrivals[i] == Arrival(stops, routes, i);
      if arrivals[i] !in schedule {
        return false;
      }
    }
    assert DraftKeysScheduled(schedule, stops, routes);
    assert arrivals[0] == Arrival(stops, routes, 0);
    var last := schedule[arrivals[0]];
    for i := 0 to |routes|
      invariant i < |routes| ==> last == DraftPrevious(schedule, stops, routes, i)
      invariant forall j :: 0 <= j < i ==> DraftLegOk(schedule, stops, routes, j)
    {
      assert departures[i] == Departure(stops, routes, i) && arrivals[i] == Arrival(stops, routes, i);
      if schedule[departures[i]] < last {
        assert !DraftLegOk(schedule, stops, routes, i);
        return false;
      }
      last := schedule[departures[i]];
      if schedule[arrivals[i]] < last {
        assert !DraftLegOk(schedule, stops, routes, i);
        return false;
      }
      last := schedule[arrivals[i]];
    }
    ok := true;
  }

  /** Because the draft chain starts from the first arrival, it accepts only
      trips whose first leg takes no time. */
  lemma DraftFirstLegInstant(schedule: Schedule, stops: seq<string>, routes: seq<int>)
    requires |stops| >= 2 && |routes| >= 1 ==> |stops| >= |routes| + 1
    requires DraftTripValid(schedule, stops, routes)
    ensures schedule[Departure(stops, routes, 0)] == schedule[Arrival(stops, routes, 0)]
  {
    assert DraftLegOk(schedule, stops, routes, 0);
  }

  /** On a well-formed request the draft accepts exactly the trips kasa.cc
      accepts whose first leg takes no time. */
  lemma DraftTripVersusFinal(schedule: Schedule, stops: seq<string>, routes: seq<int>)
    requires WellFormed(stops, routes)
    ensures DraftTripValid(schedule, stops, routes) <==>
      (&& TripValid(schedule, stops, routes)
       && schedule[Departure(stops, routes, 0)] == schedule[Arrival(stops, routes, 0)])
  {
    if DraftTripValid(schedule, stops, routes) {
      forall i | 0 <= i < |routes|
        ensures schedule[Departure(stops, routes, i)] <= schedule[Arrival(stops, routes, i)]
      {
        assert DraftLegOk(schedule, stops, routes, i);
      }
      forall i | 1 <= i < |routes|
        ensures schedule[Arrival(stops, routes, i - 1)] <= schedule[Departure(stops, routes, i)]
      {
        assert DraftLegOk(schedule, stops, routes, i);
      }
      DraftFirstLegInstant(schedule, stops, routes);
    }
    if TripValid(schedule, stops, routes)
      && schedule[Departure(stops, routes, 0)] == schedule[Arrival(stops, routes, 0)]
    {
      assert DraftKeysScheduled(schedule, stops, routes);
      forall i | 0 <= i < |routes| ensures DraftLegOk(schedule, stops, routes, i) {
      }
    }
  }

  /** A one-leg trip from "A" at minute 10 to "B" at minute 20 on route 1. */
  function OneLeg(): Schedule
  {
    map[SchedulePoint("A", 1) := 10, SchedulePoint("B", 1) := 20]
  }

  /** kasa.cc accepts this ordinary trip; the draft refuses it. */
  lemma DraftRefusesOrdinaryTrip()
    ensures TripValid(OneLeg(), ["A", "B"], [1])
    ensures !DraftTripValid(OneLeg(), ["A", "B"], [1])
  {
    var stops, routes := ["A", "B"], [1];
    assert Departure(stops, routes, 0) == SchedulePoint("A", 1);
    assert Arrival(stops, routes, 0) == SchedulePoint("B", 1);
    assert !DraftLegOk(OneLeg(), stops, routes, 0);
  }

  // ---------------------------------------------------------------------------
  // Wait scan

  /** Leg i leaves at another time than the draft's previous time. */
  ghost predicate DraftWaitAt(schedule: Schedule, stops: seq<string>, routes: seq<int>, i: int)
    requires |stops| >= |routes| + 1 && DraftKeysScheduled(schedule, stops, routes)
  {
    0 <= i < |routes| && schedule[Departure(stops, routes, i)] != DraftPrevious(schedule, stops, routes, i)
  }

  /** The last of the first n legs that waits in the draft's sense, or -1. */
  ghost function LastWait(schedule: Schedule, stops: seq<string>, routes: seq<int>, n: int): int
    requires |stops| >= |routes| + 1 && DraftKeysScheduled(schedule, stops, routes)
    requires 0 <= n <= |routes|
  {
    if n == 0 then -1
    else if DraftWaitAt(schedule, stops, routes, n - 1) then n - 1
    else LastWait(schedule, stops, routes, n - 1)
  }

  /** `LastWait` is -1 exactly when none of the first n legs waits, and
      otherwise a leg that waits with no waiting leg after it. */
  lemma {:induction false} LastWaitIsLast(schedule: Schedule, stops: seq<string>, routes: seq<int>, n: int)
    requires |stops| >= |routes| + 1 && DraftKeysScheduled(schedule, stops, routes)
    requires 0 <= n <= |routes|
    ensures var w := LastWait(schedule, stops, routes, n);
      && -1 <= w < n
      && (w == -1 <==> forall j :: 0 <= j < n ==> !DraftWaitAt(schedule, stops, routes, j))
      && (w >= 0 ==> DraftWaitAt(schedule, stops, routes, w))
      && (forall l :: w < l < n ==> !DraftWaitAt(schedule, stops, routes, l))
  {
    if n > 0 {
      LastWaitIsLast(schedule, stops, routes, n - 1);
    }
  }

  /** The wait scan inside the draft `plan_tickets` (obsluga_zapytan.cpp:187-208):
      whether no leg waits, and the stop of the LAST leg that does, or "". */
  method DraftScanWaits(stops: seq<string>, routes: seq<int>, schedule: Schedule)
    returns (noWaiting: bool, where: string)
    requires |routes| >= 1 && |stops| >= |routes| + 1 && DraftKeysScheduled(schedule, stops, routes)
    ensures !noWaiting <==> exists i :: 0 <= i < |routes| && DraftWaitAt(schedule, stops, routes, i)
    ensures !noWaiting ==> exists i ::
      (&& 0 <= i < |routes| && DraftWaitAt(schedule, stops, routes, i) && where == stops[i]
       && forall j :: i < j < |routes| ==> !DraftWaitAt(schedule, stops, routes, j))
    ensures noWaiting ==> where == ""
  {
    var last := schedule[Arrival(stops, routes, 0)];
    noWaiting := true;
    where := "";
    for i := 0 to |routes|
      invariant i < |routes| ==> last == DraftPrevious(schedule, stops, routes, i)
      invariant noWaiting <==> LastWait(schedule, stops, routes, i) == -1
      invariant !noWaiting ==>
        (0 <= LastWait(schedule, stops, routes, i) < i && where == stops[LastWait(schedule, stops, routes, i)])
      invariant noWaiting ==> where == ""
    {
      LastWaitIsLast(schedule, stops, routes, i);
      if schedule[Departure(stops, routes, i)] != last {
        noWaiting := false;
        where := stops[i];
      }
      last := schedule[Arrival(stops, routes, i)];
    }
    LastWaitIsLast(schedule, stops, routes, |routes|);
  }

  /** When the first leg takes no time, the draft sees a wait at exactly the
      legs kasa.cc does; the two differ only in which stop they report. */
  lemma DraftWaitsVersusFinal(schedule: Schedule, stops: seq<string>, routes: seq<int>)
    requires Scheduled(schedule, stops, routes)
    requires schedule[Departure(stops, routes, 0)] == schedule[Arrival(stops, routes, 0)]
    ensures DraftKeysScheduled(schedule, stops, routes)
    ensures forall i :: DraftWaitAt(schedule, stops, routes, i) <==> WaitAt(schedule, stops, routes, i)
  {
  }

  /** A trip A -> B -> C -> D on routes 1, 2, 3 whose first leg takes no time
      and which waits five minutes at B and at C. */
  function TwoWaits(): Schedule
  {
    map[SchedulePoint("A", 1) := 20, SchedulePoint("B", 1) := 20,
        SchedulePoint("B", 2) := 25, SchedulePoint("C", 2) := 30,
        SchedulePoint("C", 3) := 35, SchedulePoint("D", 3) := 40]
  }

  /** On that trip kasa.cc reports the first stop where the traveller waits,
      "B", and the draft reports the last, "C"; both versions accept the trip. */
  method CompareWaitScans() returns (first: string, last: string)
    ensures first == "B" && last == "C"
  {
    var stops, routes, m := ["A", "B", "C", "D"], [1, 2, 3], TwoWaits();
    assert Departure(stops, routes, 0) == SchedulePoint("A", 1);
    assert Arrival(stops, routes, 0) == SchedulePoint("B", 1);
    assert Departure(stops, routes, 1) == SchedulePoint("B", 2);
    assert Arrival(stops, routes, 1) == SchedulePoint("C", 2);
    assert Departure(stops, routes, 2) == SchedulePoint("C", 3);
    assert Arrival(stops, routes, 2) == SchedulePoint("D", 3);
    assert WaitAt(m, stops, routes, 1) && WaitAt(m, stops, routes, 2);
    assert DraftWaitAt(m, stops, routes, 2);
    var travel, waits;
    travel, waits, first := ScanTripRequest(stops, routes, m);
    var noWaiting;
    noWaiting, last := DraftScanWaits(stops, routes, m);
  }
}
