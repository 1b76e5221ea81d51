/** The checks made on a trip request (kasa.cc:279-383): a sequence of stops
    and the routes taken between consecutive stops, read against the schedule. */
module Trips {
  import opened Routes

  /** Where leg i departs: stop i on route i. */
  function Departure(stops: seq<string>, routes: seq<int>, i: int): SchedulePoint
    requires 0 <= i < |routes| && i < |stops|
  {
    SchedulePoint(stops[i], routes[i])
  }

  /** Where leg i arrives: stop i + 1 on route i. */
  function Arrival(stops: seq<string>, routes: seq<int>, i: int): SchedulePoint
    requires 0 <= i < |routes| && i + 1 < |stops|
  {
    SchedulePoint(stops[i + 1], routes[i])
  }

  /** At least one leg, and one stop more than legs. */
  predicate WellFormed(stops: seq<string>, routes: seq<int>)
  {
    |routes| >= 1 && |stops| == |routes| + 1
  }

  /** A well-formed request whose every departure and arrival is in the schedule. */
  ghost predicate Scheduled(schedule: Schedule, stops: seq<string>, routes: seq<int>)
  {
    && WellFormed(stops, routes)
    && forall i :: 0 <= i < |routes| ==>
         Departure(stops, routes, i) in schedule && Arrival(stops, routes, i) in schedule
  }

  /** What `check_trip_validity` accepts (kasa.cc:284-290): at least two stops
      and one route, one stop more than routes, every departure and arrival
      scheduled, and the times D0 <= A0 <= D1 <= A1 <= ... never decrease. */
  ghost predicate TripValid(schedule: Schedule, stops: seq<string>, routes: seq<int>)
  {
    && |stops| >= 2
    && Scheduled(schedule, stops, routes)
    && (forall i :: 0 <= i < |routes| ==>
          schedule[Departure(stops, routes, i)] <= schedule[Arrival(stops, routes, i)])
    && (forall i :: 1 <= i < |routes| ==>
          schedule[Arrival(stops, routes, i - 1)] <= schedule[Departure(stops, routes, i)])
  }

  /** The interleaved chain of kasa.cc:308-319: D0, A0, D1, A1, ... */
  ghost predicate IsTripPoints(stops: seq<string>, routes: seq<int>, points: seq<SchedulePoint>)
    requires WellFormed(stops, routes)
  {
    && |points| == 2 * |routes|
    && forall i :: 0 <= i < |routes| ==>
         points[2 * i] == Departure(stops, routes, i) && points[2 * i + 1] == Arrival(stops, routes, i)
  }

  /** Both ends of the pair (y - 1, y) of the chain are scheduled and the
      time does not go back between them (one turn of kasa.cc:321-328). */
  ghost predicate PairOk(schedule: Schedule, points: seq<SchedulePoint>, y: int)
    requires 0 < y < |points|
  {
    points[y - 1] in schedule && points[y] in schedule && schedule[points[y - 1]] <= schedule[points[y]]
  }

  /** Every consecutive pair of the chain passes exactly when the trip is valid. */
  lemma ChainValid(schedule: Schedule, stops: seq<string>, routes: seq<int>, points: seq<SchedulePoint>)
    requires WellFormed(stops, routes) && IsTripPoints(stops, routes, points)
    ensures (forall y :: 0 < y < |points| ==> PairOk(schedule, points, y)) <==> TripValid(schedule, stops, routes)
  {
    if forall y :: 0 < y < |points| ==> PairOk(schedule, points, y) {
      forall i | 0 <= i < |routes|
        ensures Departure(stops, routes, i) in schedule && Arrival(stops, routes, i) in schedule
        ensures schedule[Departure(stops, routes, i)] <= schedule[Arrival(stops, routes, i)]
      {
        assert PairOk(schedule, points, 2 * i + 1);
      }
      forall i | 1 <= i < |routes|
        ensures schedule[Arrival(stops, routes, i - 1)] <= schedule[Departure(stops, routes, i)]
      {
        assert points[2 * (i - 1) + 1] == Arrival(stops, routes, i - 1);
        assert PairOk(schedule, points, 2 * i);
      }
    }
    if TripValid(schedule, stops, routes) {
      forall y | 0 < y < |points| ensures PairOk(schedule, points, y) {
        var i := y / 2;
        if y % 2 == 1 {
          assert y == 2 * i + 1 && y - 1 == 2 * i;
          assert points[y - 1] == Departure(stops, routes, i) && points[y] == Arrival(stops, routes, i);
        } else {
          assert y == 2 * i && y - 1 == 2 * (i - 1) + 1;
          assert points[y - 1] == Arrival(stops, routes, i - 1) && points[y] == Departure(stops, routes, i);
        }
      }
    }
  }

  /** `check_trip_validity` (kasa.cc:300-331): the size checks, the chain
      D0, A0, D1, A1, ... built pair by pair, then every consecutive pair of
      it checked for presence and order. */
  method CheckTripValidity(stops: seq<string>, routes: seq<int>, schedule: Schedule) returns (ok: bool)
    ensures ok <==> TripValid(schedule, stops, routes)
  {
    if |stops| < 2 {
      return false;
    }
    if |routes| < 1 {
      return false;
    }
    if |stops| != |routes| + 1 {
      return false;
    }
    var points: seq<SchedulePoint> := [];
    for i := 0 to |routes|
      invariant |points| == 2 * i
      invariant forall j :: 0 <= j < i ==>
        points[2 * j] == Departure(stops, routes, j) && points[2 * j + 1] == Arrival(stops, routes, j)
    {
      points := points + [SchedulePoint(stops[i], routes[i]), SchedulePoint(stops[i + 1], routes[i])];
    }
    ChainValid(schedule, stops, routes, points);
    for y := 1 to |points|
      invariant forall x :: 0 < x < y ==> PairOk(schedule, points, x)
    {
      if points[y - 1] !in schedule {
        assert !PairOk(schedule, points, y);
        return false;
      }
      if points[y] !in schedule {
        assert !PairOk(schedule, points, y);
        return false;
      }
      if schedule[points[y - 1]] > schedule[points[y]] {
        assert !PairOk(schedule, points, y);
        return false;
      }
    }
    ok := true;
  }

  /** The minutes from the first departure to the last arrival. */
  function Elapsed(schedule: Schedule, stops: seq<string>, routes: seq<int>): int
    requires Scheduled(schedule, stops, routes)
  {
    schedule[Arrival(stops, routes, |routes| - 1)] - schedule[Departure(stops, routes, 0)]
  }

  /** Leg i > 0 does not leave when leg i - 1 arrives: the traveller waits at stops[i]. */
  ghost predicate WaitAt(schedule: Schedule, stops: seq<string>, routes: seq<int>, i: int)
    requires Scheduled(schedule, stops, routes)
  {
    1 <= i < |routes| && schedule[Departure(stops, routes, i)] != schedule[Arrival(stops, routes, i - 1)]
  }

  /** `scan_trip_request` (kasa.cc:351-383): the elapsed time; whether the
      traveller waits anywhere; and the first stop where they do, or "". */
  method ScanTripRequest(stops: seq<string>, routes: seq<int>, schedule: Schedule)
    returns (travel: int, waits: bool, where: string)
    requires Scheduled(schedule, stops, routes)
    ensures travel == Elapsed(schedule, stops, routes)
    ensures waits <==> exists i :: WaitAt(schedule, stops, routes, i)
    ensures waits ==> exists i ::
      (&& WaitAt(schedule, stops, routes, i) && where == stops[i]
       && forall j :: 1 <= j < i ==> !WaitAt(schedule, stops, routes, j))
    ensures !waits ==> where == ""
  {
    var departures := seq(|routes|, i requires 0 <= i < |routes| => SchedulePoint(stops[i], routes[i]));
    var arrivals := seq(|routes|, i requires 0 <= i < |routes| => SchedulePoint(stops[i + 1], routes[i]));
    assert departures[0] == Departure(stops, routes, 0);
    var last := schedule[departures[0]];
    waits := false;
    where := "";
    for i := 0 to |routes|
      invariant last == if i == 0 then schedule[Departure(stops, routes, 0)] else schedule[Arrival(stops, routes, i - 1)]
      invariant waits <==> exists j :: j < i && WaitAt(schedule, stops, routes, j)
      invariant waits ==> exists j ::
        (&& j < i && WaitAt(schedule, stops, routes, j) && where == stops[j]
         && forall l :: 1 <= l < j ==> !WaitAt(schedule, stops, routes, l))
      invariant !waits ==> where == ""
    {
      assert departures[i] == Departure(stops, routes, i) && arrivals[i] == Arrival(stops, routes, i);
      if !waits && schedule[departures[i]] != last {
        assert WaitAt(schedule, stops, routes, i);
        waits := true;
        where := departures[i].stop;
      }
      last := schedule[arrivals[i]];
    }
    assert arrivals[|routes| - 1] == Arrival(stops, routes, |routes| - 1);
    travel := schedule[arrivals[|routes| - 1]] - schedule[departures[0]];
  }

  /** On a valid trip no arrival comes before the first departure. */
  lemma {:induction false} NoArrivalBeforeStart(schedule: Schedule, stops: seq<string>, routes: seq<int>, i: int)
    requires TripValid(schedule, stops, routes) && 0 <= i < |routes|
    ensures schedule[Departure(stops, routes, 0)] <= schedule[Arrival(stops, routes, i)]
    decreases i
  {
    if i > 0 {
      NoArrivalBeforeStart(schedule, stops, routes, i - 1);
      assert schedule[Arrival(stops, routes, i - 1)] <= schedule[Departure(stops, routes, i)];
    }
  }

  /** On a valid trip the elapsed time is not negative, and every wait is a
      later departure than the arrival before it. */
  lemma ValidTripTimes(schedule: Schedule, stops: seq<string>, routes: seq<int>)
    requires TripValid(schedule, stops, routes)
    ensures Elapsed(schedule, stops, routes) >= 0
    ensures forall i :: WaitAt(schedule, stops, routes, i) ==>
      schedule[Departure(stops, routes, i)] > schedule[Arrival(stops, routes, i - 1)]
  {
    NoArrivalBeforeStart(schedule, stops, routes, |routes| - 1);
  }
}
