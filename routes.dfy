/** The schedule store of the ticket office (kasa.cc:210-277): the set of
    registered route ids and the map from (stop, route) to the minute the
    bus of that route is at that stop. */
module Routes {

  /** `schedule_point`: a stop on a route (kasa.cc:243-245). */
  datatype SchedulePoint = SchedulePoint(stop: string, route: int)

  /** One entry of a submitted route: a stop and the minute the bus is there. */
  datatype StopTime = StopTime(stop: string, time: int)

  /** `bus_schedule`; `contains` (kasa.cc:275-277) is map membership. */
  type Schedule = map<SchedulePoint, int>

  /** The time entry i must exceed: the previous entry's, or 0 for the first. */
  function PreviousTime(route: seq<StopTime>, i: int): int
    requires 0 <= i < |route|
  {
    if i == 0 then 0 else route[i - 1].time
  }

  /** Times strictly increase over the first n entries, the first one above 0. */
  ghost predicate IncreasingUpTo(route: seq<StopTime>, n: int)
    requires 0 <= n <= |route|
  {
    forall i :: 0 <= i < n ==> route[i].time > PreviousTime(route, i)
  }

  /** No stop occurs twice among the first n entries. */
  ghost predicate DistinctUpTo(route: seq<StopTime>, n: int)
    requires 0 <= n <= |route|
  {
    forall a, b :: 0 <= a < b < n ==> route[a].stop != route[b].stop
  }

  ghost predicate Increasing(route: seq<StopTime>)
  {
    IncreasingUpTo(route, |route|)
  }

  ghost predicate DistinctStops(route: seq<StopTime>)
  {
    DistinctUpTo(route, |route|)
  }

  /** The acceptance rule of `is_valid_new_route` (kasa.cc:210-231): a new
      id, at least one stop, no stop twice, strictly increasing times. */
  ghost predicate ValidNewRoute(id: int, route: seq<StopTime>, existing: set<int>)
  {
    id !in existing && |route| > 0 && Increasing(route) && DistinctStops(route)
  }

  /** The stop names of the first n entries. */
  ghost function StopsUpTo(route: seq<StopTime>, n: int): set<string>
    requires 0 <= n <= |route|
  {
    if n == 0 then {} else StopsUpTo(route, n - 1) + {route[n - 1].stop}
  }

  /** A name is among the first n stops exactly when one of them carries it. */
  lemma {:induction false} InStopsUpTo(route: seq<StopTime>, n: int, name: string)
    requires 0 <= n <= |route|
    ensures name in StopsUpTo(route, n) <==> exists j :: 0 <= j < n && route[j].stop == name
  {
    if n > 0 {
      InStopsUpTo(route, n - 1, name);
    }
  }

  /** The loop of kasa.cc:218-228: records each stop in `visited` and fails at
      the first time that does not exceed the previous one; afterwards fails
      when fewer distinct stops were seen than the route has entries. */
  method ScanStops(route: seq<StopTime>) returns (ok: bool)
    ensures ok <==> Increasing(route) && DistinctStops(route)
  {
    var visited: set<string> := {};
    var last := 0;
    for i := 0 to |route|
      invariant visited == StopsUpTo(route, i)
      invariant IncreasingUpTo(route, i)
      invariant i < |route| ==> last == PreviousTime(route, i)
    {
      visited := visited + {route[i].stop};
      IncreasingStep(route, i);
      if route[i].time <= last {
        return false;
      }
      last := route[i].time;
    }
    StopsCount(route, |route|);
    ok := |visited| >= |route|;
  }

  /** The first n entries have n different stop names exactly when no stop
      repeats among them, and never more. */
  lemma {:induction false} StopsCount(route: seq<StopTime>, n: int)
    requires 0 <= n <= |route|
    ensures |StopsUpTo(route, n)| <= n
    ensures |StopsUpTo(route, n)| == n <==> DistinctUpTo(route, n)
  {
    if n > 0 {
      StopsCount(route, n - 1);
      VisitStep(route, n - 1, StopsUpTo(route, n - 1));
    }
  }

  /** Recording stop i in the set of the stops before it: the set grows by
      one exactly when the stop is new, and the stops stay distinct exactly then. */
  lemma VisitStep(route: seq<StopTime>, i: int, visited: set<string>)
    requires 0 <= i < |route| && visited == StopsUpTo(route, i)
    requires |visited| <= i && (|visited| == i <==> DistinctUpTo(route, i))
    ensures visited + {route[i].stop} == StopsUpTo(route, i + 1)
    ensures |visited + {route[i].stop}| <= i + 1
    ensures |visited + {route[i].stop}| == i + 1 <==> DistinctUpTo(route, i + 1)
  {
    var after := visited + {route[i].stop};
    InStopsUpTo(route, i, route[i].stop);
    if route[i].stop in visited {
      assert after == visited;
      var j :| 0 <= j < i && route[j].stop == route[i].stop;
      assert !DistinctUpTo(route, i + 1);
    } else {
      assert |after| == |visited| + 1;
      if DistinctUpTo(route, i) {
        forall a, b | 0 <= a < b < i + 1 ensures route[a].stop != route[b].stop {
          if b == i {
            InStopsUpTo(route, i, route[a].stop);
          }
        }
      }
    }
  }

  /** A time above the previous one extends the increasing prefix by one. */
  lemma IncreasingStep(route: seq<StopTime>, i: int)
    requires 0 <= i < |route| && IncreasingUpTo(route, i)
    ensures route[i].time > PreviousTime(route, i) <==> IncreasingUpTo(route, i + 1)
    ensures route[i].time <= PreviousTime(route, i) ==> !Increasing(route)
  {
  }

  /** `is_valid_new_route` (kasa.cc:210-231). */
  method IsValidNewRoute(id: int, route: seq<StopTime>, existing: set<int>) returns (ok: bool)
    ensures ok <==> ValidNewRoute(id, route, existing)
  {
    if id in existing {
      return false;
    }
    if |route| == 0 {
      return false;
    }
    ok := ScanStops(route);
  }

  /** The schedule after writing each (stop, id) key of the route in order,
      a later write of the same key winning (kasa.cc:269-271). */
  function WithRoute(m: Schedule, id: int, route: seq<StopTime>): Schedule
    decreases |route|
  {
    if route == [] then m
    else
      var last := route[|route| - 1];
      WithRoute(m, id, route[..|route| - 1])[SchedulePoint(last.stop, id) := last.time]
  }

  /** The keys a route writes. */
  ghost function Keys(id: int, route: seq<StopTime>): set<SchedulePoint>
  {
    set i | 0 <= i < |route| :: SchedulePoint(route[i].stop, id)
  }

  /** The keys of a route are those of all but its last entry plus the last one's. */
  lemma KeysSnoc(id: int, route: seq<StopTime>)
    requires route != []
    ensures Keys(id, route) == Keys(id, route[..|route| - 1]) + {SchedulePoint(route[|route| - 1].stop, id)}
  {
    var n := |route| - 1;
    var front := route[..n];
    forall k ensures k in Keys(id, route) <==> k in Keys(id, front) + {SchedulePoint(route[n].stop, id)} {
      if k in Keys(id, route) {
        var i :| 0 <= i < |route| && k == SchedulePoint(route[i].stop, id);
        if i < n {
          assert front[i] == route[i];
        }
      }
      if k in Keys(id, front) {
        var i :| 0 <= i < |front| && k == SchedulePoint(front[i].stop, id);
        assert route[i] == front[i];
      }
    }
  }

  /** Writing a route adds exactly its keys to the schedule. */
  lemma {:induction false} WithRouteKeys(m: Schedule, id: int, route: seq<StopTime>)
    ensures WithRoute(m, id, route).Keys == m.Keys + Keys(id, route)
    decreases |route|
  {
    if route != [] {
      WithRouteKeys(m, id, route[..|route| - 1]);
      KeysSnoc(id, route);
    }
  }

  /** Writing a route leaves every key it does not name as it was; in
      particular every key of another route. */
  lemma {:induction false} WithRouteKeeps(m: Schedule, id: int, route: seq<StopTime>)
    ensures forall k | k in m && k !in Keys(id, route) ::
      k in WithRoute(m, id, route) && WithRoute(m, id, route)[k] == m[k]
    decreases |route|
  {
    if route != [] {
      WithRouteKeys(m, id, route[..|route| - 1]);
      WithRouteKeeps(m, id, route[..|route| - 1]);
      KeysSnoc(id, route);
    }
  }

  /** When no stop repeats, writing a route maps each submitted key to its
      submitted time. */
  lemma {:induction false} WithRouteWrites(m: Schedule, id: int, route: seq<StopTime>)
    requires DistinctStops(route)
    ensures forall i | 0 <= i < |route| :: SchedulePoint(route[i].stop, id) in WithRoute(m, id, route)
    ensures forall i | 0 <= i < |route| :: WithRoute(m, id, route)[SchedulePoint(route[i].stop, id)] == route[i].time
    decreases |route|
  {
    if route != [] {
      var n := |route| - 1;
      var front := route[..n];
      assert DistinctStops(front) by {
        forall a, b | 0 <= a < b < |front| ensures front[a].stop != front[b].stop {
          assert front[a] == route[a] && front[b] == route[b];
        }
      }
      WithRouteWrites(m, id, front);
      forall i | 0 <= i < n
        ensures SchedulePoint(route[i].stop, id) in WithRoute(m, id, route)
        ensures WithRoute(m, id, route)[SchedulePoint(route[i].stop, id)] == route[i].time
      {
        assert front[i] == route[i];
        assert route[i].stop != route[n].stop;
      }
    }
  }

  /** The two containers `add_new_route` updates in place: `existing_routes`
      and `schedule`. */
  class Timetable {
    var routes: set<int>
    var schedule: Schedule

    constructor ()
      ensures routes == {} && schedule == map[]
    {
      routes := {};
      schedule := map[];
    }

    /** `add_new_route` (kasa.cc:261-273): a rejected route changes nothing;
        an accepted one records its id and writes each of its (stop, id) keys. */
    method AddRoute(id: int, route: seq<StopTime>) returns (ok: bool)
      modifies this
      ensures ok <==> ValidNewRoute(id, route, old(routes))
      ensures ok ==> routes == old(routes) + {id} && schedule == WithRoute(old(schedule), id, route)
      ensures !ok ==> routes == old(routes) && schedule == old(schedule)
    {
      ok := IsValidNewRoute(id, route, routes);
      if !ok {
        return;
      }
      routes := routes + {id};
      for i := 0 to |route|
        invariant routes == old(routes) + {id}
        invariant schedule == WithRoute(old(schedule), id, route[..i])
      {
        assert route[..i + 1][..i] == route[..i];
        schedule := schedule[SchedulePoint(route[i].stop, id) := route[i].time];
      }
      assert route[..|route|] == route;
    }
  }
}
