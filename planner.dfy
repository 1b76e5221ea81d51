/** `plan_tickets` (kasa.cc:400-439): a trip request checked against the
    schedule, then answered from the fare table, with the running count of
    tickets sold. What the program prints is the `Outcome`. */
module Planner {
  import opened FareSpec
  import opened FareInvariant
  import opened FareQuery
  import opened FareTable
  import opened Routes
  import opened Trips

  /** The answer printed for a request: nothing for an invalid request
      (the caller reports the error), ":( stop" for a wait, ":|" for no
      fare, and "! name; name; ..." for a plan. */
  datatype Outcome = Invalid | Wait(stop: string) | NoFare | Planned(names: seq<string>)

  /** `ticket_set_found` (kasa.cc:186-190): the answer names at least one ticket. */
  predicate TicketSetFound(names: seq<string>)
  {
    |names| != 0
  }

  /** `plan_tickets`: an invalid request is refused and sells nothing; a
      request with a wait names the first stop where the traveller waits and
      sells nothing; otherwise the fare table is asked for a trip one minute
      longer than the elapsed time, and the tickets it names, the cheapest
      combination, are added to the count sold. */
  method PlanTickets(stops: seq<string>, routes: seq<int>, schedule: Schedule, fares: Table, soldBefore: int)
    returns (o: Outcome, sold: int)
    requires fares.Valid()
    ensures o == Invalid <==> !TripValid(schedule, stops, routes)
    ensures o.Invalid? || o.Wait? || o.NoFare? ==> sold == soldBefore
    ensures o.Wait? <==> TripValid(schedule, stops, routes) && exists i :: WaitAt(schedule, stops, routes, i)
    ensures o.Wait? ==> exists i ::
      (&& WaitAt(schedule, stops, routes, i) && o.stop == stops[i]
       && forall j :: 1 <= j < i ==> !WaitAt(schedule, stops, routes, j))
    ensures o.NoFare? || o.Planned? ==>
      && TripValid(schedule, stops, routes)
      && (forall i :: !WaitAt(schedule, stops, routes, i))
      && Elapsed(schedule, stops, routes) >= 0
    ensures o.NoFare? ==>
      && Query(fares.State(), Elapsed(schedule, stops, routes) + 1) == []
      && (Elapsed(schedule, stops, routes) + 1 > MAX_TRIP_LENGTH
          || NoCombo(fares.State(), Elapsed(schedule, stops, routes) + 1))
    ensures o.Planned? ==>
      && o.names == Names(fares.tickets, Query(fares.State(), Elapsed(schedule, stops, routes) + 1))
      && o.names != []
      && Cheapest(fares.State(), Elapsed(schedule, stops, routes) + 1,
                  Query(fares.State(), Elapsed(schedule, stops, routes) + 1))
      && sold == soldBefore + |o.names|
  {
    sold := soldBefore;
    var valid := CheckTripValidity(stops, routes, schedule);
    if !valid {
      return Invalid, sold;
    }
    var tripTime, waits, whereWaits := ScanTripRequest(stops, routes, schedule);
    if waits {
      return Wait(whereWaits), sold;
    }
    ValidTripTimes(schedule, stops, routes);
    var optimal := fares.OptimalTicketSet(tripTime + 1);
    if !TicketSetFound(optimal) {
      return NoFare, sold;
    }
    sold := sold + |optimal|;
    o := Planned(optimal);
  }
}
