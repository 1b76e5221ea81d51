# Ticket office: fare table and schedule checks

This project models the core of a small ticket office for a bus network. It
has two halves.

**The fare table** (`kasa.cc:66-190`). Tickets are registered by name, price
and validity in minutes; a validity is clamped to `MAX_TRIP_LENGTH` = 927.
The office keeps three rows of `(price, last ticket id)` entries indexed by
minutes. The model's rows reach index 927; kasa.cc:73 allocates one cell
fewer (Finding 1 below). Row k holds the cheapest price found for k+1 tickets that
together last that many minutes, and the id of the last ticket used.

- `add_new_ticket` refuses a name already registered. Otherwise it appends
  the ticket and updates the rows in place:
  - row 0 by a descending pass that stops at the first entry it does not improve;
  - rows 1 and 2 by an ascending pass whose sums saturate at `INT_MAX`.
- `optimal_ticket_set` picks the row with the least price at the trip
  length, fewer tickets winning ties. It then follows the back-pointers to
  list the ticket names.

**The schedule store and trip checks** (`kasa.cc:210-439`). A route is a
list of (stop, minute) pairs under a route number.

- `add_new_route` checks the route and, when it is valid, records the number
  and writes each (stop, route) → minute entry of the schedule.
- A trip request is a list of stops and the routes between consecutive stops.
  `check_trip_validity` checks it against the schedule.
- `scan_trip_request` measures the trip and finds the first stop where the
  traveller would wait.
- `plan_tickets` ties these to the fare table and counts the tickets sold.

Two earlier drafts are modelled beside the final program. Lemmas make each
of their differences from it explicit.

- `kasa.cpp` is the fare table with global state: rows of
  `TICKET_SET_SIZE` = 1000 cells and no duplicate-name check. Its test
  driver is restated as proved facts.
- `obsluga_zapytan.cpp` is the route half with global state.

Layout:

| file | module | contents |
|---|---|---|
| `fare_spec.dfy` | `FareSpec` | the fare state as values (`Fares`) and one registration as pure functions; combinations, `Cover`, `Cost`, `Cheapest` |
| `fare_invariant.dfy` | `FareInvariant` | the table invariant `Good` and the proof that a registration keeps it |
| `fare_query.dfy` | `FareQuery` | the query as functions (`Fewest`, `Walk`, `Query`) and the proof that it answers the cheapest combination |
| `fare_table.dfy` | `FareTable` | class `Table`: three `array<Entry>` rows updated in place by loops, each method proved against the pure layer |
| `fare_draft.dfy` | `FareDraft` | class `DraftTable` for `kasa.cpp`, compared with the final registration |
| `fare_example.dfy` | `FareExample` | the `kasa.cpp` driver: tickets 1–3 and the answers for 1 and 30 minutes |
| `routes.dfy` | `Routes` | route validity and class `Timetable` (route set and schedule map) |
| `trips.dfy` | `Trips` | trip validity, the trip scan and their loops |
| `routes_draft.dfy` | `RoutesDraft` | the `obsluga_zapytan.cpp` variants, compared with the final ones |
| `planner.dfy` | `Planner` | `plan_tickets` with its answer as the `Outcome` datatype |

The model's central facts:

- The table invariant `Good` holds after initialisation and after every
  registration. It says:
  - column 0 stays (0, −1);
  - every price lies in 0..`INT_MAX`;
  - row 0 is non-decreasing;
  - every real back-pointer names a registered ticket that fits;
  - for every combination c of n tickets (1 ≤ n ≤ 3) and every length j it
    covers, the least of the first n rows at j is at most the saturated cost
    of c. Row n − 1 alone need not be: a combination may cover j with room to
    spare, which its own row does not record.
- From `Good` it follows that the query returns the cheapest combination of
  at most three tickets covering the length, with the fewest tickets among
  the cheapest. It returns nothing exactly when the length is out of range or
  every covering combination costs `INT_MAX` or more.
- A consequence is that the least price depends only on the offered
  (duration, price) pairs, not on the order of registration.

## Model

| member | source | states |
|---|---|---|
| FareSpec.Row0Updated | kasa.cc:106-111 | the descending pass over row 0 from the clamped validity down to 1, writing (price, id) while the entry is strictly dearer and stopping at the first that is not; the row keeps its length |
| FareSpec.Extended | kasa.cc:114-120 | the ascending pass over row 1 or 2 for j from validity + 1 to MAX_TRIP_LENGTH: (min(INT_MAX, price + row below at j − validity), id) replaces the entry only when strictly cheaper; the row keeps its length |
| FareSpec.UpdatedRows | kasa.cc:105-120 | row 0 is updated first, row 1 over the new row 0, row 2 over the new row 1; the three rows keep their common length |
| FareSpec.AddTicketSpec | kasa.cc:88-123 | a registered name gives false and the unchanged state; otherwise true, the ticket appended with id = old count and clamped validity, and the updated rows |
| FareInvariant.InitialGood | kasa.cc:66-77 | a fresh table holds (0, −1) at index 0 and (INT_MAX, −1) elsewhere in each row; it satisfies the table invariant for any row length reaching index MAX_TRIP_LENGTH |
| FareInvariant.Row0UpdatedAt | kasa.cc:106-111 | on a non-decreasing row 0, the early-breaking pass sets an index in 1..e to (price, id) exactly when its price was strictly higher; every other entry is unchanged, so the break loses nothing |
| FareInvariant.AppendedStep | kasa.cc:98-120 | one registration, entry by entry: the ticket appended with the next id and its clamped duration; row 0 lowered on 1..e; rows 1 and 2 lowered on e+1..MAX to the saturated sum over the already-updated row below; nothing else changes |
| FareInvariant.StepKeepsTickets | kasa.cc:98-103 | after a registration every duration is in 1..MAX_TRIP_LENGTH and column 0 of every row is still (0, −1) |
| FareInvariant.StepKeepsBounded | kasa.cc:116 | the saturating sum keeps every price in 0..INT_MAX |
| FareInvariant.StepKeepsMonotone | kasa.cc:106-111 | row 0 stays non-decreasing, which makes the early break safe |
| FareInvariant.StepKeepsWitness | kasa.cc:106-108 | a row-0 price below INT_MAX at i is the price of the ticket its back-pointer names, and that ticket lasts at least i |
| FareInvariant.StepNoDearer | kasa.cc:107-119 | a registration never raises an entry |
| FareInvariant.StepKeepsLinks | kasa.cc:114-120 | every real entry of rows 1 and 2 keeps a valid back-pointer: a registered ticket shorter than the index, a real entry below it, and prices adding up to at most the entry |
| FareInvariant.BoundAll | kasa.cc:106-120 | after a registration, for every combination c of n tickets (1 ≤ n ≤ 3) covering j, the least of the first n rows at j is still at most the saturated cost of c, including combinations that use the new ticket |
| FareInvariant.AppendedGood | kasa.cc:93-119 | registration keeps the whole table invariant |
| FareInvariant.AppendedNoDearer | kasa.cc:106-120 | registration keeps the row shape and never makes an entry dearer |
| FareQuery.Fewest | kasa.cc:155-163 | the ticket count the scan picks: 0 exactly when all three rows hold INT_MAX at d, otherwise k with row k−1 at the least price and every earlier row strictly dearer, so ties go to fewer tickets |
| FareQuery.Walk | kasa.cc:171-178 | the back-pointer walk only visits registered ticket ids, so reconstruction stays in bounds and ends |
| FareQuery.Query | kasa.cc:152-178 | the ids the query reconstructs: none outside 1..MAX_TRIP_LENGTH or when the scan finds no row, else the walk from the row it picks; every id is a registered ticket |
| FareQuery.WalkStep | kasa.cc:173-176 | from a real entry of row k−1 at p, the back-pointer names a registered ticket of positive duration. In row 0 it lasts at least p and has the entry's price. In higher rows it is shorter than p, and its price plus the real entry one row down at p minus its duration is at most the entry |
| FareQuery.WalkSound | kasa.cc:171-178 | the walk from a real entry of row k−1 at pos lists exactly k tickets, lasting at least pos in total and costing at most the entry |
| FareQuery.WalkLength | kasa.cc:172-177 | the walk from row k−1 lists k tickets |
| FareQuery.WalkCover | kasa.cc:172-177 | the tickets of the walk last at least pos in total |
| FareQuery.WalkCost | kasa.cc:172-177 | the tickets of the walk cost at most the entry it starts from |
| FareQuery.TableNotDearer | kasa.cc:159-163 | the least price at d is at most the saturated cost of any combination of at most three tickets covering d |
| FareQuery.NothingFound | kasa.cc:167-168 | when the scan keeps count 0, no combination covering d is priced below INT_MAX |
| FareQuery.FoundCheapest | kasa.cc:155-178 | when the scan settles on k tickets, the walk from row k−1 is a cheapest covering combination, and no combination at its price has fewer tickets |
| FareQuery.QueryCheapest | kasa.cc:152-178 | the answer is empty exactly when d ≤ 0, d > MAX_TRIP_LENGTH or nothing covering d costs less than INT_MAX; otherwise it is the cheapest covering combination, with the fewest tickets among the cheapest, and its price is the least of the three rows at d |
| FareQuery.Row0IsLeastPrice | kasa.cc:106-111 | row 0 at i is at most the price of every ticket lasting at least i, and a real price there is the price of such a ticket |
| FareQuery.NotDearer | kasa.cc:88-123 | a table whose tickets offer every (duration, price) pair of another table is never dearer than it at any length |
| FareQuery.SameOffersSamePrice | kasa.cc:88-123 | two tables offering the same (duration, price) pairs, in any order, under any names, hold the same least price at every length |
| FareTable.Table.constructor | kasa.cc:66-77 | the three rows are initialised, with MAX_TRIP_LENGTH + 1 cells each, and the table invariant holds |
| FareTable.Table.AddTicket | kasa.cc:88-123 | a registered name is refused and nothing changes; otherwise exactly one ticket is appended with id = old count and duration min(expiration, MAX_TRIP_LENGTH), the rows become the updated rows, and the invariant is kept |
| FareTable.Table.OptimalTicketSet | kasa.cc:139-181 | the table is only read. The names are those of the back-pointer walk. The answer is empty exactly for a length outside 1..MAX_TRIP_LENGTH or when no covering combination is priced below INT_MAX. Otherwise the walk is the cheapest combination, fewest tickets first |
| FareTable.LowerRow0 | kasa.cc:106-111 | the in-place descending loop with `break` leaves row 0 as the early-breaking update describes |
| FareTable.ExtendRow | kasa.cc:114-120 | the in-place ascending loop leaves the row as the saturated pointwise update over the row below describes |
| FareTable.Offer | kasa.cc:105-120 | the three rows are updated in order: row 0, then row 1 over the new row 0, then row 2 over the new row 1 |
| FareTable.Lookup | kasa.cc:149-181 | the range check, the scan and the walk together answer the cheapest combination's names, or nothing exactly in the cases above |
| FareTable.ScanRows | kasa.cc:155-163 | the scan with strict `<` returns the first row reaching the least price at the length, or 0 when all three hold INT_MAX |
| FareTable.Reconstruct | kasa.cc:170-178 | the loop that decrements pos and the count pushes the names of exactly the tickets the walk visits, in order |
| FareTable.WalkAdvance | kasa.cc:172-177 | one turn of the walk loop keeps the names found so far a prefix of the answer, with the rest still to come from the row below |
| FareTable.AsWrittenRowsMissTopIndex | kasa.cc:73 | rows sized MAX_TRIP_LENGTH have no index MAX_TRIP_LENGTH, yet a clamped validity of MAX_TRIP_LENGTH is that index; rows one cell longer have the shape every operation needs |
| FareDraft.DraftTable.constructor | kasa.cpp:27-36 | three rows of TICKET_SET_SIZE cells, (0, −1) at index 0 and (INT_MAX, −1) elsewhere; the invariant holds |
| FareDraft.DraftTable.AddTicket | kasa.cpp:47-73 | every call appends one ticket with id = old size and clamped duration, whatever its name, applies the same row updates and keeps the invariant |
| FareDraft.DraftTable.GetOptimalTicketSet | kasa.cpp:89-123 | only reads the table and answers as the final query does: the cheapest combination with the fewest tickets, or nothing |
| FareDraft.DraftVersusFinal | kasa.cpp:47-55 | the draft registration appends whatever the name; for a new name the draft and kasa.cc register identically; for a registered name kasa.cc refuses and keeps the state, while the draft lists the name twice |
| FareExample.DriverState | kasa.cpp:142-144 | after the driver's three registrations the tickets are ("Ticket 1", 10), ("Ticket 2", 100), ("Ticket 3", 20), priced 100, 1100 and 205 |
| FareExample.DriverStateGood | kasa.cpp:140-144 | the final registration accepts all three names, reaches the same state and keeps the invariant |
| FareExample.CheapestForOne | kasa.cpp:146 | for 1 minute the only cheapest combination is one "Ticket 1" |
| FareExample.CheapestForThirty | kasa.cpp:149 | for 30 minutes the only cheapest combination is three "Ticket 1", at 300 |
| FareExample.OnlyComboForThirty | kasa.cpp:149 | three "Ticket 1" is the only combination covering 30 minutes for at most 300 |
| FareExample.AnswerForOne | kasa.cpp:146 | on the driver's tickets the query for 1 minute names ["Ticket 1"] |
| FareExample.AnswerForThirty | kasa.cpp:149 | on the driver's tickets the query for 30 minutes names three "Ticket 1" |
| FareExample.DriverAnswers | kasa.cpp:138-152 | the driver's state is valid and answers ["Ticket 1"] for 1 minute, three "Ticket 1" for 30, and nothing for 0 or MAX_TRIP_LENGTH + 1 minutes |
| FareExample.Driver | kasa.cpp:138-152 | the draft table driven by the test calls returns ["Ticket 1"] for 1 minute and three "Ticket 1" for 30 |
| Routes.ValidNewRoute | kasa.cc:210-231 | a route is acceptable when its number is new, it has at least one stop, no stop repeats and every time exceeds the previous one, the first exceeding 0 |
| Routes.ScanStops | kasa.cc:218-228 | the loop accepts exactly the routes whose times strictly increase from above 0 and whose stops are all different |
| Routes.StopsCount | kasa.cc:228 | the set of the first n stop names has at most n elements, and exactly n when no stop repeats |
| Routes.IsValidNewRoute | kasa.cc:210-231 | a route is accepted exactly when its number is new, it has at least one stop, no stop repeats and the times strictly increase from above 0 |
| Routes.WithRoute | kasa.cc:269-271 | the schedule after writing each (stop, number) → time of the route in order, a later write of the same key winning |
| Routes.WithRouteKeys | kasa.cc:269-271 | writing a route adds exactly its (stop, number) keys to the schedule |
| Routes.WithRouteKeeps | kasa.cc:269-271 | writing a route leaves every other key, in particular every key of another route, as it was |
| Routes.WithRouteWrites | kasa.cc:269-271 | on a route without repeated stops, each submitted (stop, number) key maps to its submitted time |
| Routes.Timetable.constructor | kasa.cc:261-263 | the route set and the schedule start empty |
| Routes.Timetable.AddRoute | kasa.cc:261-273 | accepted exactly when the route is valid against the current set; a rejected route changes neither the set nor the schedule; an accepted one adds its number and writes its keys in order |
| Trips.TripValid | kasa.cc:284-290 | a trip is valid when it has at least two stops, one route, one stop more than routes, every departure and arrival scheduled, and D0 ≤ A0 ≤ D1 ≤ A1 ≤ … |
| Trips.ChainValid | kasa.cc:308-328 | every consecutive pair of the chain D0, A0, D1, A1, … is scheduled and in order exactly when the trip is valid |
| Trips.CheckTripValidity | kasa.cc:300-331 | true exactly when there are at least two stops and one route, one stop more than routes, every departure and arrival is scheduled and D0 ≤ A0 ≤ D1 ≤ A1 ≤ … |
| Trips.ScanTripRequest | kasa.cc:351-383 | returns the last arrival minus the first departure; whether some leg i > 0 leaves at another time than leg i−1 arrives; and the stop of the first such leg, or "" |
| Trips.WaitAt | kasa.cc:371-374 | leg i > 0 waits when it departs at another time than leg i−1 arrives |
| Trips.NoArrivalBeforeStart | kasa.cc:284-290 | on a valid trip no arrival precedes the first departure |
| Trips.ValidTripTimes | kasa.cc:379-380 | on a valid trip the elapsed time is not negative and every wait is a strictly later departure |
| Planner.PlanTickets | kasa.cc:400-439 | an invalid trip gives Invalid and sells nothing. A trip with a wait gives the first waiting stop and sells nothing. Otherwise the table is asked for elapsed + 1 minutes: no answer gives NoFare and sells nothing; an answer gives the cheapest combination's names and adds exactly their number to the count |
| RoutesDraft.DraftIsValidNewRoute | obsluga_zapytan.cpp:43-60 | accepted exactly when the number is new, no stop repeats and the times strictly increase from above 0; there is no empty-route check |
| RoutesDraft.DraftValidityVersusFinal | obsluga_zapytan.cpp:43-60 | the draft and kasa.cc agree on every route with at least one stop; the empty route passes the draft for any new number and never passes kasa.cc |
| RoutesDraft.DraftTimetable.constructor | obsluga_zapytan.cpp:23-26 | the route set and the schedule start empty |
| RoutesDraft.DraftTimetable.AddRoute | obsluga_zapytan.cpp:87-93 | the route set never changes; a route the draft rule accepts writes its keys, and a refused one changes nothing |
| RoutesDraft.DraftRegistersTwice | obsluga_zapytan.cpp:87-93 | registering two valid routes under one number on a fresh draft succeeds twice, and the second one's times replace the first one's |
| RoutesDraft.FinalRegistersOnce | kasa.cc:265-268 | in kasa.cc the second registration under the same number is refused |
| RoutesDraft.DraftCheckTripValidity | obsluga_zapytan.cpp:108-138 | true exactly when there are at least two stops and one route, every departure and arrival key is scheduled, and the chain that starts from the first arrival never goes back |
| RoutesDraft.DraftFirstLegInstant | obsluga_zapytan.cpp:126-136 | the draft accepts only trips whose first leg departs at its arrival minute |
| RoutesDraft.DraftTripVersusFinal | obsluga_zapytan.cpp:108-138 | on a well-formed request the draft accepts exactly the trips kasa.cc accepts whose first leg takes no time |
| RoutesDraft.DraftRefusesOrdinaryTrip | obsluga_zapytan.cpp:126 | a one-leg trip from minute 10 to 20 is valid in kasa.cc and refused by the draft |
| RoutesDraft.LastWaitIsLast | obsluga_zapytan.cpp:199-208 | the last waiting leg below n is −1 exactly when none of them waits, and otherwise a waiting leg after which none waits |
| RoutesDraft.DraftScanWaits | obsluga_zapytan.cpp:195-208 | reports a wait exactly when some leg waits in the draft's sense; the stop reported is that of the last such leg, or "" |
| RoutesDraft.DraftWaitsVersusFinal | obsluga_zapytan.cpp:199-205 | when the first leg takes no time, the draft sees waits at exactly the legs kasa.cc does |
| RoutesDraft.CompareWaitScans | obsluga_zapytan.cpp:202-205 | on a trip waiting at B and then at C, kasa.cc reports "B" and the draft reports "C" |

## Left out

- The input parser, the regular expressions, the line loop and `main`. The
  model starts from already-parsed requests, so the preconditions price ≥ 0
  and validity ≥ 1 stand for what the regular expressions guarantee.
- Printing: the `:(`, `:|` and `! a; b` lines of `plan_tickets` are the
  `Outcome` datatype. The error report for an invalid request is left to the
  caller, as in the program.
- `create_schedule_point`, `contains` and `not_scheduled` are one-line
  wrappers. They are the `SchedulePoint` constructor, map membership and its
  negation. `ticket_set_found` is the predicate `Planner.TicketSetFound`.
- Container internals: `std::map` ordering, `unordered_set` hashing and
  lookup cost. Dafny `map` and `set` take their place.
- Machine-integer wrap-around other than the `INT_MAX` sentinel and the
  saturating sum. Examples are overflow of `tickets_sold` and the parser's
  minute conversion. Integers are unbounded here.
- Prices are ghost state. The program keeps them only inside the rows, and
  the model keeps them only to state optimality.
- The draft `optimal_ticket_set` placeholder, `write_plan` and the empty
  `main` of `obsluga_zapytan.cpp` are left out. They only print or return a
  fixed answer. Only the wait-scan loop of the draft `plan_tickets` is
  modelled.
- The printing helper and the printed output of the `kasa.cpp` driver are
  left out. Its queries for 1 and 30 minutes are proved facts: for 30 minutes
  the cheapest answer is three "Ticket 1" at 300, below "Ticket 3" with
  "Ticket 1" at 305 and "Ticket 2" at 1100. The queries
  for 10, 20, 40, 110 and 900 minutes are not stated separately; the general
  optimality lemmas cover them.
- FareTable.Table.constructor: rows get MAX_TRIP_LENGTH + 1 cells, not the
  MAX_TRIP_LENGTH of kasa.cc:73. Finding 1 below explains why.
- RoutesDraft.DraftCheckTripValidity requires at least one stop more than
  routes. The draft never compares the two counts, and with fewer stops it
  would read past the stop list.

## Findings

| source | as written | input that shows it | evidently intended | confidence | as-written member | corrected member |
|---|---|---|---|---|---|---|
| kasa.cc:73 | each row is resized to MAX_TRIP_LENGTH cells, indices 0..926, but index 927 is written (a validity clamped to 927) and read (a trip of 927 minutes) | registering a ticket with validity ≥ 927, or asking for a 927-minute trip | rows reaching index MAX_TRIP_LENGTH, as `kasa.cpp` does with TICKET_SET_SIZE = 1000 | not executed | FareTable.AsWrittenRowsMissTopIndex | FareTable.Table.constructor |
| obsluga_zapytan.cpp:126 | the time chain starts from the first arrival, so the first departure must not precede the first arrival | one leg A at 10 → B at 20 on route 1 | the chain starts from the first departure, D0 ≤ A0 ≤ D1 ≤ … | not executed | RoutesDraft.DraftRefusesOrdinaryTrip | Trips.CheckTripValidity |
| obsluga_zapytan.cpp:87-93 | the route number is never inserted into `existing_routes`, so a number can be registered again and its entries overwritten | route 1 registered twice | record the number on success | not executed | RoutesDraft.DraftRegistersTwice | RoutesDraft.FinalRegistersOnce |
| obsluga_zapytan.cpp:202-205 | every waiting leg overwrites the stop, so the last waiting stop is reported | A→B→C→D waiting at B and at C | the first stop where the traveller waits | not executed | RoutesDraft.CompareWaitScans | Trips.ScanTripRequest |
