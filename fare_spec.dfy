/** The fare table of the ticket office as values: the ticket list, the
    (ghost) prices and the three rows of (price, last ticket) entries, with
    the pure functions that say what one registration does to them. */
module FareSpec {

  /** The longest trip, in minutes (kasa.cc:43). */
  const MAX_TRIP_LENGTH: int := 927
  /** The row length of the draft fare table (kasa.cpp:13). */
  const TICKET_SET_SIZE: int := 1000
  /** The C++ `INT_MAX`, used as "no solution" and as the saturation bound. */
  const INT_MAX: int := 2147483647

  /** One table cell: best price and the id of the last ticket used (-1: none). */
  datatype Entry = Entry(price: int, last: int)

  type Row = seq<Entry>

  /** A registered ticket: its name and its clamped duration. Its id is its position. */
  datatype Ticket = Ticket(name: string, duration: int)

  /** The whole fare state: the ticket list, the price of each ticket (which the
      program keeps only inside the table) and the three rows; rows[k] is for k+1 tickets. */
  datatype Fares = Fares(tickets: seq<Ticket>, prices: seq<int>, rows: seq<Row>)

  /** `min(INT_MAX, x)`, the saturating sum of kasa.cc:116. */
  function Sat(x: int): int { if x > INT_MAX then INT_MAX else x }

  function Min(a: int, b: int): int { if a <= b then a else b }

  /** The clamp of kasa.cc:98-99. */
  function Clamp(expiration: int): int
  {
    if expiration > MAX_TRIP_LENGTH then MAX_TRIP_LENGTH else expiration
  }

  /** The shape every fare state has: one price per ticket, three rows of one
      common length that reaches index MAX_TRIP_LENGTH. */
  ghost predicate Shape(s: Fares)
  {
    && |s.prices| == |s.tickets|
    && |s.rows| == 3
    && |s.rows[0]| > MAX_TRIP_LENGTH
    && |s.rows[1]| == |s.rows[0]|
    && |s.rows[2]| == |s.rows[0]|
  }

  /** A freshly initialised row of `len` cells: (0, -1) at index 0, (INT_MAX, -1) elsewhere. */
  function InitRow(len: nat): Row
  {
    seq(len, j => if j == 0 then Entry(0, -1) else Entry(INT_MAX, -1))
  }

  /** The initial state for rows of length `len`. */
  function Initial(len: nat): Fares
  {
    Fares([], [], [InitRow(len), InitRow(len), InitRow(len)])
  }

  /** Row 0 after offering a ticket of `price` (id `id`) for indices i, i-1, ..., 1,
      stopping at the first index that does not strictly improve (kasa.cc:106-111). */
  function Row0Updated(row: Row, price: int, id: int, i: int): (r: Row)
    requires 0 <= i < |row|
    ensures |r| == |row|
    decreases i
  {
    if i == 0 then row
    else if row[i].price > price then Row0Updated(row[i := Entry(price, id)], price, id, i - 1)
    else row
  }

  /** The candidate price at index j of a row built on `prev` with a ticket of
      duration e: the ticket's price plus prev at j - e, saturated (kasa.cc:116). */
  function Candidate(prev: Row, price: int, e: int, j: int): int
    requires 1 <= e < j < |prev|
  {
    Sat(price + prev[j - e].price)
  }

  /** Row k in {1, 2} after the ascending pass j = e+1 .. MAX_TRIP_LENGTH over
      the already updated row k-1 (`prev`), kasa.cc:115-119. */
  function Extended(row: Row, prev: Row, price: int, id: int, e: int): (r: Row)
    requires |prev| == |row| > MAX_TRIP_LENGTH && 1 <= e
    ensures |r| == |row|
  {
    seq(|row|, j requires 0 <= j < |row| =>
      if e < j <= MAX_TRIP_LENGTH && row[j].price > Candidate(prev, price, e, j)
      then Entry(Candidate(prev, price, e, j), id) else row[j])
  }

  /** The three rows after registering a ticket of `price`, id `id` and clamped duration `e`. */
  function UpdatedRows(rows: seq<Row>, price: int, id: int, e: int): (r: seq<Row>)
    requires |rows| == 3 && |rows[0]| > MAX_TRIP_LENGTH
    requires |rows[1]| == |rows[0]| && |rows[2]| == |rows[0]|
    requires 1 <= e <= MAX_TRIP_LENGTH
    ensures |r| == 3 && |r[0]| == |r[1]| == |r[2]| == |rows[0]|
  {
    var r0 := Row0Updated(rows[0], price, id, e);
    var r1 := Extended(rows[1], r0, price, id, e);
    var r2 := Extended(rows[2], r1, price, id, e);
    [r0, r1, r2]
  }

  /** The state after appending a ticket unconditionally (kasa.cc:98-119 past the name check). */
  function Appended(s: Fares, name: string, price: int, expiration: int): Fares
    requires Shape(s) && expiration >= 1
  {
    var e := Clamp(expiration);
    Fares(s.tickets + [Ticket(name, e)], s.prices + [price],
          UpdatedRows(s.rows, price, |s.tickets|, e))
  }

  /** Whether a ticket of this name is already registered (kasa.cc:93-95). */
  predicate Registered(tickets: seq<Ticket>, name: string)
  {
    exists t :: 0 <= t < |tickets| && tickets[t].name == name
  }

  /** `add_new_ticket` of kasa.cc:88-123: the success flag and the new state. */
  function AddTicketSpec(s: Fares, name: string, price: int, expiration: int): (bool, Fares)
    requires Shape(s) && expiration >= 1
  {
    if Registered(s.tickets, name) then (false, s)
    else (true, Appended(s, name, price, expiration))
  }

  // ---------------------------------------------------------------------------
  // Ticket combinations

  /** Every id in `c` is below n. */
  predicate InRange(n: int, c: seq<int>)
  {
    forall i :: 0 <= i < |c| ==> 0 <= c[i] < n
  }

  /** The total (clamped) duration of a list of ticket ids. */
  function Cover(tickets: seq<Ticket>, c: seq<int>): int
    requires InRange(|tickets|, c)
  {
    if c == [] then 0 else tickets[c[0]].duration + Cover(tickets, c[1..])
  }

  /** The total price of a list of ticket ids. */
  function Cost(prices: seq<int>, c: seq<int>): int
    requires InRange(|prices|, c)
  {
    if c == [] then 0 else prices[c[0]] + Cost(prices, c[1..])
  }

  /** The names of a list of ticket ids, in order. */
  function Names(tickets: seq<Ticket>, c: seq<int>): (r: seq<string>)
    requires InRange(|tickets|, c)
    ensures |r| == |c|
  {
    if c == [] then [] else [tickets[c[0]].name] + Names(tickets, c[1..])
  }

  /** A combination the office may sell: one to three registered tickets, repeats allowed. */
  ghost predicate IsCombo(s: Fares, c: seq<int>)
  {
    1 <= |c| <= 3 && |s.prices| == |s.tickets| && InRange(|s.tickets|, c)
  }

  /** `c` covers a trip of length d and no combination covering d is cheaper;
      among the combinations of its price, none has fewer tickets. */
  ghost predicate Cheapest(s: Fares, d: int, c: seq<int>)
  {
    && IsCombo(s, c)
    && Cover(s.tickets, c) >= d
    && Cost(s.prices, c) < INT_MAX
    && forall c' :: IsCombo(s, c') && Cover(s.tickets, c') >= d ==>
         Cost(s.prices, c) <= Cost(s.prices, c')
         && (Cost(s.prices, c') == Cost(s.prices, c) ==> |c| <= |c'|)
  }

  /** No combination covering d is priced below INT_MAX. */
  ghost predicate NoCombo(s: Fares, d: int)
  {
    forall c :: IsCombo(s, c) && Cover(s.tickets, c) >= d ==> Cost(s.prices, c) >= INT_MAX
  }
}
