/** The global-state draft of the fare table (kasa.cpp:27-123): the same three
    rows and back-pointer walk as kasa.cc, with rows of TICKET_SET_SIZE cells
    and no check that a ticket name is new. */
module FareDraft {
  import opened FareSpec
  import opened FareInvariant
  import opened FareQuery
  import opened FareTable

  class DraftTable {
    /** The global `tickets` vector; a ticket's id is its position. */
    var tickets: seq<Ticket>
    /** The price of each ticket, kept by the program only inside the rows. */
    ghost var prices: seq<int>
    /** The global `optimal_ticket_set[3]`. */
    const row0: array<Entry>
    const row1: array<Entry>
    const row2: array<Entry>

    ghost function State(): Fares
      reads this, row0, row1, row2
    {
      Fares(tickets, prices, RowsOf(row0, row1, row2))
    }

    ghost predicate Valid()
      reads this, row0, row1, row2
    {
      row0 != row1 && row0 != row2 && row1 != row2 && Good(State())
    }

    /** `initialize_optimal_ticket_set` (kasa.cpp:27-35): three rows of
        TICKET_SET_SIZE cells, (0, -1) at index 0 and (INT_MAX, -1) elsewhere;
        the table invariant holds from the start. */
    constructor ()
      ensures Valid() && fresh(row0) && fresh(row1) && fresh(row2)
      ensures State() == Initial(TICKET_SET_SIZE)
    {
      tickets := [];
      prices := [];
      row0 := new Entry[TICKET_SET_SIZE](j => if j == 0 then Entry(0, -1) else Entry(INT_MAX, -1));
      row1 := new Entry[TICKET_SET_SIZE](j => if j == 0 then Entry(0, -1) else Entry(INT_MAX, -1));
      row2 := new Entry[TICKET_SET_SIZE](j => if j == 0 then Entry(0, -1) else Entry(INT_MAX, -1));
      new;
      assert row0[..] == InitRow(TICKET_SET_SIZE);
      assert row1[..] == InitRow(TICKET_SET_SIZE);
      assert row2[..] == InitRow(TICKET_SET_SIZE);
      InitialGood(TICKET_SET_SIZE);
    }

    /** `add_new_ticket` (kasa.cpp:47-73): clamps the duration, appends the
        ticket whatever its name and offers it to the three rows; the table
        invariant is kept. */
    method AddTicket(name: string, price: int, expiration: int)
      requires Valid() && 0 <= price <= INT_MAX && expiration >= 1
      modifies this, row0, row1, row2
      ensures Valid()
      ensures State() == Appended(old(State()), name, price, expiration)
    {
      ghost var s := State();
      var e := expiration;
      if e > MAX_TRIP_LENGTH {
        e := MAX_TRIP_LENGTH;
      }
      var id := |tickets|;
      tickets := tickets + [Ticket(name, e)];
      prices := prices + [price];
      Offer(row0, row1, row2, price, id, e);
      assert State() == Appended(s, name, price, expiration);
      AppendedGood(s, name, price, expiration);
    }

    /** `get_optimal_ticket_set` (kasa.cpp:89-123): only reads the table, and
        answers exactly as `optimal_ticket_set` of kasa.cc does. */
    method GetOptimalTicketSet(tripLength: int) returns (out: seq<string>)
      requires Valid()
      ensures out == Names(tickets, Query(State(), tripLength))
      ensures out == [] <==> (tripLength <= 0 || tripLength > MAX_TRIP_LENGTH || NoCombo(State(), tripLength))
      ensures out != [] ==> Cheapest(State(), tripLength, Query(State(), tripLength))
    {
      out := Lookup(tickets, prices, row0, row1, row2, tripLength);
    }
  }

  /** The draft registration is `Appended` whatever the name (kasa.cpp:47-73).
      With a new name it registers exactly as kasa.cc does; with a registered
      name kasa.cc refuses and keeps the state, while the draft appends a
      second ticket of that name. */
  lemma DraftVersusFinal(s: Fares, name: string, price: int, expiration: int)
    requires Shape(s) && expiration >= 1
    ensures !Registered(s.tickets, name) ==>
      AddTicketSpec(s, name, price, expiration) == (true, Appended(s, name, price, expiration))
    ensures Registered(s.tickets, name) ==>
      && AddTicketSpec(s, name, price, expiration) == (false, s)
      && exists a, b :: 0 <= a < b < |Appended(s, name, price, expiration).tickets|
           && Appended(s, name, price, expiration).tickets[a].name == name
           && Appended(s, name, price, expiration).tickets[b].name == name
  {
    if Registered(s.tickets, name) {
      var a :| 0 <= a < |s.tickets| && s.tickets[a].name == name;
      var r := Appended(s, name, price, expiration);
      assert r.tickets[a].name == name && r.tickets[|s.tickets|].name == name;
    }
  }
}
