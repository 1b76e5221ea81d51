/** The ticket half of the office as the program keeps it: a ticket list that
    grows by `push_back` and three rows updated in place (kasa.cc:66-190). */
module FareTable {
  import opened FareSpec
  import opened FareInvariant
  import opened FareQuery

  class Table {
    /** The registered tickets; a ticket's id is its position. */
    var tickets: seq<Ticket>
    /** The price of each ticket; the program keeps prices only inside the rows. */
    ghost var prices: seq<int>
    /** Row k holds, per length, the best price for k+1 tickets and the last ticket used. */
    const row0: array<Entry>
    const row1: array<Entry>
    const row2: array<Entry>

    ghost function State(): Fares
      reads this, row0, row1, row2
    {
      Fares(tickets, prices, RowsOf(row0, row1, row2))
    }

    ghost predicate Valid()
      reads this, row0, row1, row2
    {
      row0 != row1 && row0 != row2 && row1 != row2 && Good(State())
    }

    /** `initialize_optimal_ticket_set` (kasa.cc:66-77), with rows of
        MAX_TRIP_LENGTH + 1 cells so that index MAX_TRIP_LENGTH exists. */
    constructor ()
      ensures Valid() && fresh(row0) && fresh(row1) && fresh(row2)
      ensures State() == Initial(MAX_TRIP_LENGTH + 1)
    {
      tickets := [];
      prices := [];
      row0 := new Entry[MAX_TRIP_LENGTH + 1](j => if j == 0 then Entry(0, -1) else Entry(INT_MAX, -1));
      row1 := new Entry[MAX_TRIP_LENGTH + 1](j => if j == 0 then Entry(0, -1) else Entry(INT_MAX, -1));
      row2 := new Entry[MAX_TRIP_LENGTH + 1](j => if j == 0 then Entry(0, -1) else Entry(INT_MAX, -1));
      new;
      assert row0[..] == InitRow(MAX_TRIP_LENGTH + 1);
      assert row1[..] == InitRow(MAX_TRIP_LENGTH + 1);
      assert row2[..] == InitRow(MAX_TRIP_LENGTH + 1);
      InitialGood(MAX_TRIP_LENGTH + 1);
    }

    /** `add_new_ticket` (kasa.cc:88-123): rejects a registered name and
        changes nothing; otherwise appends the ticket with its clamped
        duration and offers it to the three rows. The invariant, and with it
        the optimality of every later query, is kept. */
    method AddTicket(name: string, price: int, expiration: int) returns (ok: bool)
      requires Valid() && 0 <= price <= INT_MAX && expiration >= 1
      modifies this, row0, row1, row2
      ensures Valid()
      ensures (ok, State()) == AddTicketSpec(old(State()), name, price, expiration)
    {
      for i := 0 to |tickets|
        invariant forall t :: 0 <= t < i ==> tickets[t].name != name
      {
        if name == tickets[i].name {
          return false;
        }
      }
      ghost var s := State();
      var e := expiration;
      if e > MAX_TRIP_LENGTH {
        e := MAX_TRIP_LENGTH;
      }
      var id := |tickets|;
      tickets := tickets + [Ticket(name, e)];
      prices := prices + [price];
      Offer(row0, row1, row2, price, id, e);
      assert State() == Appended(s, name, price, expiration);
      AppendedGood(s, name, price, expiration);
      ok := true;
    }

    /** `optimal_ticket_set` (kasa.cc:139-181): the names of the tickets the
        back-pointer walk visits; empty for a length outside 1..MAX_TRIP_LENGTH
        or when no combination of at most three tickets covering it is priced
        below INT_MAX, otherwise the cheapest combination with the fewest
        tickets among the cheapest. */
    method OptimalTicketSet(tripLength: int) returns (out: seq<string>)
      requires Valid()
      ensures out == Names(tickets, Query(State(), tripLength))
      ensures out == [] <==> (tripLength <= 0 || tripLength > MAX_TRIP_LENGTH || NoCombo(State(), tripLength))
      ensures out != [] ==> Cheapest(State(), tripLength, Query(State(), tripLength))
    {
      out := Lookup(tickets, prices, row0, row1, row2, tripLength);
    }
  }

  /** The three rows as values. */
  function RowsOf(row0: array<Entry>, row1: array<Entry>, row2: array<Entry>): seq<Row>
    reads row0, row1, row2
  {
    [row0[..], row1[..], row2[..]]
  }

  /** The descending pass of kasa.cc:106-111 over row 0: strictly dearer
      entries from e down take the ticket, up to the first that is not. */
  method LowerRow0(row0: array<Entry>, price: int, id: int, e: int)
    requires 1 <= e < row0.Length
    modifies row0
    ensures row0[..] == Row0Updated(old(row0[..]), price, id, e)
  {
    ghost var before := row0[..];
    var i := e;
    while i > 0
      invariant 0 <= i <= e
      invariant Row0Updated(row0[..], price, id, i) == Row0Updated(before, price, id, e)
    {
      if row0[i].price > price {
        row0[i] := Entry(price, id);
        i := i - 1;
      } else {
        break;
      }
    }
  }

  /** The ascending pass of kasa.cc:115-120 over row `cur` built on row `prev`. */
  method ExtendRow(prev: array<Entry>, cur: array<Entry>, price: int, id: int, e: int)
    requires prev != cur && prev.Length == cur.Length > MAX_TRIP_LENGTH
    requires 1 <= e <= MAX_TRIP_LENGTH
    modifies cur
    ensures cur[..] == Extended(old(cur[..]), prev[..], price, id, e)
  {
    ghost var before := cur[..];
    var j := e + 1;
    while j <= MAX_TRIP_LENGTH
      invariant e + 1 <= j <= MAX_TRIP_LENGTH + 1
      invariant forall x :: 0 <= x < cur.Length ==>
        cur[x] == if x < j then Extended(before, prev[..], price, id, e)[x] else before[x]
    {
      var candidate := Sat(price + prev[j - e].price);
      if cur[j].price > candidate {
        cur[j] := Entry(candidate, id);
      }
      j := j + 1;
    }
    assert cur[..] == Extended(before, prev[..], price, id, e);
  }

  /** Offers a ticket of `price`, id `id` and clamped duration `e` to the three
      rows in the order kasa.cc:106-119 does: row 0, then row 1 over the new
      row 0, then row 2 over the new row 1. */
  method Offer(row0: array<Entry>, row1: array<Entry>, row2: array<Entry>, price: int, id: int, e: int)
    requires row0 != row1 && row0 != row2 && row1 != row2
    requires row0.Length == row1.Length == row2.Length > MAX_TRIP_LENGTH
    requires 1 <= e <= MAX_TRIP_LENGTH
    modifies row0, row1, row2
    ensures RowsOf(row0, row1, row2) == UpdatedRows(old(RowsOf(row0, row1, row2)), price, id, e)
  {
    LowerRow0(row0, price, id, e);
    ghost var r0 := row0[..];
    ExtendRow(row0, row1, price, id, e);
    ghost var r1 := row1[..];
    ExtendRow(row1, row2, price, id, e);
    assert row0[..] == r0 && row1[..] == r1;
  }

  /** The lookup of kasa.cc:152-178 over the ticket list and the three rows:
      the names `Query` picks, which are the cheapest combination covering the
      length, or nothing when the length is out of range or nothing is priced. */
  method Lookup(tickets: seq<Ticket>, ghost prices: seq<int>,
                row0: array<Entry>, row1: array<Entry>, row2: array<Entry>, tripLength: int)
    returns (out: seq<string>)
    requires Good(Fares(tickets, prices, RowsOf(row0, row1, row2)))
    ensures var s := Fares(tickets, prices, RowsOf(row0, row1, row2));
      && out == Names(tickets, Query(s, tripLength))
      && (out == [] <==> (tripLength <= 0 || tripLength > MAX_TRIP_LENGTH || NoCombo(s, tripLength)))
      && (out != [] ==> Cheapest(s, tripLength, Query(s, tripLength)))
  {
    ghost var s := Fares(tickets, prices, RowsOf(row0, row1, row2));
    QueryCheapest(s, tripLength);
    out := [];
    if tripLength > MAX_TRIP_LENGTH || tripLength <= 0 {
      return;
    }

    var count := ScanRows(row0, row1, row2, tripLength);
    if count == 0 {
      return;
    }

    out := Reconstruct(tickets, prices, row0, row1, row2, count, tripLength);
  }

  /** The row scan of kasa.cc:155-163: the first row whose price at the
      length is the least of the three, or 0 when all three hold INT_MAX. */
  method ScanRows(row0: array<Entry>, row1: array<Entry>, row2: array<Entry>, tripLength: int)
    returns (count: int)
    requires row0.Length > MAX_TRIP_LENGTH && row1.Length > MAX_TRIP_LENGTH && row2.Length > MAX_TRIP_LENGTH
    requires 1 <= tripLength <= MAX_TRIP_LENGTH
    requires forall k :: 0 <= k < 3 ==> RowsOf(row0, row1, row2)[k][tripLength].price <= INT_MAX
    ensures count == Fewest(RowsOf(row0, row1, row2), tripLength)
  {
    ghost var rows := RowsOf(row0, row1, row2);
    count := 0;
    var best := INT_MAX;
    for i := 0 to 3
      invariant 0 <= count <= i
      invariant best == if i == 0 then INT_MAX else MinUpTo(rows, i, tripLength)
      invariant count == 0 <==> best == INT_MAX
      invariant count > 0 ==> rows[count - 1][tripLength].price == best
      invariant forall k :: 0 <= k < count - 1 ==> rows[k][tripLength].price > best
    {
      var row := if i == 0 then row0 else if i == 1 then row1 else row2;
      var price := row[tripLength].price;
      assert price == rows[i][tripLength].price;
      if price < best {
        count := i + 1;
      }
      best := Min(best, price);
    }
  }

  /** The back-pointer walk of kasa.cc:171-178 from row count-1 at pos. */
  method Reconstruct(tickets: seq<Ticket>, ghost prices: seq<int>,
                     row0: array<Entry>, row1: array<Entry>, row2: array<Entry>, count: int, pos: int)
    returns (out: seq<string>)
    requires Linkable(Fares(tickets, prices, RowsOf(row0, row1, row2)))
    requires row0.Length > MAX_TRIP_LENGTH && row1.Length > MAX_TRIP_LENGTH && row2.Length > MAX_TRIP_LENGTH
    requires 1 <= count <= 3 && 1 <= pos <= MAX_TRIP_LENGTH
    requires RowsOf(row0, row1, row2)[count - 1][pos].price < INT_MAX
    ensures out == Names(tickets, Walk(Fares(tickets, prices, RowsOf(row0, row1, row2)), count, pos))
  {
    ghost var s := Fares(tickets, prices, RowsOf(row0, row1, row2));
    ghost var goal := Names(tickets, Walk(s, count, pos));
    var k, p := count, pos;
    out := [];
    while p > 0
      invariant WalkFrom(s, goal, out, k, p)
      decreases k
    {
      var nextId := BackPointer(row0, row1, row2, k, p);
      WalkAdvance(s, goal, out, k, p);
      out := out + [tickets[nextId].name];
      p := p - tickets[nextId].duration;
      k := k - 1;
    }
    WalkDone(s, goal, out, k, p);
  }

  /** The `last` field of row k-1 at p (kasa.cc:173). */
  method BackPointer(row0: array<Entry>, row1: array<Entry>, row2: array<Entry>, k: int, p: int)
    returns (id: int)
    requires row0.Length > MAX_TRIP_LENGTH && row1.Length > MAX_TRIP_LENGTH && row2.Length > MAX_TRIP_LENGTH
    requires 1 <= k <= 3 && 0 < p <= MAX_TRIP_LENGTH
    ensures id == RowsOf(row0, row1, row2)[k - 1][p].last
  {
    var row := if k == 1 then row0 else if k == 2 then row1 else row2;
    id := row[p].last;
  }

  /** Part way through the walk: `out` holds the names found so far, and the
      names of the rest of the walk, from row k-1 at p on a real entry,
      complete them to `goal`. */
  ghost predicate WalkFrom(s: Fares, goal: seq<string>, out: seq<string>, k: int, p: int)
  {
    && Linkable(s) && 0 <= k <= 3 && p <= MAX_TRIP_LENGTH
    && (p > 0 ==> k >= 1 && s.rows[k - 1][p].price < INT_MAX)
    && out + Names(s.tickets, Walk(s, k, p)) == goal
  }

  /** One step of the walk: the entry's ticket exists, its name comes next,
      and the walk continues from the row below at the remaining length. */
  lemma WalkAdvance(s: Fares, goal: seq<string>, out: seq<string>, k: int, p: int)
    requires WalkFrom(s, goal, out, k, p) && p > 0
    ensures var id := s.rows[k - 1][p].last;
      && 0 <= id < |s.tickets|
      && WalkFrom(s, goal, out + [s.tickets[id].name], k - 1, p - s.tickets[id].duration)
  {
    var id := s.rows[k - 1][p].last;
    WalkStep(s, k, p);
    WalkUnfold(s, k, p);
    var rest := Walk(s, k - 1, p - s.tickets[id].duration);
    var name := s.tickets[id].name;
    NamesCons(s.tickets, id, rest);
    assert (out + [name]) + Names(s.tickets, rest) == out + ([name] + Names(s.tickets, rest));
  }

  /** The names of a walk that starts with `id`. */
  lemma NamesCons(tickets: seq<Ticket>, id: int, rest: seq<int>)
    requires 0 <= id < |tickets| && InRange(|tickets|, rest)
    ensures InRange(|tickets|, [id] + rest)
    ensures Names(tickets, [id] + rest) == [tickets[id].name] + Names(tickets, rest)
  {
    assert ([id] + rest)[1..] == rest;
  }

  /** A walk that has reached length 0 has found all of `goal`. */
  lemma WalkDone(s: Fares, goal: seq<string>, out: seq<string>, k: int, p: int)
    requires WalkFrom(s, goal, out, k, p) && p <= 0
    ensures out == goal
  {
    assert Walk(s, k, p) == [];
    assert out + [] == out;
  }

  /** The rows as kasa.cc:73 sizes them hold MAX_TRIP_LENGTH cells, indices 0
      to MAX_TRIP_LENGTH - 1; yet a ticket lasting MAX_TRIP_LENGTH minutes or
      more is clamped to MAX_TRIP_LENGTH (kasa.cc:98-99) and row 0 is written
      at that index (kasa.cc:106-107), one past the end. Rows of
      MAX_TRIP_LENGTH + 1 cells, as `Table`'s constructor makes, have the shape
      every operation needs. */
  lemma AsWrittenRowsMissTopIndex(expiration: int)
    requires expiration >= MAX_TRIP_LENGTH
    ensures |InitRow(MAX_TRIP_LENGTH)| == MAX_TRIP_LENGTH
    ensures Clamp(expiration) == MAX_TRIP_LENGTH
    ensures !(0 <= Clamp(expiration) < |InitRow(MAX_TRIP_LENGTH)|)
    ensures !Shape(Initial(MAX_TRIP_LENGTH)) && Shape(Initial(MAX_TRIP_LENGTH + 1))
  {
  }
}
