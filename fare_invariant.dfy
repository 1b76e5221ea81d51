/** The invariant the fare table keeps under every registration, and the
    proof that `add_new_ticket` (kasa.cc:88-123) preserves it. */
module FareInvariant {
  import opened FareSpec

  /** The least price among the first m rows at index j. */
  function MinUpTo(rows: seq<Row>, m: int, j: int): int
    requires |rows| == 3 && 1 <= m <= 3
    requires 0 <= j < |rows[0]| && j < |rows[1]| && j < |rows[2]|
  {
    if m == 1 then rows[0][j].price
    else if m == 2 then Min(rows[0][j].price, rows[1][j].price)
    else Min(Min(rows[0][j].price, rows[1][j].price), rows[2][j].price)
  }

  /** Every ticket's clamped duration is in 1..MAX_TRIP_LENGTH and its price in 0..INT_MAX. */
  ghost predicate TicketsOk(s: Fares)
    requires |s.prices| == |s.tickets|
  {
    forall t :: 0 <= t < |s.tickets| ==>
      1 <= s.tickets[t].duration <= MAX_TRIP_LENGTH && 0 <= s.prices[t] <= INT_MAX
  }

  /** Column 0 of every row stays (0, -1). */
  ghost predicate Column0(s: Fares)
    requires Shape(s)
  {
    forall k :: 0 <= k < 3 ==> s.rows[k][0] == Entry(0, -1)
  }

  /** Every price in use lies in 0..INT_MAX. */
  ghost predicate Bounded(s: Fares)
    requires Shape(s)
  {
    forall k, j :: 0 <= k < 3 && 0 <= j <= MAX_TRIP_LENGTH ==>
      0 <= s.rows[k][j].price <= INT_MAX
  }

  /** Prices never decrease with the index up to MAX_TRIP_LENGTH. */
  ghost predicate Monotone(row: Row)
  {
    forall a, b :: 0 <= a <= b <= MAX_TRIP_LENGTH && b < |row| ==> row[a].price <= row[b].price
  }

  /** A real row-0 price at i is the price of a registered ticket lasting at least i. */
  ghost predicate Row0Witness(s: Fares)
    requires Shape(s)
  {
    forall i :: 1 <= i <= MAX_TRIP_LENGTH && s.rows[0][i].price < INT_MAX ==>
      var id := s.rows[0][i].last;
      0 <= id < |s.tickets| && s.tickets[id].duration >= i && s.prices[id] == s.rows[0][i].price
  }

  /** The back-pointer of row k >= 1 at j names a registered ticket shorter than j,
      row k-1 has a real price at j minus its duration, and the two prices add up
      to at most the entry. */
  ghost predicate Linked(s: Fares, k: int, j: int)
    requires Shape(s) && 1 <= k < 3 && 1 <= j <= MAX_TRIP_LENGTH
  {
    var id := s.rows[k][j].last;
    && 0 <= id < |s.tickets|
    && 1 <= s.tickets[id].duration < j
    && s.rows[k - 1][j - s.tickets[id].duration].price < INT_MAX
    && s.prices[id] + s.rows[k - 1][j - s.tickets[id].duration].price <= s.rows[k][j].price
  }

  /** Every real entry of rows 1 and 2 is linked, stated row by row. */
  ghost predicate BackPointers(s: Fares)
    requires Shape(s)
  {
    && (forall j :: 1 <= j <= MAX_TRIP_LENGTH && s.rows[1][j].price < INT_MAX ==> Linked(s, 1, j))
    && (forall j :: 1 <= j <= MAX_TRIP_LENGTH && s.rows[2][j].price < INT_MAX ==> Linked(s, 2, j))
  }

  /** `BackPointers` read at a row given by a variable. */
  lemma LinkedAt(s: Fares, k: int, j: int)
    requires Shape(s) && BackPointers(s)
    requires 1 <= k < 3 && 1 <= j <= MAX_TRIP_LENGTH && s.rows[k][j].price < INT_MAX
    ensures Linked(s, k, j)
  {
    if k == 1 {
      assert Linked(s, 1, j);
    } else {
      assert Linked(s, 2, j);
    }
  }

  /** The table is never dearer than combination c for any length c covers. */
  ghost predicate Bound(s: Fares, c: seq<int>, j: int)
  {
    Shape(s) && IsCombo(s, c) && 1 <= j <= MAX_TRIP_LENGTH && Cover(s.tickets, c) >= j ==>
      MinUpTo(s.rows, |c|, j) <= Sat(Cost(s.prices, c))
  }

  ghost predicate LowerBounds(s: Fares)
  {
    forall c, j :: Bound(s, c, j)
  }

  /** The part of the invariant that keeps the back-pointer walk in bounds. */
  ghost predicate Linkable(s: Fares)
  {
    && Shape(s)
    && TicketsOk(s)
    && Row0Witness(s)
    && BackPointers(s)
  }

  /** The table invariant. */
  ghost predicate Good(s: Fares)
  {
    && Linkable(s)
    && Column0(s)
    && Bounded(s)
    && Monotone(s.rows[0])
    && LowerBounds(s)
  }

  // ---------------------------------------------------------------------------
  // Sums over combinations

  lemma {:induction false} CoverConcat(tickets: seq<Ticket>, a: seq<int>, b: seq<int>)
    requires InRange(|tickets|, a) && InRange(|tickets|, b)
    ensures InRange(|tickets|, a + b)
    ensures Cover(tickets, a + b) == Cover(tickets, a) + Cover(tickets, b)
  {
    if a != [] {
      assert (a + b)[1..] == a[1..] + b;
      CoverConcat(tickets, a[1..], b);
    } else {
      assert a + b == b;
    }
  }

  lemma {:induction false} CostConcat(prices: seq<int>, a: seq<int>, b: seq<int>)
    requires InRange(|prices|, a) && InRange(|prices|, b)
    ensures InRange(|prices|, a + b)
    ensures Cost(prices, a + b) == Cost(prices, a) + Cost(prices, b)
  {
    if a != [] {
      assert (a + b)[1..] == a[1..] + b;
      CostConcat(prices, a[1..], b);
    } else {
      assert a + b == b;
    }
  }

  lemma {:induction false} CostNonNegative(prices: seq<int>, c: seq<int>)
    requires InRange(|prices|, c)
    requires forall t :: 0 <= t < |prices| ==> prices[t] >= 0
    ensures Cost(prices, c) >= 0
  {
    if c != [] { CostNonNegative(prices, c[1..]); }
  }

  /** Sums over ids below n do not see tickets appended after them. */
  lemma {:induction false} SumsOfPrefix(s: Fares, s': Fares, n: int, c: seq<int>)
    requires |s.tickets| == |s.prices| == n && |s'.tickets| == |s'.prices| >= n
    requires forall t :: 0 <= t < n ==> s'.tickets[t] == s.tickets[t] && s'.prices[t] == s.prices[t]
    requires InRange(n, c)
    ensures Cover(s'.tickets, c) == Cover(s.tickets, c)
    ensures Cost(s'.prices, c) == Cost(s.prices, c)
  {
    if c != [] { SumsOfPrefix(s, s', n, c[1..]); }
  }

  lemma SingletonSums(s: Fares, w: int)
    requires |s.tickets| == |s.prices| && 0 <= w < |s.tickets|
    ensures InRange(|s.tickets|, [w])
    ensures Cover(s.tickets, [w]) == s.tickets[w].duration
    ensures Cost(s.prices, [w]) == s.prices[w]
  {
    assert [w][1..] == [];
  }

  // ---------------------------------------------------------------------------
  // The initial state

  /** The freshly initialised table, with any row length that reaches
      MAX_TRIP_LENGTH, satisfies the invariant. */
  lemma InitialGood(len: nat)
    requires len > MAX_TRIP_LENGTH
    ensures Good(Initial(len))
  {
    var s := Initial(len);
    forall c, j ensures Bound(s, c, j) {
      if |c| >= 1 { assert !InRange(0, c) by { assert !(0 <= c[0] < 0); } }
    }
  }

  // ---------------------------------------------------------------------------
  // One registration, entry by entry

  /** Row 0 after the descending pass: with row 0 non-decreasing, the early
      break loses nothing, and every index 1..i drops to the ticket's price
      exactly when that is a strict improvement. */
  lemma {:induction false} Row0UpdatedAt(row: Row, price: int, id: int, i: int)
    requires 0 <= i <= MAX_TRIP_LENGTH < |row|
    requires forall a, b :: 0 <= a <= b <= i ==> row[a].price <= row[b].price
    ensures forall x :: 0 <= x < |row| ==>
      Row0Updated(row, price, id, i)[x] ==
        if 1 <= x <= i && row[x].price > price then Entry(price, id) else row[x]
    decreases i
  {
    if i > 0 {
      if row[i].price > price {
        var row' := row[i := Entry(price, id)];
        Row0UpdatedAt(row', price, id, i - 1);
      } else {
        forall x | 1 <= x <= i ensures row[x].price <= price {
          assert row[x].price <= row[i].price;
        }
      }
    }
  }

  /** What one registration (new ticket id n, price p, clamped duration e) does
      to each entry. */
  ghost predicate Step(s: Fares, s': Fares, p: int, e: int)
  {
    && Shape(s) && Shape(s') && |s'.rows[0]| == |s.rows[0]|
    && 1 <= e <= MAX_TRIP_LENGTH && 0 <= p <= INT_MAX
    && |s'.tickets| == |s.tickets| + 1
    && (forall t :: 0 <= t < |s.tickets| ==> s'.tickets[t] == s.tickets[t] && s'.prices[t] == s.prices[t])
    && s'.tickets[|s.tickets|].duration == e && s'.prices[|s.tickets|] == p
    && (forall x :: 0 <= x < |s.rows[0]| ==>
          s'.rows[0][x] ==
            if 1 <= x <= e && s.rows[0][x].price > p then Entry(p, |s.tickets|) else s.rows[0][x])
    && (forall x :: 0 <= x < |s.rows[0]| ==>
          s'.rows[1][x] ==
            if e < x <= MAX_TRIP_LENGTH && s.rows[1][x].price > Candidate(s'.rows[0], p, e, x)
            then Entry(Candidate(s'.rows[0], p, e, x), |s.tickets|) else s.rows[1][x])
    && (forall x :: 0 <= x < |s.rows[0]| ==>
          s'.rows[2][x] ==
            if e < x <= MAX_TRIP_LENGTH && s.rows[2][x].price > Candidate(s'.rows[1], p, e, x)
            then Entry(Candidate(s'.rows[1], p, e, x), |s.tickets|) else s.rows[2][x])
  }

  lemma AppendedStep(s: Fares, name: string, price: int, expiration: int)
    requires Good(s) && 0 <= price <= INT_MAX && expiration >= 1
    ensures Step(s, Appended(s, name, price, expiration), price, Clamp(expiration))
  {
    var e := Clamp(expiration);
    Row0UpdatedAt(s.rows[0], price, |s.tickets|, e);
  }

  /** Every entry of s' is at most the entry of s. */
  ghost predicate NoDearer(s: Fares, s': Fares)
    requires Shape(s) && Shape(s') && |s'.rows[0]| == |s.rows[0]|
  {
    forall k, x :: 0 <= k < 3 && 0 <= x < |s.rows[0]| ==> s'.rows[k][x].price <= s.rows[k][x].price
  }

  lemma StepKeepsRow0(s: Fares, s': Fares, p: int, e: int)
    requires Good(s) && Step(s, s', p, e)
    ensures TicketsOk(s') && Column0(s') && Bounded(s') && Monotone(s'.rows[0]) && Row0Witness(s')
  {
    StepKeepsTickets(s, s', p, e);
    StepKeepsBounded(s, s', p, e);
    StepKeepsMonotone(s, s', p, e);
    StepKeepsWitness(s, s', p, e);
  }

  lemma StepKeepsTickets(s: Fares, s': Fares, p: int, e: int)
    requires Good(s) && Step(s, s', p, e)
    ensures TicketsOk(s') && Column0(s')
  {
  }

  lemma StepKeepsBounded(s: Fares, s': Fares, p: int, e: int)
    requires Good(s) && Step(s, s', p, e)
    ensures Bounded(s')
  {
    forall k, j | 0 <= k < 3 && 0 <= j <= MAX_TRIP_LENGTH
      ensures 0 <= s'.rows[k][j].price <= INT_MAX
    {
      if k == 0 {
        assert 0 <= s'.rows[0][j].price <= INT_MAX;
      } else if k == 1 {
        assert 0 <= s'.rows[1][j].price <= INT_MAX;
      } else {
        assert 0 <= s'.rows[2][j].price <= INT_MAX;
      }
    }
  }

  lemma StepKeepsMonotone(s: Fares, s': Fares, p: int, e: int)
    requires Good(s) && Step(s, s', p, e)
    ensures Monotone(s'.rows[0])
  {
    forall a, b | 0 <= a <= b <= MAX_TRIP_LENGTH && b < |s'.rows[0]|
      ensures s'.rows[0][a].price <= s'.rows[0][b].price
    {
      assert s.rows[0][a].price <= s.rows[0][b].price;
    }
  }

  lemma StepKeepsWitness(s: Fares, s': Fares, p: int, e: int)
    requires Good(s) && Step(s, s', p, e)
    ensures Row0Witness(s')
  {
  }

  lemma StepNoDearer(s: Fares, s': Fares, p: int, e: int)
    requires Good(s) && Step(s, s', p, e)
    ensures NoDearer(s, s')
  {
    forall k, x | 0 <= k < 3 && 0 <= x < |s.rows[0]|
      ensures s'.rows[k][x].price <= s.rows[k][x].price
    {
      if k == 0 {
      } else if k == 1 {
      } else {
      }
    }
  }

  /** One back-pointer after a registration: a changed entry names the new
      ticket, an unchanged one keeps its link, whose sub-entry only fell. */
  lemma LinkAt(s: Fares, s': Fares, p: int, e: int, k: int, j: int)
    requires Shape(s) && TicketsOk(s) && BackPointers(s)
    requires Step(s, s', p, e) && NoDearer(s, s')
    requires 1 <= k < 3 && 1 <= j <= MAX_TRIP_LENGTH && s'.rows[k][j].price < INT_MAX
    ensures Linked(s', k, j)
  {
    var n := |s.tickets|;
    if s'.rows[k][j] != s.rows[k][j] {
      assert e < j && s'.rows[k][j] == Entry(Candidate(s'.rows[k - 1], p, e, j), n) by {
        if k == 1 {
          assert s'.rows[1][j] != s.rows[1][j];
        } else {
          assert s'.rows[2][j] != s.rows[2][j];
        }
      }
      LinkNew(s, s', p, e, k, j);
    } else {
      LinkedAt(s, k, j);
      LinkKept(s, s', k, j);
    }
  }

  /** An entry the registration changed points at the new ticket, below
      which row k-1 has a real price. */
  lemma LinkNew(s: Fares, s': Fares, p: int, e: int, k: int, j: int)
    requires Shape(s') && 1 <= k < 3 && 1 <= e < j <= MAX_TRIP_LENGTH && 0 <= p
    requires |s'.tickets| == |s.tickets| + 1
    requires s'.tickets[|s.tickets|].duration == e && s'.prices[|s.tickets|] == p
    requires s'.rows[k][j] == Entry(Candidate(s'.rows[k - 1], p, e, j), |s.tickets|)
    requires s'.rows[k][j].price < INT_MAX
    ensures Linked(s', k, j)
  {
  }

  /** An entry the registration left alone keeps its link: its ticket is
      unchanged and the entry it leads to has only become cheaper. */
  lemma LinkKept(s: Fares, s': Fares, k: int, j: int)
    requires Shape(s) && Shape(s') && |s'.rows[0]| == |s.rows[0]|
    requires |s'.tickets| == |s.tickets| + 1
    requires forall t :: 0 <= t < |s.tickets| ==> s'.tickets[t] == s.tickets[t] && s'.prices[t] == s.prices[t]
    requires NoDearer(s, s')
    requires 1 <= k < 3 && 1 <= j <= MAX_TRIP_LENGTH && Linked(s, k, j) && s'.rows[k][j] == s.rows[k][j]
    ensures Linked(s', k, j)
  {
    var id := s.rows[k][j].last;
    assert s'.tickets[id] == s.tickets[id] && s'.prices[id] == s.prices[id];
    var d := s.tickets[id].duration;
    assert s'.rows[k - 1][j - d].price <= s.rows[k - 1][j - d].price;
  }

  lemma StepKeepsLinks(s: Fares, s': Fares, p: int, e: int)
    requires Good(s) && Step(s, s', p, e) && NoDearer(s, s')
    ensures BackPointers(s')
  {
    forall j | 1 <= j <= MAX_TRIP_LENGTH && s'.rows[1][j].price < INT_MAX
      ensures Linked(s', 1, j)
    {
      LinkAt(s, s', p, e, 1, j);
    }
    forall j | 1 <= j <= MAX_TRIP_LENGTH && s'.rows[2][j].price < INT_MAX
      ensures Linked(s', 2, j)
    {
      LinkAt(s, s', p, e, 2, j);
    }
  }

  /** The entry-level invariants survive one registration. */
  lemma StepKeepsEntries(s: Fares, s': Fares, p: int, e: int)
    requires Good(s) && Step(s, s', p, e)
    ensures TicketsOk(s') && Column0(s') && Bounded(s') && Monotone(s'.rows[0])
    ensures Row0Witness(s') && BackPointers(s') && NoDearer(s, s')
  {
    StepKeepsRow0(s, s', p, e);
    StepNoDearer(s, s', p, e);
    StepKeepsLinks(s, s', p, e);
  }

  // ---------------------------------------------------------------------------
  // One registration keeps the lower bounds

  /** Combinations of old tickets only: the old bound, and entries only fall. */
  lemma BoundOld(s: Fares, s': Fares, p: int, e: int, c: seq<int>, j: int)
    requires Good(s) && Step(s, s', p, e) && NoDearer(s, s')
    requires InRange(|s.tickets|, c)
    ensures Bound(s', c, j)
  {
    if IsCombo(s', c) && 1 <= j <= MAX_TRIP_LENGTH {
      SumsOfPrefix(s, s', |s.tickets|, c);
      assert Bound(s, c, j);
    }
  }

  /** Every combination over the new ticket list is bounded. */
  lemma BoundAll(s: Fares, s': Fares, p: int, e: int, c: seq<int>, j: int)
    requires Good(s) && Step(s, s', p, e)
    requires TicketsOk(s') && Bounded(s') && Row0Witness(s') && NoDearer(s, s')
    ensures Bound(s', c, j)
    decreases |c|, 3
  {
    if InRange(|s.tickets|, c) {
      BoundOld(s, s', p, e, c, j);
    } else if IsCombo(s', c) {
      var i :| 0 <= i < |c| && c[i] == |s.tickets|;
      BoundNew(s, s', p, e, c, i, j);
    }
  }

  /** A combination holding the new ticket at position i: take it out and
      bound the rest with the new ticket last. */
  lemma BoundNew(s: Fares, s': Fares, p: int, e: int, c: seq<int>, i: int, j: int)
    requires Good(s) && Step(s, s', p, e)
    requires TicketsOk(s') && Bounded(s') && Row0Witness(s') && NoDearer(s, s')
    requires IsCombo(s', c) && 0 <= i < |c| && c[i] == |s.tickets|
    ensures Bound(s', c, j)
    decreases |c|, 2
  {
    var rest := c[..i] + c[i + 1..];
    RemoveOne(s', c, i);
    if 1 <= j <= MAX_TRIP_LENGTH && Cover(s'.tickets, c) >= j {
      BoundLast(s, s', p, e, rest, j);
    }
  }

  /** Taking entry i out of a combination takes its ticket's duration and
      price out of the sums. */
  lemma RemoveOne(s: Fares, c: seq<int>, i: int)
    requires |s.tickets| == |s.prices| && InRange(|s.tickets|, c) && 0 <= i < |c|
    ensures var rest := c[..i] + c[i + 1..];
      && |rest| == |c| - 1 && InRange(|s.tickets|, rest)
      && Cover(s.tickets, c) == Cover(s.tickets, rest) + s.tickets[c[i]].duration
      && Cost(s.prices, c) == Cost(s.prices, rest) + s.prices[c[i]]
  {
    var n := c[i];
    assert c == c[..i] + [n] + c[i + 1..];
    SingletonSums(s, n);
    CoverConcat(s.tickets, c[..i], [n]);
    CoverConcat(s.tickets, c[..i] + [n], c[i + 1..]);
    CoverConcat(s.tickets, c[..i], c[i + 1..]);
    CostConcat(s.prices, c[..i], [n]);
    CostConcat(s.prices, c[..i] + [n], c[i + 1..]);
    CostConcat(s.prices, c[..i], c[i + 1..]);
  }

  /** The core step: the new ticket (price p, duration e) used last after the
      tickets of `rest`. */
  lemma BoundLast(s: Fares, s': Fares, p: int, e: int, rest: seq<int>, j: int)
    requires Good(s) && Step(s, s', p, e)
    requires TicketsOk(s') && Bounded(s') && Row0Witness(s') && NoDearer(s, s')
    requires |rest| <= 2 && InRange(|s'.tickets|, rest)
    requires 1 <= j <= MAX_TRIP_LENGTH && Cover(s'.tickets, rest) + e >= j
    ensures MinUpTo(s'.rows, |rest| + 1, j) <= Sat(Cost(s'.prices, rest) + p)
    decreases |rest| + 1, 1
  {
    CostNonNegative(s'.prices, rest);
    if rest == [] || e >= j {
      NewAlone(s, s', p, e, rest, j);
    } else {
      BoundLastAfter(s, s', p, e, rest, j);
    }
  }

  /** BoundLast when the new ticket alone falls short of j: the tickets of
      `rest` must cover j - e, which the updated rows below already bound. */
  lemma BoundLastAfter(s: Fares, s': Fares, p: int, e: int, rest: seq<int>, j: int)
    requires Good(s) && Step(s, s', p, e)
    requires TicketsOk(s') && Bounded(s') && Row0Witness(s') && NoDearer(s, s')
    requires 1 <= |rest| <= 2 && InRange(|s'.tickets|, rest) && Cost(s'.prices, rest) >= 0
    requires e < j <= MAX_TRIP_LENGTH && Cover(s'.tickets, rest) + e >= j
    ensures MinUpTo(s'.rows, |rest| + 1, j) <= Sat(Cost(s'.prices, rest) + p)
    decreases |rest| + 1, 0
  {
    var j' := j - e;
    BoundAll(s, s', p, e, rest, j');
    assert MinUpTo(s'.rows, |rest|, j') <= Sat(Cost(s'.prices, rest));
    if |rest| == 1 {
      SecondAfterFirst(s, s', p, e, rest, j);
    } else if s'.rows[1][j'].price <= Sat(Cost(s'.prices, rest)) {
      ThirdAfterSecond(s, s', p, e, rest, j);
    } else {
      var w := SingleCovers(s', j');
      BoundLast(s, s', p, e, [w], j);
      PairBeatsTriple(s', p, rest, [w], j);
    }
  }

  /** The new ticket alone covers j whenever e >= j. */
  lemma NewAlone(s: Fares, s': Fares, p: int, e: int, rest: seq<int>, j: int)
    requires Step(s, s', p, e) && Bounded(s')
    requires |rest| <= 2 && InRange(|s'.tickets|, rest) && Cost(s'.prices, rest) >= 0
    requires 1 <= j <= MAX_TRIP_LENGTH && (rest == [] || e >= j)
    requires Cover(s'.tickets, rest) + e >= j
    ensures MinUpTo(s'.rows, |rest| + 1, j) <= Sat(Cost(s'.prices, rest) + p)
  {
    if rest == [] {
      assert Cover(s'.tickets, rest) == 0 && Cost(s'.prices, rest) == 0;
    }
    assert j <= e;
    assert s'.rows[0][j].price <= p;
  }

  /** A real row-0 price at j names one ticket covering j at that price. */
  lemma SingleCovers(s: Fares, j: int) returns (w: int)
    requires Shape(s) && Row0Witness(s)
    requires 1 <= j <= MAX_TRIP_LENGTH && s.rows[0][j].price < INT_MAX
    ensures 0 <= w < |s.tickets| && InRange(|s.tickets|, [w])
    ensures Cover(s.tickets, [w]) >= j && Cost(s.prices, [w]) == s.rows[0][j].price
  {
    w := s.rows[0][j].last;
    SingletonSums(s, w);
  }

  /** A pair no dearer than a triple settles the triple's bound. */
  lemma PairBeatsTriple(s: Fares, p: int, rest: seq<int>, pair: seq<int>, j: int)
    requires Shape(s) && Bounded(s) && 1 <= j <= MAX_TRIP_LENGTH && p >= 0
    requires |rest| == 2 && InRange(|s.prices|, rest) && |pair| == 1 && InRange(|s.prices|, pair)
    requires Cost(s.prices, pair) <= Sat(Cost(s.prices, rest))
    requires MinUpTo(s.rows, 2, j) <= Sat(Cost(s.prices, pair) + p)
    ensures MinUpTo(s.rows, 3, j) <= Sat(Cost(s.prices, rest) + p)
  {
  }

  /** The new ticket after one ticket: row 1 at j was offered p plus row 0 at j - e. */
  lemma SecondAfterFirst(s: Fares, s': Fares, p: int, e: int, rest: seq<int>, j: int)
    requires Step(s, s', p, e) && Bounded(s')
    requires |rest| == 1 && InRange(|s'.tickets|, rest)
    requires e < j <= MAX_TRIP_LENGTH && Cost(s'.prices, rest) >= 0
    requires s'.rows[0][j - e].price <= Sat(Cost(s'.prices, rest))
    ensures MinUpTo(s'.rows, 2, j) <= Sat(Cost(s'.prices, rest) + p)
  {
    assert s'.rows[1][j].price <= Candidate(s'.rows[0], p, e, j);
  }

  /** The new ticket after a pair that row 1 at j - e already bounds. */
  lemma ThirdAfterSecond(s: Fares, s': Fares, p: int, e: int, rest: seq<int>, j: int)
    requires Step(s, s', p, e) && Bounded(s')
    requires |rest| == 2 && InRange(|s'.tickets|, rest)
    requires e < j <= MAX_TRIP_LENGTH && Cost(s'.prices, rest) >= 0
    requires s'.rows[1][j - e].price <= Sat(Cost(s'.prices, rest))
    ensures MinUpTo(s'.rows, 3, j) <= Sat(Cost(s'.prices, rest) + p)
  {
    assert s'.rows[2][j].price <= Candidate(s'.rows[1], p, e, j);
  }

  /** Registration keeps the invariant (kasa.cc:93-119). */
  lemma AppendedGood(s: Fares, name: string, price: int, expiration: int)
    requires Good(s) && 0 <= price <= INT_MAX && expiration >= 1
    ensures Good(Appended(s, name, price, expiration))
  {
    var s' := Appended(s, name, price, expiration);
    var e := Clamp(expiration);
    AppendedStep(s, name, price, expiration);
    StepKeepsEntries(s, s', price, e);
    forall c, j ensures Bound(s', c, j) {
      BoundAll(s, s', price, e, c, j);
    }
  }

  /** Registration never makes an entry dearer (kasa.cc:106-119). */
  lemma AppendedNoDearer(s: Fares, name: string, price: int, expiration: int)
    requires Good(s) && 0 <= price <= INT_MAX && expiration >= 1
    ensures var s' := Appended(s, name, price, expiration);
      Shape(s') && |s'.rows[0]| == |s.rows[0]| && NoDearer(s, s')
  {
    AppendedStep(s, name, price, expiration);
    StepNoDearer(s, Appended(s, name, price, expiration), price, Clamp(expiration));
  }
}
