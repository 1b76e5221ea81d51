/** What `optimal_ticket_set` (kasa.cc:139-181) answers, as functions of the
    fare state, and the proof that the answer is the cheapest combination of
    at most three tickets, with the fewest tickets among the cheapest. */
module FareQuery {
  import opened FareSpec
  import opened FareInvariant

  /** The ticket count the row scan of kasa.cc:155-163 settles on: the first
      row reaching the least price at d, or 0 when every row holds INT_MAX. */
  function Fewest(rows: seq<Row>, d: int): (k: int)
    requires |rows| == 3 && 0 <= d < |rows[0]| && d < |rows[1]| && d < |rows[2]|
    ensures 0 <= k <= 3
    ensures k == 0 <==> MinUpTo(rows, 3, d) >= INT_MAX
    ensures k > 0 ==> rows[k - 1][d].price == MinUpTo(rows, 3, d)
    ensures forall i :: 0 <= i < k - 1 ==> rows[i][d].price > MinUpTo(rows, 3, d)
  {
    var m := MinUpTo(rows, 3, d);
    if m >= INT_MAX then 0
    else if rows[0][d].price == m then 1
    else if rows[1][d].price == m then 2
    else 3
  }

  /** The ids the back-pointer walk of kasa.cc:171-178 visits from row k-1 at
      pos: the entry's last ticket, then the walk from row k-2 at pos minus
      that ticket's duration, until pos drops to 0 or below. */
  function Walk(s: Fares, k: int, pos: int): (c: seq<int>)
    requires Linkable(s) && 0 <= k <= 3 && pos <= MAX_TRIP_LENGTH
    requires pos > 0 ==> k >= 1 && s.rows[k - 1][pos].price < INT_MAX
    ensures InRange(|s.tickets|, c)
    decreases k
  {
    if pos <= 0 then []
    else
      var id := s.rows[k - 1][pos].last;
      WalkStep(s, k, pos);
      [id] + Walk(s, k - 1, pos - s.tickets[id].duration)
  }

  /** The ids `optimal_ticket_set` reconstructs for a trip of length d. */
  function Query(s: Fares, d: int): (c: seq<int>)
    requires Good(s)
    ensures InRange(|s.tickets|, c)
  {
    if d <= 0 || d > MAX_TRIP_LENGTH then []
    else
      var k := Fewest(s.rows, d);
      if k == 0 then [] else Walk(s, k, d)
  }

  /** The first step of the walk from row k-1 at p: a registered ticket, and
      a real entry of the row below where the remaining length is positive. */
  lemma WalkStep(s: Fares, k: int, p: int)
    requires Linkable(s) && 1 <= k <= 3 && 0 < p <= MAX_TRIP_LENGTH
    requires s.rows[k - 1][p].price < INT_MAX
    ensures var id := s.rows[k - 1][p].last;
      && 0 <= id < |s.tickets|
      && 1 <= s.tickets[id].duration
      && (p - s.tickets[id].duration > 0 ==>
            k >= 2 && s.rows[k - 2][p - s.tickets[id].duration].price < INT_MAX)
      && (k == 1 ==> s.tickets[id].duration >= p && s.prices[id] == s.rows[0][p].price)
      && (k >= 2 ==>
            && s.tickets[id].duration < p
            && s.prices[id] + s.rows[k - 2][p - s.tickets[id].duration].price <= s.rows[k - 1][p].price)
  {
    if k >= 2 {
      LinkedAt(s, k - 1, p);
    }
  }

  /** The walk from row k-1 at p is that entry's ticket followed by the walk
      from the row below. */
  lemma WalkUnfold(s: Fares, k: int, p: int)
    requires Linkable(s) && 1 <= k <= 3 && 0 < p <= MAX_TRIP_LENGTH
    requires s.rows[k - 1][p].price < INT_MAX
    requires var id := s.rows[k - 1][p].last;
      && 0 <= id < |s.tickets|
      && (p - s.tickets[id].duration > 0 ==>
            k >= 2 && s.rows[k - 2][p - s.tickets[id].duration].price < INT_MAX)
    ensures var id := s.rows[k - 1][p].last;
      Walk(s, k, p) == [id] + Walk(s, k - 1, p - s.tickets[id].duration)
  {
  }

  /** The walk from a real entry of row k-1 at pos lists exactly k tickets that
      cover pos and cost no more than the entry. */
  lemma WalkSound(s: Fares, k: int, pos: int)
    requires Linkable(s) && 1 <= k <= 3 && 1 <= pos <= MAX_TRIP_LENGTH
    requires s.rows[k - 1][pos].price < INT_MAX
    ensures var c := Walk(s, k, pos);
      |c| == k && Cover(s.tickets, c) >= pos && Cost(s.prices, c) <= s.rows[k - 1][pos].price
  {
    WalkLength(s, k, pos);
    WalkCover(s, k, pos);
    WalkCost(s, k, pos);
  }

  lemma {:induction false} WalkLength(s: Fares, k: int, pos: int)
    requires Linkable(s) && 1 <= k <= 3 && 1 <= pos <= MAX_TRIP_LENGTH
    requires s.rows[k - 1][pos].price < INT_MAX
    ensures |Walk(s, k, pos)| == k
    decreases k
  {
    var id := s.rows[k - 1][pos].last;
    WalkStep(s, k, pos);
    WalkUnfold(s, k, pos);
    var q := pos - s.tickets[id].duration;
    if k >= 2 {
      WalkLength(s, k - 1, q);
    }
  }

  lemma {:induction false} WalkCover(s: Fares, k: int, pos: int)
    requires Linkable(s) && 1 <= k <= 3 && 1 <= pos <= MAX_TRIP_LENGTH
    requires s.rows[k - 1][pos].price < INT_MAX
    ensures Cover(s.tickets, Walk(s, k, pos)) >= pos
    decreases k
  {
    var id := s.rows[k - 1][pos].last;
    WalkStep(s, k, pos);
    var q := pos - s.tickets[id].duration;
    var rest := Walk(s, k - 1, q);
    assert Cover(s.tickets, Walk(s, k, pos)) == s.tickets[id].duration + Cover(s.tickets, rest) by {
      WalkUnfold(s, k, pos);
      SingletonSums(s, id);
      CoverConcat(s.tickets, [id], rest);
    }
    if k >= 2 {
      WalkCover(s, k - 1, q);
    }
  }

  lemma {:induction false} WalkCost(s: Fares, k: int, pos: int)
    requires Linkable(s) && 1 <= k <= 3 && 1 <= pos <= MAX_TRIP_LENGTH
    requires s.rows[k - 1][pos].price < INT_MAX
    ensures Cost(s.prices, Walk(s, k, pos)) <= s.rows[k - 1][pos].price
    decreases k
  {
    var id := s.rows[k - 1][pos].last;
    WalkStep(s, k, pos);
    var q := pos - s.tickets[id].duration;
    var rest := Walk(s, k - 1, q);
    assert Cost(s.prices, Walk(s, k, pos)) == s.prices[id] + Cost(s.prices, rest) by {
      WalkUnfold(s, k, pos);
      SingletonSums(s, id);
      CostConcat(s.prices, [id], rest);
    }
    if k >= 2 {
      WalkCost(s, k - 1, q);
    }
  }

  /** The least of three rows is one of them. */
  lemma MinIsAttained(rows: seq<Row>, m: int, d: int) returns (r: int)
    requires |rows| == 3 && 1 <= m <= 3 && 0 <= d < |rows[0]| && d < |rows[1]| && d < |rows[2]|
    ensures 0 <= r < m && rows[r][d].price == MinUpTo(rows, m, d)
    ensures forall k :: 0 <= k < m ==> MinUpTo(rows, m, d) <= rows[k][d].price
  {
    if rows[0][d].price == MinUpTo(rows, m, d) { r := 0; }
    else if rows[1][d].price == MinUpTo(rows, m, d) { r := 1; }
    else { r := 2; }
  }

  /** The table at d is never dearer than any combination covering d. */
  lemma TableNotDearer(s: Fares, d: int, c: seq<int>)
    requires Good(s) && 1 <= d <= MAX_TRIP_LENGTH
    requires IsCombo(s, c) && Cover(s.tickets, c) >= d
    ensures MinUpTo(s.rows, 3, d) <= MinUpTo(s.rows, |c|, d) <= Sat(Cost(s.prices, c))
  {
    assert Bound(s, c, d);
    var _ := MinIsAttained(s.rows, |c|, d);
    var _ := MinIsAttained(s.rows, 3, d);
  }

  /** When the scan finds no row below INT_MAX, no combination is cheaper than INT_MAX. */
  lemma NothingFound(s: Fares, d: int)
    requires Good(s) && 1 <= d <= MAX_TRIP_LENGTH && Fewest(s.rows, d) == 0
    ensures NoCombo(s, d)
  {
    forall c | IsCombo(s, c) && Cover(s.tickets, c) >= d ensures Cost(s.prices, c) >= INT_MAX {
      TableNotDearer(s, d, c);
    }
  }

  /** When the scan settles on k tickets, the walk is the cheapest combination
      and no combination of its price has fewer tickets. */
  lemma FoundCheapest(s: Fares, d: int)
    requires Good(s) && 1 <= d <= MAX_TRIP_LENGTH && Fewest(s.rows, d) != 0
    ensures Cheapest(s, d, Walk(s, Fewest(s.rows, d), d))
  {
    var k := Fewest(s.rows, d);
    var m := MinUpTo(s.rows, 3, d);
    var q := Walk(s, k, d);
    WalkSound(s, k, d);
    forall c | IsCombo(s, c) && Cover(s.tickets, c) >= d
      ensures Cost(s.prices, q) <= Cost(s.prices, c)
      ensures Cost(s.prices, c) == Cost(s.prices, q) ==> |q| <= |c|
    {
      TableNotDearer(s, d, c);
      var r := MinIsAttained(s.rows, |c|, d);
    }
  }

  /** The answer of `optimal_ticket_set`: empty exactly for an out-of-range
      length or when no combination of at most three tickets covering d costs
      less than INT_MAX; otherwise the cheapest such combination, with the
      fewest tickets among the cheapest, priced at the table's least entry at d
      (kasa.cc:152-178). */
  lemma QueryCheapest(s: Fares, d: int)
    requires Good(s)
    ensures Query(s, d) == [] <==> (d <= 0 || d > MAX_TRIP_LENGTH || NoCombo(s, d))
    ensures Query(s, d) != [] ==> Cheapest(s, d, Query(s, d))
    ensures Query(s, d) != [] ==> Cost(s.prices, Query(s, d)) == MinUpTo(s.rows, 3, d)
  {
    if 1 <= d <= MAX_TRIP_LENGTH {
      if Fewest(s.rows, d) == 0 {
        NothingFound(s, d);
      } else {
        FoundCheapest(s, d);
        WalkSound(s, Fewest(s.rows, d), d);
        TableNotDearer(s, d, Query(s, d));
      }
    }
  }

  /** Row 0 at i is the least price among the tickets lasting at least i:
      no such ticket is cheaper, and a price below INT_MAX is one of theirs. */
  lemma Row0IsLeastPrice(s: Fares, i: int)
    requires Good(s) && 1 <= i <= MAX_TRIP_LENGTH
    ensures forall t :: 0 <= t < |s.tickets| && s.tickets[t].duration >= i ==>
      s.rows[0][i].price <= s.prices[t]
    ensures s.rows[0][i].price < INT_MAX ==>
      exists t :: 0 <= t < |s.tickets| && s.tickets[t].duration >= i && s.prices[t] == s.rows[0][i].price
  {
    forall t | 0 <= t < |s.tickets| && s.tickets[t].duration >= i
      ensures s.rows[0][i].price <= s.prices[t]
    {
      SingletonSums(s, t);
      assert Bound(s, [t], i);
    }
    if s.rows[0][i].price < INT_MAX {
      var w := SingleCovers(s, i);
      SingletonSums(s, w);
    }
  }

  /** Each ticket of s1 is offered in s2 too: same clamped duration, same price. */
  ghost predicate OffersIn(s1: Fares, s2: Fares)
  {
    forall t :: 0 <= t < |s1.tickets| && t < |s1.prices| ==>
      exists u :: 0 <= u < |s2.tickets| && u < |s2.prices|
        && s2.tickets[u].duration == s1.tickets[t].duration && s2.prices[u] == s1.prices[t]
  }

  /** A combination over s1 has a twin over s2 of the same size, cover and cost. */
  lemma {:induction false} Twin(s1: Fares, s2: Fares, c: seq<int>) returns (c2: seq<int>)
    requires |s1.prices| == |s1.tickets| && |s2.prices| == |s2.tickets| && OffersIn(s1, s2)
    requires InRange(|s1.tickets|, c)
    ensures |c2| == |c| && InRange(|s2.tickets|, c2)
    ensures Cover(s2.tickets, c2) == Cover(s1.tickets, c) && Cost(s2.prices, c2) == Cost(s1.prices, c)
  {
    if c == [] {
      c2 := [];
    } else {
      var u :| 0 <= u < |s2.tickets| && u < |s2.prices|
        && s2.tickets[u].duration == s1.tickets[c[0]].duration && s2.prices[u] == s1.prices[c[0]];
      var tail := Twin(s1, s2, c[1..]);
      c2 := [u] + tail;
      assert c2[1..] == tail;
    }
  }

  /** The table's least price at d is never above what s2 can do with the same offers. */
  lemma NotDearer(s1: Fares, s2: Fares, d: int)
    requires Good(s1) && Good(s2) && OffersIn(s2, s1) && 1 <= d <= MAX_TRIP_LENGTH
    ensures MinUpTo(s1.rows, 3, d) <= MinUpTo(s2.rows, 3, d)
  {
    var k := Fewest(s2.rows, d);
    var _ := MinIsAttained(s2.rows, 3, d);
    var _ := MinIsAttained(s1.rows, 3, d);
    if k != 0 {
      WalkSound(s2, k, d);
      var c := Walk(s2, k, d);
      var c1 := Twin(s2, s1, c);
      TableNotDearer(s1, d, c1);
    }
  }

  /** Insertion-order independence: two tables whose tickets offer the same
      (duration, price) pairs, whatever their order, names or repeats, hold
      the same least price at every length. */
  lemma SameOffersSamePrice(s1: Fares, s2: Fares, d: int)
    requires Good(s1) && Good(s2) && OffersIn(s1, s2) && OffersIn(s2, s1)
    requires 1 <= d <= MAX_TRIP_LENGTH
    ensures MinUpTo(s1.rows, 3, d) == MinUpTo(s2.rows, 3, d)
  {
    NotDearer(s1, s2, d);
    NotDearer(s2, s1, d);
  }
}
