/** The test driver of kasa.cpp:138-152 as proved facts: three tickets
    registered on a fresh table, then queries for trips of 1 and 30 minutes. */
module FareExample {
  import opened FareSpec
  import opened FareInvariant
  import opened FareQuery
  import opened FareTable
  import opened FareDraft

  const T1: string := "Ticket 1"
  const T2: string := "Ticket 2"
  const T3: string := "Ticket 3"

  /** The table after registering ("Ticket 1", 100, 10), ("Ticket 2", 1100, 100)
      and ("Ticket 3", 205, 20) on fresh rows of `len` cells. */
  function DriverState(len: nat): (s: Fares)
    requires len > MAX_TRIP_LENGTH
    ensures s.tickets == [Ticket(T1, 10), Ticket(T2, 100), Ticket(T3, 20)]
    ensures s.prices == [100, 1100, 205]
  {
    var s1 := Appended(Initial(len), T1, 100, 10);
    var s2 := Appended(s1, T2, 1100, 100);
    Appended(s2, T3, 205, 20)
  }

  /** The three names are distinct, so kasa.cc registers all three as the
      draft does, and the table invariant holds afterwards. */
  lemma DriverStateGood(len: nat)
    requires len > MAX_TRIP_LENGTH
    ensures Good(DriverState(len))
    ensures var s0 := Initial(len);
      var s1 := AddTicketSpec(s0, T1, 100, 10);
      var s2 := AddTicketSpec(s1.1, T2, 1100, 100);
      var s3 := AddTicketSpec(s2.1, T3, 205, 20);
      s1.0 && s2.0 && s3.0 && s3.1 == DriverState(len)
  {
    var s0 := Initial(len);
    InitialGood(len);
    var s1 := Appended(s0, T1, 100, 10);
    AppendedGood(s0, T1, 100, 10);
    var s2 := Appended(s1, T2, 1100, 100);
    AppendedGood(s1, T2, 1100, 100);
    AppendedGood(s2, T3, 205, 20);
    assert s1.tickets == [Ticket(T1, 10)];
    assert s2.tickets == [Ticket(T1, 10), Ticket(T2, 100)];
    assert T1 != T2 && T1 != T3 && T2 != T3;
  }

  /** The sums of a combination of at most three tickets of the driver, spelled out. */
  lemma SumsOfThree(s: Fares, c: seq<int>)
    requires s.tickets == [Ticket(T1, 10), Ticket(T2, 100), Ticket(T3, 20)]
    requires s.prices == [100, 1100, 205]
    requires IsCombo(s, c)
    ensures |c| == 1 ==>
      (Cover(s.tickets, c) == s.tickets[c[0]].duration && Cost(s.prices, c) == s.prices[c[0]])
    ensures |c| == 2 ==>
      (&& Cover(s.tickets, c) == s.tickets[c[0]].duration + s.tickets[c[1]].duration
       && Cost(s.prices, c) == s.prices[c[0]] + s.prices[c[1]])
    ensures |c| == 3 ==>
      (&& Cover(s.tickets, c) == s.tickets[c[0]].duration + s.tickets[c[1]].duration + s.tickets[c[2]].duration
       && Cost(s.prices, c) == s.prices[c[0]] + s.prices[c[1]] + s.prices[c[2]])
  {
    if |c| >= 2 {
      assert c[1..][1..] == c[2..];
    }
    if |c| == 3 {
      assert c[2..][1..] == [];
    }
  }

  /** For a trip of 1 minute the one cheapest combination is a single "Ticket 1". */
  lemma CheapestForOne(s: Fares, c: seq<int>)
    requires s.tickets == [Ticket(T1, 10), Ticket(T2, 100), Ticket(T3, 20)]
    requires s.prices == [100, 1100, 205]
    requires Cheapest(s, 1, c)
    ensures c == [0]
  {
    SumsOfThree(s, [0]);
    SumsOfThree(s, c);
    assert Cost(s.prices, c) <= 100;
  }

  /** For a trip of 30 minutes the one cheapest combination is three times
      "Ticket 1" at 300, below "Ticket 3" with "Ticket 1" at 305 and "Ticket 2" at 1100. */
  lemma CheapestForThirty(s: Fares, c: seq<int>)
    requires s.tickets == [Ticket(T1, 10), Ticket(T2, 100), Ticket(T3, 20)]
    requires s.prices == [100, 1100, 205]
    requires Cheapest(s, 30, c)
    ensures c == [0, 0, 0] && Cost(s.prices, c) == 300
  {
    assert Cost(s.prices, c) <= 300 by {
      SumsOfThree(s, [0, 0, 0]);
      assert IsCombo(s, [0, 0, 0]);
    }
    OnlyComboForThirty(s, c);
    SumsOfThree(s, c);
  }

  /** The only combination of the driver's tickets that covers 30 minutes
      for at most 300 is three times "Ticket 1". */
  lemma OnlyComboForThirty(s: Fares, c: seq<int>)
    requires s.tickets == [Ticket(T1, 10), Ticket(T2, 100), Ticket(T3, 20)]
    requires s.prices == [100, 1100, 205]
    requires IsCombo(s, c) && Cover(s.tickets, c) >= 30 && Cost(s.prices, c) <= 300
    ensures c == [0, 0, 0]
  {
    SumsOfThree(s, c);
    if |c| < 3 {
      assert false;
    } else {
      assert c[0] != 1 && c[1] != 1 && c[2] != 1;
      assert c[0] == 0 && c[1] == 0 && c[2] == 0;
    }
  }

  /** On the driver's tickets a trip of 1 minute gets ["Ticket 1"]. */
  lemma AnswerForOne(s: Fares)
    requires Good(s)
    requires s.tickets == [Ticket(T1, 10), Ticket(T2, 100), Ticket(T3, 20)]
    requires s.prices == [100, 1100, 205]
    ensures Names(s.tickets, Query(s, 1)) == [T1]
  {
    assert Cheapest(s, 1, Query(s, 1)) by {
      QueryCheapest(s, 1);
      assert !NoCombo(s, 1) by {
        SumsOfThree(s, [0]);
        assert IsCombo(s, [0]);
      }
    }
    CheapestForOne(s, Query(s, 1));
  }

  /** On the driver's tickets a trip of 30 minutes gets three times "Ticket 1". */
  lemma AnswerForThirty(s: Fares)
    requires Good(s)
    requires s.tickets == [Ticket(T1, 10), Ticket(T2, 100), Ticket(T3, 20)]
    requires s.prices == [100, 1100, 205]
    ensures Names(s.tickets, Query(s, 30)) == [T1, T1, T1]
  {
    var q := Query(s, 30);
    assert Cheapest(s, 30, q) by {
      QueryCheapest(s, 30);
      assert !NoCombo(s, 30) by {
        SumsOfThree(s, [0, 0, 0]);
        assert IsCombo(s, [0, 0, 0]);
      }
    }
    CheapestForThirty(s, q);
    ThreeOfTheFirst(s.tickets);
  }

  lemma ThreeOfTheFirst(tickets: seq<Ticket>)
    requires tickets == [Ticket(T1, 10), Ticket(T2, 100), Ticket(T3, 20)]
    ensures Names(tickets, [0, 0, 0]) == [T1, T1, T1]
  {
    assert [0][1..] == [];
    assert Names(tickets, [0]) == [T1];
    assert [0, 0][1..] == [0];
    assert Names(tickets, [0, 0]) == [T1, T1];
    assert [0, 0, 0][1..] == [0, 0];
  }

  /** The answers of the driver: ["Ticket 1"] for 1 minute, three times
      "Ticket 1" for 30 minutes, and nothing for 0 or MAX_TRIP_LENGTH + 1 minutes. */
  lemma DriverAnswers(len: nat)
    requires len > MAX_TRIP_LENGTH
    ensures Good(DriverState(len))
    ensures Names(DriverState(len).tickets, Query(DriverState(len), 1)) == [T1]
    ensures Names(DriverState(len).tickets, Query(DriverState(len), 30)) == [T1, T1, T1]
    ensures Query(DriverState(len), 0) == [] && Query(DriverState(len), MAX_TRIP_LENGTH + 1) == []
  {
    DriverStateGood(len);
    AnswerForOne(DriverState(len));
    AnswerForThirty(DriverState(len));
  }

  /** The driver of kasa.cpp:138-152 run on the draft table. */
  method Driver() returns (forOne: seq<string>, forThirty: seq<string>)
    ensures forOne == [T1] && forThirty == [T1, T1, T1]
  {
    var table := new DraftTable();
    table.AddTicket(T1, 100, 10);
    table.AddTicket(T2, 1100, 100);
    table.AddTicket(T3, 205, 20);
    assert table.State() == DriverState(TICKET_SET_SIZE);
    DriverAnswers(TICKET_SET_SIZE);
    forOne := table.GetOptimalTicketSet(1);
    forThirty := table.GetOptimalTicketSet(30);
  }
}
