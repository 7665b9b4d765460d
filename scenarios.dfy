/**
 * A worked scenario through both layers: three events posted in one batch, then
 * read back unfiltered, by type and by a lower time bound.
 */
module Scenarios {
  import opened Wrappers
  import opened Models
  import opened Decimal
  import opened Store
  import opened Server

  function Sample(ts: int64, kind: string): Event {
    Event(ts, "", "https://example.com", None, kind, Json("{}"), None, None)
  }

  function Navigate(): Event { Sample(1, "navigate") }
  function Click(): Event { Sample(2, "click") }
  function Focus(): Event { Sample(3, "focus") }

  /** The table after the batch: one row per event, ids 1 to 3. */
  function Stored(): Table {
    Table([Row(1, Navigate()), Row(2, Click()), Row(3, Focus())], 4)
  }

  /** The batch of three plain inserts lands as three rows with fresh ids. */
  lemma PostStoresThreeRows()
    ensures ApplyBatch(Table([], 1), [Navigate(), Click(), Focus()]) == Success(Stored())
  {
    var n, c, f := Navigate(), Click(), Focus();
    var t1 := Table([Row(1, n)], 2);
    var t2 := Table([Row(1, n), Row(2, c)], 3);
    var t3 := Stored();
    assert [] + [Row(1, n)] == t1.rows;
    assert ApplyEvent(Table([], 1), n) == Success(t1);
    assert t2.rows[1..] == [Row(2, c)];
    assert t1.rows + [Row(2, c)] == t2.rows;
    assert ApplyEvent(t1, c) == Success(t2);
    assert t2.rows + [Row(3, f)] == t3.rows;
    assert ApplyEvent(t2, f) == Success(t3);
    assert ApplyBatch(t2, [f]) == ApplyBatch(t3, []);
    assert [c, f][1..] == [f];
    assert ApplyBatch(t1, [c, f]) == ApplyBatch(t2, [f]);
    assert [n, c, f][1..] == [c, f];
  }

  /** Without parameters: all three, newest first. */
  lemma GetAllIsNewestFirst()
    ensures Query(Stored().rows, EventFilter(None, None, None, DefaultLimit)) == Success([Focus(), Click(), Navigate()])
  {
    var n, c, f := Navigate(), Click(), Focus();
    var all := EventFilter(None, None, None, DefaultLimit);
    assert Stored().rows[1..] == [Row(2, c), Row(3, f)];
    assert Stored().rows[1..][1..] == [Row(3, f)];
    assert Selected([Row(3, f)], all) == [f];
    assert Selected([Row(2, c), Row(3, f)], all) == [c, f];
    assert Selected(Stored().rows, all) == [n, c, f];
    assert [n, c, f][1..] == [c, f];
    assert [c, f][1..] == [f];
    assert [f][1..] == [];
    assert SortNewestFirst([f]) == [f];
    assert [f][1..] == [] && InsertByTime(c, []) == [c];
    assert InsertByTime(c, [f]) == [f, c];
    assert SortNewestFirst([c, f]) == [f, c];
    assert InsertByTime(n, []) == [n];
    assert InsertByTime(n, [c]) == [c, n];
    assert [f, c][1..] == [c];
    assert InsertByTime(n, [f, c]) == [f] + [c, n];
    assert SortNewestFirst([n, c, f]) == [f, c, n];
    assert Take([f, c, n], DefaultLimit) == [f, c, n];
  }

  /** `type=click`: the click alone. */
  lemma GetByTypeIsTheClick()
    ensures Query(Stored().rows, EventFilter(Some("click"), None, None, DefaultLimit)) == Success([Click()])
  {
    var n, c, f := Navigate(), Click(), Focus();
    var clicks := EventFilter(Some("click"), None, None, DefaultLimit);
    assert Stored().rows[1..] == [Row(2, c), Row(3, f)];
    assert Stored().rows[1..][1..] == [Row(3, f)];
    assert Selected([Row(3, f)], clicks) == [];
    assert Selected(Stored().rows, clicks) == [c];
    assert [c][1..] == [];
    assert SortNewestFirst([c]) == InsertByTime(c, []) == [c];
  }

  /** `since=2`: the two events at 2 and later, newest first. */
  lemma GetSinceIsTheTwoRecent()
    ensures Query(Stored().rows, EventFilter(None, Some(2), None, DefaultLimit)) == Success([Focus(), Click()])
  {
    var n, c, f := Navigate(), Click(), Focus();
    var recent := EventFilter(None, Some(2), None, DefaultLimit);
    assert Stored().rows[1..] == [Row(2, c), Row(3, f)];
    assert Stored().rows[1..][1..] == [Row(3, f)];
    assert Selected([Row(3, f)], recent) == [f];
    assert Selected(Stored().rows, recent) == [c, f];
    assert [c, f][1..] == [f];
    assert SortNewestFirst([c, f]) == InsertByTime(c, [f]) == [f, c];
  }

  /** The three GET requests of the scenario build the three filters above. */
  lemma GetRequestsPlanQueries()
    ensures PlanEvents(Request("GET", None, map[])) == CallQuery(EventFilter(None, None, None, DefaultLimit))
    ensures PlanEvents(Request("GET", None, map["type" := "click"]))
            == CallQuery(EventFilter(Some("click"), None, None, DefaultLimit))
    ensures PlanEvents(Request("GET", None, map["since" := "2"]))
            == CallQuery(EventFilter(None, Some(2), None, DefaultLimit))
  {
    assert QueryGet(map["type" := "click"], "since") == "";
    assert ParseInt64("2") == Some(2);
  }
}
