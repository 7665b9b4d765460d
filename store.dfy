/**
 * The event store: the `events` table with its two unique indexes, event
 * validation, the all-or-nothing batch insert with its three write strategies,
 * and the filtered, newest-first query.
 *
 * The table is a sequence of rows, each an id and the stored event. The writes
 * are stated as functions on a `Table` value; the class `Database` holds the
 * committed table and runs a batch over a working copy that it commits only
 * when every write succeeded.
 */
module Store {
  import opened Wrappers
  import opened Models

  // ---------------------------------------------------------------- validation

  /** The five event types, both for validation and for the query's type filter. */
  const ValidEventTypes: set<string> := {"navigate", "visible_text", "click", "input", "focus"}

  datatype ValidationError = EmptyUrl | EmptyType | UnknownType(kind: string) | NonPositiveTimestamp

  /**
   * The four checks, in their fixed order; the first that fails decides the error.
   */
  function ValidateEvent(e: Event): (r: Option<ValidationError>)
    ensures r.None? <==> e.url != "" && e.kind in ValidEventTypes && e.tsUtc > 0
    ensures r == Some(EmptyUrl) <==> e.url == ""
    ensures r == Some(EmptyType) <==> e.url != "" && e.kind == ""
    ensures r == Some(UnknownType(e.kind)) <==> e.url != "" && e.kind != "" && e.kind !in ValidEventTypes
    ensures r == Some(NonPositiveTimestamp) <==> e.url != "" && e.kind in ValidEventTypes && e.tsUtc <= 0
  {
    if e.url == "" then Some(EmptyUrl)
    else if e.kind == "" then Some(EmptyType)
    else if e.kind !in ValidEventTypes then Some(UnknownType(e.kind))
    else if e.tsUtc <= 0 then Some(NonPositiveTimestamp)
    else None
  }

  // ------------------------------------------------------------------ the table

  /** A stored row. Stored `data` is the encoder's document, so never `Unencodable`. */
  datatype Row = Row(id: int, event: Event)

  /** The `events` table and the id the next inserted row receives. */
  datatype Table = Table(rows: seq<Row>, nextId: int)

  /** The two unique indexes of the table. */
  datatype UniqueIndex =
    | InputIndex        // (url, field_id, session_id), over rows of every type
    | VisibleTextIndex  // (url, session_id), over visible_text rows only

  /**
   * Whether index `ix` covers event `e`. SQLite treats NULLs as distinct, so a row
   * with a NULL key column never conflicts with anything.
   */
  predicate Covered(ix: UniqueIndex, e: Event) {
    match ix
    case InputIndex => e.fieldId.Some? && e.sessionId.Some?
    case VisibleTextIndex => e.kind == "visible_text" && e.sessionId.Some?
  }

  /** Whether `a` and `b` share a key of index `ix`. */
  predicate SameKey(ix: UniqueIndex, a: Event, b: Event) {
    && Covered(ix, a) && Covered(ix, b)
    && a.url == b.url && a.sessionId == b.sessionId
    && (ix == InputIndex ==> a.fieldId == b.fieldId)
  }

  /**
   * What every committed table satisfies: ids are distinct and below `nextId`, every
   * row passed validation and holds an encoded payload, and neither unique index
   * holds two rows with the same key.
   */
  ghost predicate TableInvariant(t: Table) {
    && (forall i :: 0 <= i < |t.rows| ==>
          && t.rows[i].id < t.nextId
          && ValidateEvent(t.rows[i].event).None?
          && t.rows[i].event.data.Json?)
    && (forall i, j :: 0 <= i < j < |t.rows| ==>
          && t.rows[i].id != t.rows[j].id
          && !SameKey(InputIndex, t.rows[i].event, t.rows[j].event)
          && !SameKey(VisibleTextIndex, t.rows[i].event, t.rows[j].event))
  }

  /** The row of `rows` that `e` collides with on index `ix`, if any (the first one). */
  function FindConflict(rows: seq<Row>, ix: UniqueIndex, e: Event): (r: Option<nat>)
    ensures r.Some? ==> r.value < |rows| && SameKey(ix, rows[r.value].event, e)
    ensures r.Some? ==> forall i :: 0 <= i < r.value ==> !SameKey(ix, rows[i].event, e)
    ensures r.None? ==> forall i :: 0 <= i < |rows| ==> !SameKey(ix, rows[i].event, e)
  {
    if rows == [] then None
    else if SameKey(ix, rows[0].event, e) then Some(0)
    else match FindConflict(rows[1..], ix, e)
      case None => None
      case Some(k) => Some(k + 1)
  }

  // ------------------------------------------------------------------ the writes

  datatype InsertError =
    | Invalid(reason: ValidationError)  // ValidateEvent refused an event
    | MarshalFailed                     // the payload could not be encoded
    | ConstraintViolation               // a write hit a unique index it does not handle

  /** The three write strategies. */
  datatype WriteKind = InputUpsert | VisibleTextUpsert | PlainInsert

  /** Picks the statement an event is written with. */
  function Classify(e: Event): (k: WriteKind)
    ensures k == InputUpsert <==> e.kind == "input" && e.fieldId.Some? && e.sessionId.Some?
    ensures k == VisibleTextUpsert <==>
              !(e.kind == "input" && e.fieldId.Some? && e.sessionId.Some?) && e.kind == "visible_text" && e.sessionId.Some?
    ensures k == InputUpsert ==> Covered(InputIndex, e)
    ensures k == VisibleTextUpsert ==> Covered(VisibleTextIndex, e)
  {
    if e.kind == "input" && e.fieldId.Some? && e.sessionId.Some? then InputUpsert
    else if e.kind == "visible_text" && e.sessionId.Some? then VisibleTextUpsert
    else PlainInsert
  }

  /** The DO UPDATE of both upserts: only ts_utc, ts_iso, title and data change. */
  function Overwrite(r: Row, e: Event): (r': Row)
    ensures r'.id == r.id
    ensures r'.event.url == r.event.url && r'.event.kind == r.event.kind
    ensures r'.event.sessionId == r.event.sessionId && r'.event.fieldId == r.event.fieldId
    ensures r'.event.tsUtc == e.tsUtc && r'.event.tsIso == e.tsIso
    ensures r'.event.title == e.title && r'.event.data == e.data
  {
    Row(r.id, r.event.(tsUtc := e.tsUtc, tsIso := e.tsIso, title := e.title, data := e.data))
  }

  /** A plain INSERT: a new row with a fresh id, refused if it collides on either unique index. */
  function Append(t: Table, e: Event): (r: Result<Table, InsertError>)
    ensures r.Success? <==>
              forall i :: 0 <= i < |t.rows| ==>
                !SameKey(InputIndex, t.rows[i].event, e) && !SameKey(VisibleTextIndex, t.rows[i].event, e)
    ensures r.Failure? ==> r.error == ConstraintViolation
    ensures r.Success? ==> |t.rows| <= |r.value.rows| <= |t.rows| + 1 && t.nextId <= r.value.nextId
    ensures r.Success? ==> forall i :: 0 <= i < |t.rows| ==> r.value.rows[i].id == t.rows[i].id
  {
    if FindConflict(t.rows, InputIndex, e).Some? || FindConflict(t.rows, VisibleTextIndex, e).Some?
    then Failure(ConstraintViolation)
    else Success(Table(t.rows + [Row(t.nextId, e)], t.nextId + 1))
  }

  /**
   * INSERT ... ON CONFLICT(target) DO UPDATE: a collision on the target index overwrites
   * that row; otherwise it is a plain insert, which still fails on the other index.
   */
  function Upsert(t: Table, target: UniqueIndex, e: Event): (r: Result<Table, InsertError>)
    ensures FindConflict(t.rows, target, e).Some? ==> r.Success? && |r.value.rows| == |t.rows|
    ensures r.Failure? ==> r.error == ConstraintViolation
    ensures r.Success? ==> |t.rows| <= |r.value.rows| <= |t.rows| + 1 && t.nextId <= r.value.nextId
    ensures r.Success? ==> forall i :: 0 <= i < |t.rows| ==> r.value.rows[i].id == t.rows[i].id
  {
    match FindConflict(t.rows, target, e)
    case Some(k) => Success(Table(t.rows[k := Overwrite(t.rows[k], e)], t.nextId))
    case None => Append(t, e)
  }

  /** Executes the statement `Classify` picks for `e`. */
  function Write(t: Table, e: Event): (r: Result<Table, InsertError>)
    ensures r.Failure? ==> r.error == ConstraintViolation
    ensures r.Success? ==> |t.rows| <= |r.value.rows| <= |t.rows| + 1 && t.nextId <= r.value.nextId
    ensures r.Success? ==> forall i :: 0 <= i < |t.rows| ==> r.value.rows[i].id == t.rows[i].id
  {
    match Classify(e)
    case InputUpsert => Upsert(t, InputIndex, e)
    case VisibleTextUpsert => Upsert(t, VisibleTextIndex, e)
    case PlainInsert => Append(t, e)
  }

  /** One iteration of the batch loop: validate, encode the payload, write. */
  function ApplyEvent(t: Table, e: Event): (r: Result<Table, InsertError>)
    ensures (r.Failure? && r.error.Invalid?) <==> ValidateEvent(e).Some?
    ensures r.Failure? && r.error.Invalid? ==> r.error.reason == ValidateEvent(e).value
    ensures r == Failure(MarshalFailed) <==> ValidateEvent(e).None? && e.data.Unencodable?
    ensures r.Success? ==> ValidateEvent(e).None? && e.data.Json?
    ensures r.Success? ==> |t.rows| <= |r.value.rows| <= |t.rows| + 1 && t.nextId <= r.value.nextId
    ensures r.Success? ==> forall i :: 0 <= i < |t.rows| ==> r.value.rows[i].id == t.rows[i].id
  {
    match ValidateEvent(e)
    case Some(reason) => Failure(Invalid(reason))
    case None =>
      if e.data.Unencodable? then Failure(MarshalFailed) else Write(t, e)
  }

  /** The whole batch in input order; the first failing event decides the error. */
  function ApplyBatch(t: Table, events: seq<Event>): (r: Result<Table, InsertError>)
    ensures r.Success? ==> |t.rows| <= |r.value.rows| <= |t.rows| + |events| && t.nextId <= r.value.nextId
    ensures r.Success? ==> forall i :: 0 <= i < |t.rows| ==> r.value.rows[i].id == t.rows[i].id
    decreases |events|
  {
    if events == [] then Success(t)
    else match ApplyEvent(t, events[0])
      case Failure(err) => Failure(err)
      case Success(t') => ApplyBatch(t', events[1..])
  }

  /** A valid, encodable event appended without collision keeps the invariant. */
  lemma AppendKeepsInvariant(t: Table, e: Event)
    requires TableInvariant(t)
    requires ValidateEvent(e).None? && e.data.Json?
    requires Append(t, e).Success?
    ensures TableInvariant(Append(t, e).value)
  {
    var t' := Append(t, e).value;
    assert t'.rows == t.rows + [Row(t.nextId, e)];
    assert FindConflict(t.rows, InputIndex, e).None?;
    assert FindConflict(t.rows, VisibleTextIndex, e).None?;
    forall i, j | 0 <= i < j < |t'.rows|
      ensures t'.rows[i].id != t'.rows[j].id
      ensures !SameKey(InputIndex, t'.rows[i].event, t'.rows[j].event)
      ensures !SameKey(VisibleTextIndex, t'.rows[i].event, t'.rows[j].event)
    {
      assert t'.rows[i] == t.rows[i];
      if j < |t.rows| {
        assert t'.rows[j] == t.rows[j];
      }
    }
  }

  /** Overwriting row `k` with a valid, encodable event keeps the invariant: no key changes. */
  lemma OverwriteKeepsInvariant(t: Table, k: nat, e: Event)
    requires TableInvariant(t)
    requires ValidateEvent(e).None? && e.data.Json?
    requires k < |t.rows|
    ensures TableInvariant(Table(t.rows[k := Overwrite(t.rows[k], e)], t.nextId))
  {
    var rows' := t.rows[k := Overwrite(t.rows[k], e)];
    forall i, ix | 0 <= i < |t.rows|
      ensures Covered(ix, rows'[i].event) == Covered(ix, t.rows[i].event)
      ensures forall x :: SameKey(ix, rows'[i].event, x) == SameKey(ix, t.rows[i].event, x)
    {
    }
    forall i, j | 0 <= i < j < |rows'|
      ensures rows'[i].id != rows'[j].id
      ensures !SameKey(InputIndex, rows'[i].event, rows'[j].event)
      ensures !SameKey(VisibleTextIndex, rows'[i].event, rows'[j].event)
    {
      assert !SameKey(InputIndex, t.rows[i].event, t.rows[j].event);
      assert !SameKey(VisibleTextIndex, t.rows[i].event, t.rows[j].event);
    }
  }

  /** Every successful write keeps the table invariant. */
  lemma ApplyEventKeepsInvariant(t: Table, e: Event)
    requires TableInvariant(t)
    ensures ApplyEvent(t, e).Success? ==> TableInvariant(ApplyEvent(t, e).value)
  {
    if ApplyEvent(t, e).Success? {
      var target := if Classify(e) == InputUpsert then InputIndex else VisibleTextIndex;
      if Classify(e) != PlainInsert && FindConflict(t.rows, target, e).Some? {
        OverwriteKeepsInvariant(t, FindConflict(t.rows, target, e).value, e);
      } else {
        AppendKeepsInvariant(t, e);
      }
    }
  }

  // ------------------------------------------------------------------ the query

  /** `EventFilter`: absent fields do not filter; `limit <= 0` means no LIMIT clause. */
  datatype EventFilter = EventFilter(
    eventType: Option<string>,
    sinceUtc: Option<int64>,
    untilUtc: Option<int64>,
    limit: int)

  datatype QueryError = UnknownTypeFilter(kind: string)

  /** The WHERE clause: type equality and the inclusive time range, conjunctively. */
  predicate Matches(f: EventFilter, e: Event) {
    && (f.eventType.Some? ==> e.kind == f.eventType.value)
    && (f.sinceUtc.Some? ==> f.sinceUtc.value <= e.tsUtc)
    && (f.untilUtc.Some? ==> e.tsUtc <= f.untilUtc.value)
  }

  /** The events of the matching rows, in table order, without their ids. */
  function Selected(rows: seq<Row>, f: EventFilter): (r: seq<Event>)
    ensures forall e :: e in r ==> Matches(f, e)
    ensures forall i :: 0 <= i < |rows| && Matches(f, rows[i].event) ==> rows[i].event in r
    ensures |r| <= |rows|
  {
    if rows == [] then []
    else (if Matches(f, rows[0].event) then [rows[0].event] else []) + Selected(rows[1..], f)
  }

  /**
   * The WHERE clause keeps every matching row's event once per row and nothing else:
   * each event occurs in the selection as often as the table holds it, when it
   * matches, and not at all otherwise.
   */
  lemma {:induction false} SelectedCounts(rows: seq<Row>, f: EventFilter)
    ensures forall e :: multiset(Selected(rows, f))[e] == if Matches(f, e) then multiset(Events(rows))[e] else 0
    decreases |rows|
  {
    if rows != [] {
      SelectedCounts(rows[1..], f);
      assert Events(rows) == [rows[0].event] + Events(rows[1..]);
    }
  }

  /** The events of `rows`, in table order, ids dropped. */
  function Events(rows: seq<Row>): (r: seq<Event>)
    ensures |r| == |rows| && forall i :: 0 <= i < |rows| ==> r[i] == rows[i].event
  {
    seq(|rows|, i requires 0 <= i < |rows| => rows[i].event)
  }

  predicate NewestFirst(s: seq<Event>) {
    forall i, j :: 0 <= i < j < |s| ==> s[j].tsUtc <= s[i].tsUtc
  }

  /** Places `e` into `s`, in front of the first event that is not more recent than it. */
  function InsertByTime(e: Event, s: seq<Event>): (r: seq<Event>)
    ensures |r| == |s| + 1
  {
    if s == [] || s[0].tsUtc <= e.tsUtc then [e] + s
    else [s[0]] + InsertByTime(e, s[1..])
  }

  /** ORDER BY ts_utc DESC, as an insertion sort. */
  function SortNewestFirst(s: seq<Event>): (r: seq<Event>)
    ensures |r| == |s|
  {
    if s == [] then [] else InsertByTime(s[0], SortNewestFirst(s[1..]))
  }

  lemma {:induction false} InsertByTimePermutes(e: Event, s: seq<Event>)
    ensures multiset(InsertByTime(e, s)) == multiset(s) + multiset{e}
  {
    if s != [] && s[0].tsUtc > e.tsUtc {
      InsertByTimePermutes(e, s[1..]);
      assert s == [s[0]] + s[1..];
    }
  }

  lemma {:induction false} InsertByTimeSorted(e: Event, s: seq<Event>)
    requires NewestFirst(s)
    ensures NewestFirst(InsertByTime(e, s))
    ensures forall x :: x in InsertByTime(e, s) ==> x == e || x in s
  {
    var r := InsertByTime(e, s);
    if s == [] || s[0].tsUtc <= e.tsUtc {
      assert r == [e] + s;
      forall i, j | 0 <= i < j < |r| ensures r[j].tsUtc <= r[i].tsUtc {
        assert r[j] == s[j - 1];
        if i > 0 {
          assert r[i] == s[i - 1];
        }
      }
    } else {
      var rest := InsertByTime(e, s[1..]);
      InsertByTimeSorted(e, s[1..]);
      assert r == [s[0]] + rest;
      forall i, j | 0 <= i < j < |r| ensures r[j].tsUtc <= r[i].tsUtc {
        assert r[j] == rest[j - 1];
        if i == 0 {
          assert r[j] in rest;
          if r[j] != e {
            var k :| 0 <= k < |s[1..]| && s[1..][k] == r[j];
            assert s[k + 1] == r[j];
          }
        } else {
          assert r[i] == rest[i - 1];
        }
      }
    }
  }

  /** The sort is a permutation into newest-first order. */
  lemma {:induction false} SortNewestFirstCorrect(s: seq<Event>)
    ensures NewestFirst(SortNewestFirst(s))
    ensures multiset(SortNewestFirst(s)) == multiset(s)
  {
    if s != [] {
      SortNewestFirstCorrect(s[1..]);
      InsertByTimeSorted(s[0], SortNewestFirst(s[1..]));
      InsertByTimePermutes(s[0], SortNewestFirst(s[1..]));
      assert s == [s[0]] + s[1..];
    }
  }

  /** LIMIT: only a positive limit truncates. */
  function Take(s: seq<Event>, limit: int): (r: seq<Event>)
    ensures limit > 0 ==> |r| == if limit < |s| then limit else |s|
    ensures limit <= 0 ==> r == s
    ensures r <= s
  {
    if 0 < limit < |s| then s[..limit] else s
  }

  /** GetEvents over a table's rows. */
  function Query(rows: seq<Row>, f: EventFilter): (r: Result<seq<Event>, QueryError>)
    ensures r.Failure? <==> f.eventType.Some? && f.eventType.value !in ValidEventTypes
    ensures r.Success? ==> |r.value| <= |Selected(rows, f)|
  {
    if f.eventType.Some? && f.eventType.value !in ValidEventTypes
    then Failure(UnknownTypeFilter(f.eventType.value))
    else Success(Take(SortNewestFirst(Selected(rows, f)), f.limit))
  }

  /** A newest-first sequence's prefix holds events at least as recent as everything after it. */
  lemma PrefixIsMostRecent(s: seq<Event>, n: nat)
    requires NewestFirst(s) && n <= |s|
    ensures forall x, y :: x in s[..n] && y in multiset(s) - multiset(s[..n]) ==> y.tsUtc <= x.tsUtc
  {
    assert s == s[..n] + s[n..];
    assert multiset(s) - multiset(s[..n]) == multiset(s[n..]);
    forall x, y | x in s[..n] && y in multiset(s) - multiset(s[..n]) ensures y.tsUtc <= x.tsUtc {
      assert y in s[n..];
      var i :| 0 <= i < n && s[i] == x;
      var j :| n <= j < |s| && s[j] == y;
    }
  }

  // ------------------------------------------------------------------ the store

  /** The store object: the committed `events` table. */
  class Database {
    var rows: seq<Row>
    var nextId: int

    function Snapshot(): Table
      reads this
    {
      Table(rows, nextId)
    }

    ghost predicate Valid()
      reads this
    {
      TableInvariant(Snapshot())
    }

    /** A freshly created, empty table. */
    constructor ()
      ensures Valid()
      ensures rows == [] && nextId == 1
    {
      rows := [];
      nextId := 1;
    }

    /**
     * Writes the batch inside one transaction. On success the committed table is the
     * batch applied in order; on any error nothing changes, not even the rows the
     * batch wrote before the failing event.
     */
    method InsertEvents(events: seq<Event>) returns (err: Option<InsertError>)
      requires Valid()
      modifies this
      ensures Valid()
      ensures ApplyBatch(old(Snapshot()), events).Success? ==>
                err.None? && Snapshot() == ApplyBatch(old(Snapshot()), events).value
      ensures ApplyBatch(old(Snapshot()), events).Failure? ==>
                err == Some(ApplyBatch(old(Snapshot()), events).error) && Snapshot() == old(Snapshot())
    {
      var work := Snapshot();
      var i := 0;
      while i < |events|
        invariant 0 <= i <= |events|
        invariant TableInvariant(work)
        invariant ApplyBatch(old(Snapshot()), events) == ApplyBatch(work, events[i..])
        invariant Snapshot() == old(Snapshot())
      {
        var e := events[i];
        assert events[i..][0] == e && events[i..][1..] == events[i + 1..];
        var invalid := ValidateEvent(e);
        if invalid.Some? {
          return Some(Invalid(invalid.value));
        }
        if e.data.Unencodable? {
          return Some(MarshalFailed);
        }
        var written := Write(work, e);
        if written.Failure? {
          return Some(written.error);
        }
        ApplyEventKeepsInvariant(work, e);
        work := written.value;
        i := i + 1;
      }
      rows, nextId := work.rows, work.nextId;
      err := None;
    }

    /**
     * The query: an unknown type filter is an error; otherwise the most recent
     * matching events, newest first, at most `limit` of them when it is positive.
     */
    function GetEvents(f: EventFilter): (r: Result<seq<Event>, QueryError>)
      reads this
      ensures r.Failure? <==> f.eventType.Some? && f.eventType.value !in ValidEventTypes
      ensures r.Success? ==> forall e :: e in r.value ==> Matches(f, e)
      ensures r.Success? ==> NewestFirst(r.value)
      ensures r.Success? ==> multiset(r.value) <= multiset(Selected(rows, f))
      ensures r.Success? && f.limit > 0 ==>
                |r.value| == if f.limit < |Selected(rows, f)| then f.limit else |Selected(rows, f)|
      ensures r.Success? && f.limit <= 0 ==> multiset(r.value) == multiset(Selected(rows, f))
      ensures r.Success? ==>
                forall x, y :: x in r.value && y in multiset(Selected(rows, f)) - multiset(r.value) ==> y.tsUtc <= x.tsUtc
    {
      QueryCorrect(rows, f);
      Query(rows, f)
    }
  }

  /** The query's result is the most recent matching events, newest first, limited. */
  lemma QueryCorrect(rows: seq<Row>, f: EventFilter)
    ensures Query(rows, f).Failure? <==> f.eventType.Some? && f.eventType.value !in ValidEventTypes
    ensures Query(rows, f).Success? ==>
              var r := Query(rows, f).value;
              var m := Selected(rows, f);
              && (forall e :: e in r ==> Matches(f, e))
              && NewestFirst(r)
              && multiset(r) <= multiset(m)
              && (f.limit > 0 ==> |r| == if f.limit < |m| then f.limit else |m|)
              && (f.limit <= 0 ==> multiset(r) == multiset(m))
              && (forall x, y :: x in r && y in multiset(m) - multiset(r) ==> y.tsUtc <= x.tsUtc)
  {
    if Query(rows, f).Success? {
      var m := Selected(rows, f);
      SortNewestFirstCorrect(m);
      TakeNewestFirst(SortNewestFirst(m), f.limit);
      forall e | e in Query(rows, f).value ensures Matches(f, e) {
        assert e in multiset(m);
      }
    }
  }

  /** The limit applied to a newest-first sequence keeps its most recent events, in order. */
  lemma TakeNewestFirst(s: seq<Event>, limit: int)
    requires NewestFirst(s)
    ensures var r := Take(s, limit);
            && NewestFirst(r)
            && multiset(r) <= multiset(s)
            && (limit <= 0 ==> multiset(r) == multiset(s))
            && (forall x, y :: x in r && y in multiset(s) - multiset(r) ==> y.tsUtc <= x.tsUtc)
  {
    var r := Take(s, limit);
    var n := |r|;
    assert r == s[..n];
    PrefixIsMostRecent(s, n);
    assert s == s[..n] + s[n..];
    assert multiset(s) == multiset(r) + multiset(s[n..]);
  }
}
