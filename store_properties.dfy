/**
 * What the store promises across calls: batches are all-or-nothing, the unique
 * indexes survive every batch, upserts overwrite a fixed set of columns in place,
 * plain inserts always add a row, and the query's edge cases.
 */
module StoreProperties {
  import opened Wrappers
  import opened Models
  import opened Store

  // ------------------------------------------------------------ batch atomicity

  /** One invalid event anywhere in a batch makes the whole batch fail. */
  lemma {:induction false} InvalidEventFailsBatch(t: Table, events: seq<Event>, i: nat)
    requires i < |events|
    requires ValidateEvent(events[i]).Some?
    ensures ApplyBatch(t, events).Failure?
    decreases i
  {
    if i > 0 {
      match ApplyEvent(t, events[0])
      case Failure(_) =>
      case Success(t') =>
        InvalidEventFailsBatch(t', events[1..], i - 1);
    }
  }

  /** A successful batch consisted of valid events with encodable payloads only. */
  lemma {:induction false} SuccessfulBatchIsValid(t: Table, events: seq<Event>)
    requires ApplyBatch(t, events).Success?
    ensures forall i :: 0 <= i < |events| ==> ValidateEvent(events[i]).None? && events[i].data.Json?
    decreases |events|
  {
    if events != [] {
      var t' := ApplyEvent(t, events[0]).value;
      SuccessfulBatchIsValid(t', events[1..]);
      forall i | 0 < i < |events|
        ensures ValidateEvent(events[i]).None? && events[i].data.Json?
      {
        assert events[i] == events[1..][i - 1];
      }
    }
  }

  /** Every successful batch keeps both unique indexes (and the rest of the invariant). */
  lemma {:induction false} ApplyBatchKeepsInvariant(t: Table, events: seq<Event>)
    requires TableInvariant(t)
    requires ApplyBatch(t, events).Success?
    ensures TableInvariant(ApplyBatch(t, events).value)
    ensures var rows := ApplyBatch(t, events).value.rows;
            forall i, j :: 0 <= i < j < |rows| ==>
              !SameKey(InputIndex, rows[i].event, rows[j].event) && !SameKey(VisibleTextIndex, rows[i].event, rows[j].event)
    decreases |events|
  {
    if events != [] {
      ApplyEventKeepsInvariant(t, events[0]);
      ApplyBatchKeepsInvariant(ApplyEvent(t, events[0]).value, events[1..]);
    }
  }

  // ------------------------------------------------------------------- upserts

  lemma SameKeyTransitive(ix: UniqueIndex, a: Event, b: Event, c: Event)
    requires SameKey(ix, a, b) && SameKey(ix, b, c)
    ensures SameKey(ix, a, c) && SameKey(ix, c, a)
  {
  }

  /** In a table without duplicate keys, the only row colliding with `e` is the one found. */
  lemma ConflictIsUnique(t: Table, ix: UniqueIndex, e: Event, k: nat)
    requires TableInvariant(t)
    requires k < |t.rows| && SameKey(ix, t.rows[k].event, e)
    ensures FindConflict(t.rows, ix, e) == Some(k)
  {
    forall j | 0 <= j < |t.rows| && SameKey(ix, t.rows[j].event, e)
      ensures j == k
    {
      SameKeyTransitive(ix, t.rows[j].event, e, t.rows[k].event);
    }
  }

  /** Which row collides depends on the key only. */
  lemma {:induction false} FindConflictByKey(rows: seq<Row>, ix: UniqueIndex, a: Event, b: Event)
    requires SameKey(ix, a, b)
    ensures FindConflict(rows, ix, a) == FindConflict(rows, ix, b)
    decreases |rows|
  {
    if rows != [] {
      if SameKey(ix, rows[0].event, a) {
        SameKeyTransitive(ix, rows[0].event, a, b);
      } else if SameKey(ix, rows[0].event, b) {
        SameKeyTransitive(ix, rows[0].event, b, a);
      }
      FindConflictByKey(rows[1..], ix, a, b);
    }
  }

  /**
   * An input event whose (url, field_id, session_id) is already stored, in a row of any
   * type, overwrites that row's ts_utc, ts_iso, title and data; its id, url, type,
   * session_id and field_id stay, every other row stays, and no row is added.
   */
  lemma InputUpsertOverwrites(t: Table, e: Event, k: nat)
    requires TableInvariant(t)
    requires ValidateEvent(e).None? && e.data.Json? && Classify(e) == InputUpsert
    requires k < |t.rows| && SameKey(InputIndex, t.rows[k].event, e)
    ensures ApplyEvent(t, e).Success?
    ensures var t' := ApplyEvent(t, e).value;
            && t'.nextId == t.nextId
            && |t'.rows| == |t.rows|
            && (forall i :: 0 <= i < |t.rows| && i != k ==> t'.rows[i] == t.rows[i])
            && t'.rows[k].id == t.rows[k].id
            && t'.rows[k].event == t.rows[k].event.(tsUtc := e.tsUtc, tsIso := e.tsIso, title := e.title, data := e.data)
  {
    ConflictIsUnique(t, InputIndex, e, k);
  }

  /**
   * A visible_text event with a session whose (url, session_id) is already stored in a
   * visible_text row overwrites that row the same way.
   */
  lemma VisibleTextUpsertOverwrites(t: Table, e: Event, k: nat)
    requires TableInvariant(t)
    requires ValidateEvent(e).None? && e.data.Json? && Classify(e) == VisibleTextUpsert
    requires k < |t.rows| && SameKey(VisibleTextIndex, t.rows[k].event, e)
    ensures ApplyEvent(t, e).Success?
    ensures var t' := ApplyEvent(t, e).value;
            && t'.nextId == t.nextId
            && |t'.rows| == |t.rows|
            && (forall i :: 0 <= i < |t.rows| && i != k ==> t'.rows[i] == t.rows[i])
            && t'.rows[k].id == t.rows[k].id
            && t'.rows[k].event == t.rows[k].event.(tsUtc := e.tsUtc, tsIso := e.tsIso, title := e.title, data := e.data)
  {
    ConflictIsUnique(t, VisibleTextIndex, e, k);
  }

  /**
   * An input upsert always succeeds on a valid table; afterwards exactly one row carries
   * its key, holding its timestamp and payload, and the table grew by one row exactly
   * when the key was new.
   */
  lemma InputUpsertResult(t: Table, e: Event)
    requires TableInvariant(t)
    requires ValidateEvent(e).None? && e.data.Json? && Classify(e) == InputUpsert
    ensures ApplyEvent(t, e).Success?
    ensures var t' := ApplyEvent(t, e).value;
            && TableInvariant(t')
            && |t'.rows| == |t.rows| + (if FindConflict(t.rows, InputIndex, e).Some? then 0 else 1)
            && FindConflict(t'.rows, InputIndex, e).Some?
            && var row := t'.rows[FindConflict(t'.rows, InputIndex, e).value].event;
               row.tsUtc == e.tsUtc && row.data == e.data
  {
    ApplyEventKeepsInvariant(t, e);
    var t' := ApplyEvent(t, e).value;
    match FindConflict(t.rows, InputIndex, e)
    case Some(k) =>
      InputUpsertOverwrites(t, e, k);
      ConflictIsUnique(t', InputIndex, e, k);
    case None =>
      assert FindConflict(t.rows, VisibleTextIndex, e).None?;
      assert t'.rows == t.rows + [Row(t.nextId, e)];
      ConflictIsUnique(t', InputIndex, e, |t.rows|);
  }

  /**
   * Last write wins: a run of input events for one (url, field_id, session_id) leaves
   * exactly one row for that key, holding the last event's timestamp and payload.
   */
  lemma {:induction false} LastWriteWins(t: Table, events: seq<Event>)
    requires TableInvariant(t)
    requires |events| > 0
    requires forall i :: 0 <= i < |events| ==>
               && ValidateEvent(events[i]).None? && events[i].data.Json?
               && Classify(events[i]) == InputUpsert
               && SameKey(InputIndex, events[i], events[0])
    ensures ApplyBatch(t, events).Success?
    ensures var t' := ApplyBatch(t, events).value;
            && TableInvariant(t')
            && |t'.rows| == |t.rows| + (if FindConflict(t.rows, InputIndex, events[0]).Some? then 0 else 1)
            && FindConflict(t'.rows, InputIndex, events[0]).Some?
            && var row := t'.rows[FindConflict(t'.rows, InputIndex, events[0]).value].event;
               row.tsUtc == events[|events| - 1].tsUtc && row.data == events[|events| - 1].data
    decreases |events|
  {
    var e := events[0];
    InputUpsertResult(t, e);
    var t1 := ApplyEvent(t, e).value;
    if |events| > 1 {
      var rest := events[1..];
      forall i | 0 <= i < |rest|
        ensures && ValidateEvent(rest[i]).None? && rest[i].data.Json?
                && Classify(rest[i]) == InputUpsert && SameKey(InputIndex, rest[i], rest[0])
      {
        assert rest[i] == events[i + 1] && rest[0] == events[1];
        SameKeyTransitive(InputIndex, events[i + 1], e, events[1]);
      }
      LastWriteWins(t1, rest);
      var t' := ApplyBatch(t1, rest).value;
      assert ApplyBatch(t, events) == ApplyBatch(t1, rest);
      FindConflictByKey(t1.rows, InputIndex, e, rest[0]);
      FindConflictByKey(t'.rows, InputIndex, e, rest[0]);
      assert rest[|rest| - 1] == events[|events| - 1];
    } else {
      assert ApplyBatch(t, events) == ApplyBatch(t1, []);
    }
  }

  /**
   * Input events whose keys differ in url, field_id or session_id land in separate rows:
   * on a table holding neither key, the two events add two rows.
   */
  lemma DistinctInputKeysGiveSeparateRows(t: Table, e1: Event, e2: Event)
    requires TableInvariant(t)
    requires ValidateEvent(e1).None? && e1.data.Json? && Classify(e1) == InputUpsert
    requires ValidateEvent(e2).None? && e2.data.Json? && Classify(e2) == InputUpsert
    requires e1.url != e2.url || e1.sessionId != e2.sessionId || e1.fieldId != e2.fieldId
    requires forall i :: 0 <= i < |t.rows| ==>
               !SameKey(InputIndex, t.rows[i].event, e1) && !SameKey(InputIndex, t.rows[i].event, e2)
    ensures ApplyBatch(t, [e1, e2]) == Success(Table(t.rows + [Row(t.nextId, e1), Row(t.nextId + 1, e2)], t.nextId + 2))
  {
    var t1 := Table(t.rows + [Row(t.nextId, e1)], t.nextId + 1);
    FreshInputKeyAppends(t, e1);
    forall i | 0 <= i < |t1.rows| ensures !SameKey(InputIndex, t1.rows[i].event, e2) {
      if i < |t.rows| {
        assert t1.rows[i] == t.rows[i];
      } else {
        assert t1.rows[i].event == e1;
      }
    }
    FreshInputKeyAppends(t1, e2);
    var t2 := Table(t1.rows + [Row(t1.nextId, e2)], t1.nextId + 1);
    assert ApplyBatch(t1, [e2]) == ApplyBatch(t2, []) == Success(t2);
    assert [e1, e2][1..] == [e2];
    assert ApplyBatch(t, [e1, e2]) == ApplyBatch(t1, [e2]);
    assert t1.rows + [Row(t1.nextId, e2)] == t.rows + [Row(t.nextId, e1), Row(t.nextId + 1, e2)];
  }

  /** An input event whose key no row holds is appended under the next id. */
  lemma FreshInputKeyAppends(t: Table, e: Event)
    requires ValidateEvent(e).None? && e.data.Json? && Classify(e) == InputUpsert
    requires forall i :: 0 <= i < |t.rows| ==> !SameKey(InputIndex, t.rows[i].event, e)
    ensures ApplyEvent(t, e) == Success(Table(t.rows + [Row(t.nextId, e)], t.nextId + 1))
  {
    assert FindConflict(t.rows, InputIndex, e).None?;
    assert !Covered(VisibleTextIndex, e);
    assert FindConflict(t.rows, VisibleTextIndex, e).None?;
  }

  // ------------------------------------------------------ visible_text upserts

  /**
   * A visible_text upsert on a valid table succeeds unless it finds no visible_text row
   * to update and its insert then hits the input index. On success exactly one
   * visible_text row carries its (url, session_id), holding its timestamp and payload,
   * and the table grew by one row exactly when that key was new.
   */
  lemma VisibleTextUpsertResult(t: Table, e: Event)
    requires TableInvariant(t)
    requires ValidateEvent(e).None? && e.data.Json? && Classify(e) == VisibleTextUpsert
    ensures ApplyEvent(t, e).Success? <==>
              FindConflict(t.rows, VisibleTextIndex, e).Some? || FindConflict(t.rows, InputIndex, e).None?
    ensures ApplyEvent(t, e).Success? ==>
              var t' := ApplyEvent(t, e).value;
              && TableInvariant(t')
              && |t'.rows| == |t.rows| + (if FindConflict(t.rows, VisibleTextIndex, e).Some? then 0 else 1)
              && FindConflict(t'.rows, VisibleTextIndex, e).Some?
              && var row := t'.rows[FindConflict(t'.rows, VisibleTextIndex, e).value].event;
                 row.tsUtc == e.tsUtc && row.data == e.data
  {
    if ApplyEvent(t, e).Success? {
      ApplyEventKeepsInvariant(t, e);
      var t' := ApplyEvent(t, e).value;
      match FindConflict(t.rows, VisibleTextIndex, e)
      case Some(k) =>
        VisibleTextUpsertOverwrites(t, e, k);
        ConflictIsUnique(t', VisibleTextIndex, e, k);
      case None =>
        assert t'.rows == t.rows + [Row(t.nextId, e)];
        ConflictIsUnique(t', VisibleTextIndex, e, |t.rows|);
    }
  }

  /**
   * Last write wins for visible text too: a run of visible_text events for one
   * (url, session_id) leaves one row for that key, holding the last event's timestamp
   * and payload, provided the first of them can be written at all.
   */
  lemma {:induction false} VisibleTextLastWriteWins(t: Table, events: seq<Event>)
    requires TableInvariant(t)
    requires |events| > 0
    requires forall i :: 0 <= i < |events| ==>
               && ValidateEvent(events[i]).None? && events[i].data.Json?
               && Classify(events[i]) == VisibleTextUpsert
               && SameKey(VisibleTextIndex, events[i], events[0])
    requires FindConflict(t.rows, VisibleTextIndex, events[0]).Some? || FindConflict(t.rows, InputIndex, events[0]).None?
    ensures ApplyBatch(t, events).Success?
    ensures var t' := ApplyBatch(t, events).value;
            && TableInvariant(t')
            && |t'.rows| == |t.rows| + (if FindConflict(t.rows, VisibleTextIndex, events[0]).Some? then 0 else 1)
            && FindConflict(t'.rows, VisibleTextIndex, events[0]).Some?
            && var row := t'.rows[FindConflict(t'.rows, VisibleTextIndex, events[0]).value].event;
               row.tsUtc == events[|events| - 1].tsUtc && row.data == events[|events| - 1].data
    decreases |events|
  {
    var e := events[0];
    VisibleTextUpsertResult(t, e);
    var t1 := ApplyEvent(t, e).value;
    if |events| > 1 {
      var rest := events[1..];
      forall i | 0 <= i < |rest|
        ensures && ValidateEvent(rest[i]).None? && rest[i].data.Json?
                && Classify(rest[i]) == VisibleTextUpsert && SameKey(VisibleTextIndex, rest[i], rest[0])
      {
        assert rest[i] == events[i + 1] && rest[0] == events[1];
        SameKeyTransitive(VisibleTextIndex, events[i + 1], e, events[1]);
      }
      FindConflictByKey(t1.rows, VisibleTextIndex, e, rest[0]);
      VisibleTextLastWriteWins(t1, rest);
      var t' := ApplyBatch(t1, rest).value;
      assert ApplyBatch(t, events) == ApplyBatch(t1, rest);
      FindConflictByKey(t'.rows, VisibleTextIndex, e, rest[0]);
      assert rest[|rest| - 1] == events[|events| - 1];
    } else {
      assert ApplyBatch(t, events) == ApplyBatch(t1, []);
    }
  }

  /** A visible_text event whose keys no row holds on either index is appended under the next id. */
  lemma FreshVisibleTextKeyAppends(t: Table, e: Event)
    requires ValidateEvent(e).None? && e.data.Json? && Classify(e) == VisibleTextUpsert
    requires forall i :: 0 <= i < |t.rows| ==>
               !SameKey(VisibleTextIndex, t.rows[i].event, e) && !SameKey(InputIndex, t.rows[i].event, e)
    ensures ApplyEvent(t, e) == Success(Table(t.rows + [Row(t.nextId, e)], t.nextId + 1))
  {
    assert FindConflict(t.rows, VisibleTextIndex, e).None?;
    assert FindConflict(t.rows, InputIndex, e).None?;
  }

  /**
   * Visible text is scoped by url and session: two snapshots whose (url, session_id)
   * differ, on a table holding neither key, add two rows.
   */
  lemma DistinctVisibleTextKeysGiveSeparateRows(t: Table, e1: Event, e2: Event)
    requires ValidateEvent(e1).None? && e1.data.Json? && Classify(e1) == VisibleTextUpsert
    requires ValidateEvent(e2).None? && e2.data.Json? && Classify(e2) == VisibleTextUpsert
    requires e1.url != e2.url || e1.sessionId != e2.sessionId
    requires forall i :: 0 <= i < |t.rows| ==>
               && !SameKey(VisibleTextIndex, t.rows[i].event, e1) && !SameKey(InputIndex, t.rows[i].event, e1)
               && !SameKey(VisibleTextIndex, t.rows[i].event, e2) && !SameKey(InputIndex, t.rows[i].event, e2)
    ensures ApplyBatch(t, [e1, e2]) == Success(Table(t.rows + [Row(t.nextId, e1), Row(t.nextId + 1, e2)], t.nextId + 2))
  {
    var t1 := Table(t.rows + [Row(t.nextId, e1)], t.nextId + 1);
    FreshVisibleTextKeyAppends(t, e1);
    forall i | 0 <= i < |t1.rows|
      ensures !SameKey(VisibleTextIndex, t1.rows[i].event, e2) && !SameKey(InputIndex, t1.rows[i].event, e2)
    {
      if i < |t.rows| {
        assert t1.rows[i] == t.rows[i];
      } else {
        assert t1.rows[i].event == e1;
      }
    }
    FreshVisibleTextKeyAppends(t1, e2);
    var t2 := Table(t1.rows + [Row(t1.nextId, e2)], t1.nextId + 1);
    assert ApplyBatch(t1, [e2]) == ApplyBatch(t2, []) == Success(t2);
    assert [e1, e2][1..] == [e2];
    assert ApplyBatch(t, [e1, e2]) == ApplyBatch(t1, [e2]);
    assert t1.rows + [Row(t1.nextId, e2)] == t.rows + [Row(t.nextId, e1), Row(t.nextId + 1, e2)];
  }

  // -------------------------------------------------------------- plain inserts

  /**
   * A plain insert that does not collide with the input index adds exactly one row,
   * holding the event under a fresh id.
   */
  lemma PlainInsertAppends(t: Table, e: Event)
    requires TableInvariant(t)
    requires ValidateEvent(e).None? && e.data.Json? && Classify(e) == PlainInsert
    requires forall i :: 0 <= i < |t.rows| ==> !SameKey(InputIndex, t.rows[i].event, e)
    ensures ApplyEvent(t, e) == Success(Table(t.rows + [Row(t.nextId, e)], t.nextId + 1))
    ensures forall i :: 0 <= i < |t.rows| ==> t.rows[i].id != t.nextId
  {
    assert FindConflict(t.rows, InputIndex, e).None?;
    assert !Covered(VisibleTextIndex, e);
    assert FindConflict(t.rows, VisibleTextIndex, e).None?;
  }

  /** Two identical click events lacking a field id or a session give two rows with distinct ids. */
  lemma RepeatedClicksGiveTwoRows(t: Table, c: Event)
    requires TableInvariant(t)
    requires ValidateEvent(c).None? && c.data.Json? && c.kind == "click" && (c.fieldId.None? || c.sessionId.None?)
    ensures ApplyBatch(t, [c, c]) == Success(Table(t.rows + [Row(t.nextId, c), Row(t.nextId + 1, c)], t.nextId + 2))
  {
    PlainInsertAppends(t, c);
    var t1 := Table(t.rows + [Row(t.nextId, c)], t.nextId + 1);
    AppendKeepsInvariant(t, c);
    PlainInsertAppends(t1, c);
    var t2 := Table(t1.rows + [Row(t1.nextId, c)], t1.nextId + 1);
    assert ApplyBatch(t1, [c]) == ApplyBatch(t2, []) == Success(t2);
    assert [c, c][1..] == [c];
    assert ApplyBatch(t, [c, c]) == ApplyBatch(t1, [c]);
    assert t1.rows + [Row(t1.nextId, c)] == t.rows + [Row(t.nextId, c), Row(t.nextId + 1, c)];
  }

  /**
   * The input index binds rows of every type: an event written by a plain insert (or by a
   * visible_text upsert that finds no visible_text row to update) whose (url, field_id,
   * session_id) is already stored violates it, and its whole batch is refused.
   */
  lemma InputKeyCollisionFailsBatch(t: Table, events: seq<Event>, e: Event, k: nat)
    requires TableInvariant(t)
    requires ValidateEvent(e).None? && e.data.Json?
    requires Classify(e) == PlainInsert ||
             (Classify(e) == VisibleTextUpsert && forall i :: 0 <= i < |t.rows| ==> !SameKey(VisibleTextIndex, t.rows[i].event, e))
    requires k < |t.rows| && SameKey(InputIndex, t.rows[k].event, e)
    ensures ApplyEvent(t, e) == Failure(ConstraintViolation)
    ensures ApplyBatch(t, [e] + events) == Failure(ConstraintViolation)
  {
    assert FindConflict(t.rows, InputIndex, e).Some?;
    assert ([e] + events)[0] == e;
  }

  // -------------------------------------------------------------------- queries

  /** An empty store answers every query with a known (or no) type filter with no events. */
  lemma EmptyStoreGivesEmptyResult(f: EventFilter)
    requires f.eventType.None? || f.eventType.value in ValidEventTypes
    ensures Query([], f) == Success([])
  {
    assert Selected([], f) == [];
  }

  /** An unknown type filter is an error, never an empty result, whatever the table holds. */
  lemma UnknownTypeFilterIsError(rows: seq<Row>, f: EventFilter)
    requires f.eventType.Some? && f.eventType.value !in ValidEventTypes
    ensures Query(rows, f) == Failure(UnknownTypeFilter(f.eventType.value))
  {
  }
}
