/**
 * The HTTP layer's decisions: `/events` dispatches on the method, the insert path
 * maps the decode outcome and the store's answer to a status, and the query path
 * turns the query string into an `EventFilter`. The pure `Plan*` functions say
 * which status is answered or which store call is made; `Server.HandleEvents`
 * carries the plan out against the store object.
 */
module Server {
  import opened Wrappers
  import opened Models
  import opened Decimal
  import opened Store

  const StatusOK := 200
  const StatusNoContent := 204
  const StatusBadRequest := 400
  const StatusMethodNotAllowed := 405
  const StatusInternalServerError := 500

  /** The limit a query gets when it names none. */
  const DefaultLimit := 100

  /**
   * An abstract request: its method, its body as the JSON decoder left it (`None` when
   * decoding failed) and its query string, one (decoded) value per key.
   */
  datatype Request = Request(httpMethod: string, body: Option<Batch>, query: map<string, string>)

  datatype Body = NoBody | Text(text: string) | ErrorMessage | EventList(events: seq<Event>)

  datatype Response = Response(status: int, body: Body)

  /** `url.Values.Get`: the value of `key`, or "" when it is absent. */
  function QueryGet(q: map<string, string>, key: string): string {
    if key in q then q[key] else ""
  }

  // ------------------------------------------------------------ the query path

  /** The query parameter that made a request a bad request. */
  datatype BadParam = BadSince | BadUntil | BadLimit

  /** `since` and `until`: absent (or empty), or a base-10 signed 64-bit integer. */
  predicate TimeParamOk(v: string) {
    v == "" || ParseInt64(v).Some?
  }

  /** `limit`: absent (or empty), or an integer that is positive. */
  predicate LimitParamOk(v: string) {
    v == "" || (ParseInt64(v).Some? && ParseInt64(v).value > 0)
  }

  /**
   * Builds the filter of a GET /events request, parameter by parameter in the order
   * type, since, until, limit. `type` is passed through unchecked; the first malformed
   * parameter decides the error.
   */
  function ParseFilter(q: map<string, string>): (r: Result<EventFilter, BadParam>)
    ensures r.Success? <==>
              TimeParamOk(QueryGet(q, "since")) && TimeParamOk(QueryGet(q, "until")) && LimitParamOk(QueryGet(q, "limit"))
    ensures r.Failure? ==>
              r.error == if !TimeParamOk(QueryGet(q, "since")) then BadSince
                         else if !TimeParamOk(QueryGet(q, "until")) then BadUntil
                         else BadLimit
    ensures r.Success? ==>
              r.value.eventType == if QueryGet(q, "type") == "" then None else Some(QueryGet(q, "type"))
    ensures r.Success? ==> r.value.limit > 0
    ensures r.Success? && QueryGet(q, "limit") == "" ==> r.value.limit == DefaultLimit
    ensures r.Success? && QueryGet(q, "limit") != "" ==> r.value.limit == ParseInt64(QueryGet(q, "limit")).value as int
    ensures r.Success? ==>
              r.value.sinceUtc == if QueryGet(q, "since") == "" then None else ParseInt64(QueryGet(q, "since"))
    ensures r.Success? ==>
              r.value.untilUtc == if QueryGet(q, "until") == "" then None else ParseInt64(QueryGet(q, "until"))
  {
    var filter := EventFilter(None, None, None, DefaultLimit);
    var typeParam := QueryGet(q, "type");
    var filter := if typeParam != "" then filter.(eventType := Some(typeParam)) else filter;
    var sinceParam := QueryGet(q, "since");
    if sinceParam != "" && ParseInt64(sinceParam).None? then Failure(BadSince)
    else
      var filter := if sinceParam != "" then filter.(sinceUtc := ParseInt64(sinceParam)) else filter;
      var untilParam := QueryGet(q, "until");
      if untilParam != "" && ParseInt64(untilParam).None? then Failure(BadUntil)
      else
        var filter := if untilParam != "" then filter.(untilUtc := ParseInt64(untilParam)) else filter;
        var limitParam := QueryGet(q, "limit");
        if limitParam != "" && (ParseInt64(limitParam).None? || ParseInt64(limitParam).value <= 0) then Failure(BadLimit)
        else
          var filter := if limitParam != "" then filter.(limit := ParseInt64(limitParam).value as int) else filter;
          Success(filter)
  }

  /** What a request to `/events` leads to before the store answers. */
  datatype Plan =
    | Reply(status: int)                 // answered without calling the store
    | CallInsert(events: seq<Event>)     // InsertEvents, then 204 or 500
    | CallQuery(filter: EventFilter)     // GetEvents, then 200 or 500

  /** The insert path before the store: bad JSON is 400, an empty batch 204. */
  function PlanPostEvents(body: Option<Batch>): (p: Plan)
    ensures p == Reply(StatusBadRequest) <==> body.None?
    ensures p == Reply(StatusNoContent) <==> body.Some? && |body.value.events| == 0
    ensures p.CallInsert? <==> body.Some? && |body.value.events| > 0
    ensures p.CallInsert? ==> p.events == body.value.events
  {
    match body
    case None => Reply(StatusBadRequest)
    case Some(batch) =>
      if |batch.events| == 0 then Reply(StatusNoContent) else CallInsert(batch.events)
  }

  /** The query path before the store: a malformed parameter is 400. */
  function PlanGetEvents(q: map<string, string>): (p: Plan)
    ensures p == Reply(StatusBadRequest) <==> ParseFilter(q).Failure?
    ensures p.CallQuery? <==> ParseFilter(q).Success?
    ensures !p.CallInsert?
  {
    match ParseFilter(q)
    case Failure(_) => Reply(StatusBadRequest)
    case Success(filter) => CallQuery(filter)
  }

  /** `/events`: POST inserts, GET queries, every other method is 405. */
  function PlanEvents(req: Request): (p: Plan)
    ensures p == Reply(StatusMethodNotAllowed) <==> req.httpMethod != "POST" && req.httpMethod != "GET"
    ensures p.CallInsert? ==> req.httpMethod == "POST"
    ensures p.CallQuery? ==> req.httpMethod == "GET"
    ensures req.httpMethod == "POST" ==> p == PlanPostEvents(req.body)
    ensures req.httpMethod == "GET" ==> p == PlanGetEvents(req.query)
  {
    if req.httpMethod == "POST" then PlanPostEvents(req.body)
    else if req.httpMethod == "GET" then PlanGetEvents(req.query)
    else Reply(StatusMethodNotAllowed)
  }

  /** `/healthz` answers 200 "ok" to every request, without looking at the store. */
  function HandleHealthz(req: Request): (r: Response)
    ensures r.status == StatusOK && r.body == Text("ok")
  {
    Response(StatusOK, Text("ok"))
  }

  /** The service: the handlers share one store. */
  class Server {
    const db: Database

    constructor (db: Database)
      ensures this.db == db
    {
      this.db := db;
    }

    /**
     * Serves a request to `/events`. A request answered before the store leaves it
     * untouched; an insert commits the whole batch (204) or nothing (500); a query
     * leaves the store as it was and returns its events (200) or fails (500).
     */
    method HandleEvents(req: Request) returns (resp: Response)
      requires db.Valid()
      modifies db
      ensures db.Valid()
      ensures PlanEvents(req).Reply? ==>
                && resp.status == PlanEvents(req).status
                && db.Snapshot() == old(db.Snapshot())
      ensures PlanEvents(req).CallInsert? ==>
                var outcome := ApplyBatch(old(db.Snapshot()), PlanEvents(req).events);
                && resp.status == (if outcome.Success? then StatusNoContent else StatusInternalServerError)
                && db.Snapshot() == (if outcome.Success? then outcome.value else old(db.Snapshot()))
      ensures PlanEvents(req).CallQuery? ==>
                && db.Snapshot() == old(db.Snapshot())
                && resp == match db.GetEvents(PlanEvents(req).filter)
                           case Success(events) => Response(StatusOK, EventList(events))
                           case Failure(_) => Response(StatusInternalServerError, ErrorMessage)
    {
      match PlanEvents(req)
      case Reply(status) =>
        resp := Response(status, if status == StatusNoContent then NoBody else ErrorMessage);
      case CallInsert(events) =>
        var err := db.InsertEvents(events);
        resp := if err.None? then Response(StatusNoContent, NoBody) else Response(StatusInternalServerError, ErrorMessage);
      case CallQuery(filter) =>
        resp := match db.GetEvents(filter)
                case Success(events) => Response(StatusOK, EventList(events))
                case Failure(_) => Response(StatusInternalServerError, ErrorMessage);
    }
  }

  // ----------------------------------------------------------------- properties

  /**
   * Well-formed parameters are read back exactly: the decimal renderings of 64-bit
   * `since`/`until` and of a positive `limit` give the filter holding those values.
   */
  lemma FormattedParamsParse(t: string, since: int64, until: int64, limit: int64)
    requires limit > 0
    ensures ParseFilter(map["type" := t, "since" := FormatInt(since as int),
                             "until" := FormatInt(until as int), "limit" := FormatInt(limit as int)])
            == Success(EventFilter(if t == "" then None else Some(t), Some(since), Some(until), limit as int))
  {
    ParseFormatRoundTrip(since as int);
    ParseFormatRoundTrip(until as int);
    ParseFormatRoundTrip(limit as int);
  }

  /** A query without parameters reads everything, newest first, 100 at most. */
  lemma NoParamsIsDefaultFilter()
    ensures ParseFilter(map[]) == Success(EventFilter(None, None, None, DefaultLimit))
  {
  }
}
