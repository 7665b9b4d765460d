/** The wire and storage types of the service: one captured browsing event and a batch of them. */
module Models {
  import opened Wrappers

  /** Go's `int64`. */
  newtype int64 = x: int | -0x8000_0000_0000_0000 <= x < 0x8000_0000_0000_0000

  /**
   * The schemaless `data` payload of an event. Its structure is opaque to the store;
   * `Json` carries the document the JSON encoder produces for it, `Unencodable` stands
   * for a payload the encoder refuses (which aborts an insert).
   */
  datatype Data = Json(doc: string) | Unencodable

  /**
   * One interaction event. `kind` is the event's `type`: a free string on the wire,
   * checked against the five known types by the store.
   */
  datatype Event = Event(
    tsUtc: int64,
    tsIso: string,
    url: string,
    title: Option<string>,
    kind: string,
    data: Data,
    sessionId: Option<string>,
    fieldId: Option<string>)

  /** The `{ "events": [...] }` envelope of both endpoints. */
  datatype Batch = Batch(events: seq<Event>)
}
