/** Records handled by the date-interval consolidation, the audit labels and the
    status keys. Dates are day ordinals; an interval is the half-open range [start, end). */
module Rows {

  datatype Option<+T> = None | Some(value: T)

  type EntityId = int

  /** Every column of a row other than the id, start, end, priority, STATUS and remove_flag columns;
      it is carried verbatim through trimming and splitting. */
  type Payload = seq<string>

  /** The five values the STATUS column and the status map take. */
  datatype Label =
    | AddedRetained
    | TrimmedStart
    | TrimmedEnd
    | RemovedFullySubsumed
    | RemovedOverlappedStart

  /** A row as read from the table. */
  datatype Record = Record(id: EntityId, start: int, end: int, payload: Payload)

  /** The default priority key (start, -ordinal(end)), stored in the 'priority' column. */
  function PriorityLatestStart(r: Record): (int, int)
  {
    (r.start, -r.end)
  }

  /** A row of the working list: the record's columns, the 'priority' column computed before
      sorting (copied unchanged into every fragment), STATUS and remove_flag. */
  datatype Row = Row(id: EntityId, start: int, end: int, status: Label, removeFlag: bool,
                     payload: Payload, priority: (int, int))

  /** The columns a row shares with the record it (or the row it was cut from) came from: the
      id, the priority key, which holds the record's original start and end, and the payload.
      Two records with equal tags are identical rows of the table. */
  type Tag = (EntityId, (int, int), Payload)

  /** Status key: (value of the id column, start, end). The id part is None when the
      table is processed without an id column. */
  type Key = (Option<EntityId>, int, int)

  type Statuses = map<Key, Label>

  /** The row a record becomes when it is folded in. */
  function Admit(r: Record): (row: Row)
    ensures row.start == r.start && row.end == r.end && row.id == r.id && row.payload == r.payload
    ensures row.status == AddedRetained && !row.removeFlag
    ensures row.priority == PriorityLatestStart(r)
  {
    Row(r.id, r.start, r.end, AddedRetained, false, r.payload, PriorityLatestStart(r))
  }

  function RowTag(row: Row): Tag { (row.id, row.priority, row.payload) }

  function RecordTag(r: Record): Tag { (r.id, PriorityLatestStart(r), r.payload) }

  /** A record's tag determines the record: its id, start, end and other columns. */
  lemma TagIdentifiesRecord(a: Record, b: Record)
    ensures RecordTag(a) == RecordTag(b) <==> a == b
  {
  }

  function IdPart(byId: bool, id: EntityId): Option<EntityId>
  {
    if byId then Some(id) else None
  }

  /** Status key of a row under its current bounds. */
  function RowKey(byId: bool, row: Row): (k: Key)
    ensures k.1 == row.start && k.2 == row.end
    ensures k.0 == None <==> !byId
  {
    (IdPart(byId, row.id), row.start, row.end)
  }

  function RecordKey(byId: bool, r: Record): Key
  {
    (IdPart(byId, r.id), r.start, r.end)
  }

  /** The half-open range of `row` contains day `p`. */
  predicate Covers(row: Row, p: int)
  {
    row.start <= p < row.end
  }

  predicate InSpan(r: Record, p: int)
  {
    r.start <= p < r.end
  }

  /** Every row is a non-empty interval. */
  predicate WellFormed(s: seq<Row>)
  {
    forall x :: x in s ==> x.start < x.end
  }

  predicate ValidRecords(rows: seq<Record>)
  {
    forall r :: r in rows ==> r.start < r.end
  }
}
