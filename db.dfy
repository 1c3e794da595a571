/**
 * The `sentences` table that the API handlers under api/ read and write, and
 * the shape of the answers they send. The postgres connection and the
 * `ALTER TABLE ... ADD COLUMN IF NOT EXISTS` migrations are not modelled; what
 * they leave behind is the column defaults of a new row: created_at is the
 * current time, learned_at is NULL, starred is false, and note (added without
 * a default) is NULL.
 */
module Db {
  import opened Wrappers

  /** A point in time, as SQL `NOW()` / `CURRENT_TIMESTAMP` give it. */
  type Timestamp = int

  /** The four text columns: display forms and the raw forms they were rendered from. */
  datatype Fields = Fields(text: string, translation: string, rawText: string, rawTranslation: string)

  /** One row of the table, without its id (the map key). */
  datatype Row = Row(
    fields: Fields,
    createdAt: Timestamp,
    learnedAt: Option<Timestamp>,
    starred: bool,
    note: Option<string>)

  /** A row as `SELECT` / `RETURNING` list it: every column except note. */
  datatype RowView = RowView(
    id: int,
    fields: Fields,
    createdAt: Timestamp,
    learnedAt: Option<Timestamp>,
    starred: bool)

  function View(id: int, row: Row): RowView {
    RowView(id, row.fields, row.createdAt, row.learnedAt, row.starred)
  }

  /** `WHERE id = ${id}`: a null or undefined id matches no row. */
  predicate Hits(rows: map<int, Row>, id: Option<int>) {
    id.Some? && id.value in rows
  }

  /** What `res.json(...)` / `res.end(...)` send. */
  datatype Body =
    | Empty                                      // res.end() with nothing
    | Message(text: string)                      // res.end(text)
    | Error(error: string)                       // json({ error })
    | Rows(rows: seq<RowView>)                   // json(rows)
    | FirstRow(row: Option<RowView>)             // json(rows[0]); None when nothing matched
    | NoteOf(id: int, note: string)              // json({ id, note })
    | StarredOf(starred: Option<bool>)           // json(rows[0]) of RETURNING starred
    | LearnedOf(learnedAt: Option<Timestamp>)    // json(rows[0]) of RETURNING learned_at

  /** Status code, the Allow header (empty when not set) and the body. */
  datatype Response = Response(status: int, allow: seq<string>, body: Body)

  /** The answer to a method the handler does not serve. */
  function NotAllowed(verb: string, allow: seq<string>): Response {
    Response(405, allow, Message("Method " + verb + " Not Allowed"))
  }

  /** The `catch (err)` answer when a statement fails. */
  function Failed(message: string): Response {
    Response(500, [], Error(message))
  }

  /**
   * Facts every handler keeps about the rows it does not delete: created_at
   * is never written again, and learned_at never goes back to NULL.
   */
  ghost predicate Stable(before: map<int, Row>, after: map<int, Row>) {
    forall k | k in before && k in after ::
      && after[k].createdAt == before[k].createdAt
      && (before[k].learnedAt.Some? ==> after[k].learnedAt.Some?)
  }

  /**
   * The table: its rows by id, and the next value of the id sequence
   * (a serial column hands out increasing ids and never reuses one).
   */
  class Table {
    var rows: map<int, Row>
    var nextId: int

    ghost predicate Valid()
      reads this
    {
      forall k | k in rows :: k < nextId
    }

    constructor ()
      ensures Valid() && rows == map[] && nextId == 1
    {
      rows := map[];
      nextId := 1;
    }
  }
}
