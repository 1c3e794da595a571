/**
 * api/notes.js: PUT stores a free-text note on one sentence and answers with
 * the stored note; a falsy id is refused with 400, an id that matches no row
 * with 404, any other method with 405, and a failing statement with 500.
 */
module NotesApi {
  import opened Wrappers
  import opened Db

  const ALLOWED: seq<string> := ["PUT"]

  /** The method and the body's `id` and `note` (None: absent, null or undefined). */
  datatype Request = Request(verb: string, id: Option<int>, note: Option<string>)

  /** JavaScript's `!id` for an integer id: missing, null, undefined or 0. */
  predicate Falsy(id: Option<int>) {
    id.None? || id.value == 0
  }

  /** The table after `UPDATE sentences SET note = ${note ?? ''} WHERE id = ${id}`. */
  function NoteSet(rows: map<int, Row>, id: int, note: Option<string>): (r: map<int, Row>)
    ensures r.Keys == rows.Keys
    ensures id in rows ==> r[id].note == Some(note.GetOr(""))
    ensures forall k | k in rows :: r[k] == rows[k].(note := r[k].note)
    ensures forall k | k in rows && k != id :: r[k] == rows[k]
  {
    if id in rows then rows[id := rows[id].(note := Some(note.GetOr("")))] else rows
  }

  /** Writing a note twice leaves what the second write left. */
  lemma NoteSetLastWins(rows: map<int, Row>, id: int, first: Option<string>, second: Option<string>)
    ensures NoteSet(NoteSet(rows, id, first), id, second) == NoteSet(rows, id, second)
  {
  }

  /** A missing note is stored as the empty string, never as NULL. */
  lemma NoteSetNeverNull(rows: map<int, Row>, id: int, note: Option<string>)
    requires id in rows
    ensures NoteSet(rows, id, note)[id].note.Some?
    ensures note.None? ==> NoteSet(rows, id, note)[id].note == Some("")
  {
  }

  /** The handler. */
  method Handle(db: Table, req: Request, fault: Option<string>) returns (res: Response)
    requires db.Valid()
    modifies db
    ensures db.Valid() && db.nextId == old(db.nextId) && Stable(old(db.rows), db.rows)
    ensures req.verb != "PUT" ==> db.rows == old(db.rows) && res == NotAllowed(req.verb, ALLOWED)
    ensures req.verb == "PUT" && Falsy(req.id) ==>
      db.rows == old(db.rows) && res == Response(400, [], Error("Missing id"))
    ensures req.verb == "PUT" && !Falsy(req.id) && fault.Some? ==>
      db.rows == old(db.rows) && res == Failed(fault.value)
    ensures req.verb == "PUT" && !Falsy(req.id) && fault.None? && req.id.value !in old(db.rows) ==>
      db.rows == old(db.rows) && res == Response(404, [], Error("Sentence not found"))
    ensures req.verb == "PUT" && !Falsy(req.id) && fault.None? && req.id.value in old(db.rows) ==>
      && db.rows == NoteSet(old(db.rows), req.id.value, req.note)
      && res == Response(200, [], NoteOf(req.id.value, req.note.GetOr("")))
  {
    if req.verb != "PUT" {
      res := NotAllowed(req.verb, ALLOWED);
    } else if Falsy(req.id) {
      res := Response(400, [], Error("Missing id"));
    } else if fault.Some? {
      res := Failed(fault.value);
    } else {
      var id := req.id.value;
      db.rows := NoteSet(db.rows, id, req.note);
      if id !in db.rows {
        res := Response(404, [], Error("Sentence not found"));
      } else {
        // RETURNING id, COALESCE(note, '') AS note
        res := Response(200, [], NoteOf(id, db.rows[id].note.GetOr("")));
      }
    }
  }
}
