/**
 * api/starred.js: PUT sets the starred flag of one sentence and answers with
 * the flag as stored; any other method is refused with 405, and a failing
 * statement is answered with 500.
 */
module StarredApi {
  import opened Wrappers
  import opened Db

  const ALLOWED: seq<string> := ["PUT"]

  /** The method and the body's `id` and `starred`. */
  datatype Request = Request(verb: string, id: Option<int>, starred: bool)

  /** The table after `UPDATE sentences SET starred = ${starred} WHERE id = ${id}`. */
  function StarSet(rows: map<int, Row>, id: Option<int>, starred: bool): (r: map<int, Row>)
    ensures r.Keys == rows.Keys
    ensures forall k | k in rows :: r[k] == rows[k].(starred := r[k].starred)
    ensures forall k | k in rows :: r[k].starred == if id == Some(k) then starred else rows[k].starred
  {
    if Hits(rows, id) then rows[id.value := rows[id.value].(starred := starred)] else rows
  }

  /** Starring is idempotent, and the last of two writes decides the flag. */
  lemma StarSetLastWins(rows: map<int, Row>, id: Option<int>, first: bool, second: bool)
    ensures StarSet(StarSet(rows, id, first), id, second) == StarSet(rows, id, second)
    ensures StarSet(StarSet(rows, id, first), id, first) == StarSet(rows, id, first)
  {
  }

  /** Setting the flag to what it already is changes nothing. */
  lemma StarSetUnchanged(rows: map<int, Row>, id: int)
    requires id in rows
    ensures StarSet(rows, Some(id), rows[id].starred) == rows
  {
  }

  /** The handler. */
  method Handle(db: Table, req: Request, fault: Option<string>) returns (res: Response)
    requires db.Valid()
    modifies db
    ensures db.Valid() && db.nextId == old(db.nextId) && Stable(old(db.rows), db.rows)
    ensures req.verb != "PUT" ==> db.rows == old(db.rows) && res == NotAllowed(req.verb, ALLOWED)
    ensures req.verb == "PUT" && fault.Some? ==> db.rows == old(db.rows) && res == Failed(fault.value)
    ensures req.verb == "PUT" && fault.None? ==>
      && db.rows == StarSet(old(db.rows), req.id, req.starred)
      && res == Response(200, [], StarredOf(if Hits(old(db.rows), req.id) then Some(req.starred) else None))
  {
    if req.verb != "PUT" {
      res := NotAllowed(req.verb, ALLOWED);
    } else if fault.Some? {
      res := Failed(fault.value);
    } else {
      db.rows := StarSet(db.rows, req.id, req.starred);
      // RETURNING starred: rows[0] is undefined when nothing matched
      res := Response(200, [], StarredOf(if Hits(db.rows, req.id) then Some(db.rows[req.id.value].starred) else None));
    }
  }
}
