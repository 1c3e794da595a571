/**
 * api/learned.js: PUT marks one sentence as learned now and answers with the
 * time stored; any other method is refused with 405, and a failing statement
 * is answered with 500.
 */
module LearnedApi {
  import opened Wrappers
  import opened Db

  const ALLOWED: seq<string> := ["PUT"]

  /** The method and the body's `id`. */
  datatype Request = Request(verb: string, id: Option<int>)

  /** The table after `UPDATE sentences SET learned_at = NOW() WHERE id = ${id}`. */
  function LearnedSet(rows: map<int, Row>, id: Option<int>, now: Timestamp): (r: map<int, Row>)
    ensures r.Keys == rows.Keys
    ensures forall k | k in rows :: r[k] == rows[k].(learnedAt := r[k].learnedAt)
    ensures forall k | k in rows :: r[k].learnedAt == if id == Some(k) then Some(now) else rows[k].learnedAt
  {
    if Hits(rows, id) then rows[id.value := rows[id.value].(learnedAt := Some(now))] else rows
  }

  /** Marking again moves learned_at to the later call's time; it never returns to NULL. */
  lemma LearnedSetLastWins(rows: map<int, Row>, id: Option<int>, t1: Timestamp, t2: Timestamp)
    ensures LearnedSet(LearnedSet(rows, id, t1), id, t2) == LearnedSet(rows, id, t2)
    ensures Stable(rows, LearnedSet(rows, id, t1))
  {
  }

  /** The handler; `now` is the database's `NOW()`. */
  method Handle(db: Table, req: Request, now: Timestamp, fault: Option<string>) returns (res: Response)
    requires db.Valid()
    modifies db
    ensures db.Valid() && db.nextId == old(db.nextId) && Stable(old(db.rows), db.rows)
    ensures req.verb != "PUT" ==> db.rows == old(db.rows) && res == NotAllowed(req.verb, ALLOWED)
    ensures req.verb == "PUT" && fault.Some? ==> db.rows == old(db.rows) && res == Failed(fault.value)
    ensures req.verb == "PUT" && fault.None? ==>
      && db.rows == LearnedSet(old(db.rows), req.id, now)
      && res == Response(200, [], LearnedOf(if Hits(old(db.rows), req.id) then Some(now) else None))
  {
    if req.verb != "PUT" {
      res := NotAllowed(req.verb, ALLOWED);
    } else if fault.Some? {
      res := Failed(fault.value);
    } else {
      db.rows := LearnedSet(db.rows, req.id, now);
      // RETURNING learned_at AS "learnedAt": rows[0] is undefined when nothing matched
      res := Response(200, [], LearnedOf(if Hits(db.rows, req.id) then db.rows[req.id.value].learnedAt else None));
    }
  }
}
