/**
 * api/sentences.js: the collection handler. GET lists every row newest
 * first, POST inserts a row, PUT rewrites the four text columns of one row,
 * DELETE removes a row; any other method is refused with 405, and a failing
 * statement is answered with 500.
 */
module SentencesApi {
  import opened Wrappers
  import opened Db

  const ALLOWED: seq<string> := ["GET", "POST", "PUT", "DELETE"]

  /** What the handler reads: the method, the body's id and text fields, and `req.query.id`. */
  datatype Request = Request(verb: string, id: Option<int>, fields: Fields, queryId: Option<int>)

  predicate Served(verb: string) {
    verb == "GET" || verb == "POST" || verb == "PUT" || verb == "DELETE"
  }

  /** The row INSERT creates: the given text, created now, with the column defaults. */
  function NewRow(f: Fields, now: Timestamp): Row {
    Row(f, now, None, false, None)
  }

  /**
   * l is what `SELECT ... ORDER BY created_at DESC` returns: every row exactly
   * once, without its note, newest first (rows created at the same time in
   * any order).
   */
  ghost predicate IsListing(rows: map<int, Row>, l: seq<RowView>) {
    && (forall i | 0 <= i < |l| :: l[i].id in rows && l[i] == View(l[i].id, rows[l[i].id]))
    && (forall i, j | 0 <= i < j < |l| :: l[i].id != l[j].id)
    && (forall k | k in rows :: exists i :: 0 <= i < |l| && l[i].id == k)
    && (forall i, j | 0 <= i < j < |l| :: l[i].createdAt >= l[j].createdAt)
  }

  /** Some remaining row is at least as new as every other remaining row. */
  lemma {:induction false} NewestExists(rows: map<int, Row>, keys: set<int>)
    requires keys != {} && keys <= rows.Keys
    ensures exists k :: k in keys && forall k' | k' in keys :: rows[k'].createdAt <= rows[k].createdAt
    decreases keys
  {
    if forall x :: x !in keys {
      assert false;
    }
    var k0 :| k0 in keys;
    var rest := keys - {k0};
    if rest != {} {
      NewestExists(rows, rest);
      var k1 :| k1 in rest && forall k' | k' in rest :: rows[k'].createdAt <= rows[k1].createdAt;
      if rows[k0].createdAt <= rows[k1].createdAt {
        assert forall k' | k' in keys :: rows[k'].createdAt <= rows[k1].createdAt;
      } else {
        assert forall k' | k' in keys :: rows[k'].createdAt <= rows[k0].createdAt;
      }
    } else {
      assert keys == {k0};
    }
  }

  /** Every element of l is the view of a row already taken out of left. */
  ghost predicate Taken(rows: map<int, Row>, left: set<int>, l: seq<RowView>) {
    forall i | 0 <= i < |l| :: l[i].id in rows && l[i].id !in left && l[i] == View(l[i].id, rows[l[i].id])
  }

  ghost predicate DistinctIds(l: seq<RowView>) {
    forall i, j | 0 <= i < j < |l| :: l[i].id != l[j].id
  }

  /** Every row taken out of left is listed. */
  ghost predicate Covers(rows: map<int, Row>, left: set<int>, l: seq<RowView>) {
    forall k | k in rows && k !in left :: exists i :: 0 <= i < |l| && l[i].id == k
  }

  ghost predicate NewestFirst(l: seq<RowView>) {
    forall i, j | 0 <= i < j < |l| :: l[i].createdAt >= l[j].createdAt
  }

  /** No row still in left is newer than a listed one. */
  ghost predicate NoneNewer(rows: map<int, Row>, left: set<int>, l: seq<RowView>) {
    forall i, k | 0 <= i < |l| && k in left && k in rows :: l[i].createdAt >= rows[k].createdAt
  }

  /**
   * l lists, newest first, exactly the rows whose ids are not in left, and no
   * row still in left is newer than any row already listed.
   */
  ghost predicate ListedBut(rows: map<int, Row>, left: set<int>, l: seq<RowView>) {
    && left <= rows.Keys
    && Taken(rows, left, l) && DistinctIds(l) && Covers(rows, left, l)
    && NewestFirst(l) && NoneNewer(rows, left, l)
  }

  lemma ListedButAll(rows: map<int, Row>, l: seq<RowView>)
    requires ListedBut(rows, {}, l)
    ensures IsListing(rows, l)
  {
  }

  lemma TakenNewest(rows: map<int, Row>, left: set<int>, l: seq<RowView>, k: int)
    requires Taken(rows, left, l) && k in left && k in rows
    ensures Taken(rows, left - {k}, l + [View(k, rows[k])])
  {
  }

  lemma DistinctNewest(rows: map<int, Row>, left: set<int>, l: seq<RowView>, k: int)
    requires Taken(rows, left, l) && DistinctIds(l) && k in left && k in rows
    ensures DistinctIds(l + [View(k, rows[k])])
  {
  }

  lemma CoversNewest(rows: map<int, Row>, left: set<int>, l: seq<RowView>, k: int)
    requires Covers(rows, left, l) && k in rows
    ensures Covers(rows, left - {k}, l + [View(k, rows[k])])
  {
    var l' := l + [View(k, rows[k])];
    forall k' | k' in rows && k' !in left - {k}
      ensures exists i :: 0 <= i < |l'| && l'[i].id == k'
    {
      if k' == k {
        assert l'[|l|].id == k';
      } else {
        var i :| 0 <= i < |l| && l[i].id == k';
        assert l'[i].id == k';
      }
    }
  }

  lemma OrderNewest(rows: map<int, Row>, left: set<int>, l: seq<RowView>, k: int)
    requires left <= rows.Keys && NewestFirst(l) && NoneNewer(rows, left, l)
    requires k in left && forall k' | k' in left :: rows[k'].createdAt <= rows[k].createdAt
    ensures NewestFirst(l + [View(k, rows[k])])
    ensures NoneNewer(rows, left - {k}, l + [View(k, rows[k])])
  {
  }

  /** Moving the newest remaining row to the end of the listing keeps ListedBut. */
  lemma ListNewest(rows: map<int, Row>, left: set<int>, l: seq<RowView>, k: int)
    requires ListedBut(rows, left, l)
    requires k in left && forall k' | k' in left :: rows[k'].createdAt <= rows[k].createdAt
    ensures ListedBut(rows, left - {k}, l + [View(k, rows[k])])
  {
    TakenNewest(rows, left, l, k);
    DistinctNewest(rows, left, l, k);
    CoversNewest(rows, left, l, k);
    OrderNewest(rows, left, l, k);
  }

  /** GET: the rows, newest first, as the database sorts them. */
  method Select(db: Table) returns (l: seq<RowView>)
    ensures IsListing(db.rows, l)
  {
    var rows := db.rows;
    var left := rows.Keys;
    l := [];
    while left != {}
      invariant ListedBut(rows, left, l)
      decreases left
    {
      NewestExists(rows, left);
      var k :| k in left && forall k' | k' in left :: rows[k'].createdAt <= rows[k].createdAt;
      ListNewest(rows, left, l, k);
      l := l + [View(k, rows[k])];
      left := left - {k};
    }
    ListedButAll(rows, l);
  }

  /** POST: insert a row with the next id of the sequence. */
  method Insert(db: Table, f: Fields, now: Timestamp) returns (v: RowView)
    requires db.Valid()
    modifies db
    ensures db.Valid()
    ensures v.id == old(db.nextId) && v.id !in old(db.rows)
    ensures db.rows == old(db.rows)[v.id := NewRow(f, now)]
    ensures v == View(v.id, NewRow(f, now))
  {
    v := View(db.nextId, NewRow(f, now));
    db.rows := db.rows[db.nextId := NewRow(f, now)];
    db.nextId := db.nextId + 1;
  }

  /** The table after PUT's `UPDATE ... SET text, translation, raw_text, raw_translation WHERE id`. */
  function TextUpdated(rows: map<int, Row>, id: Option<int>, f: Fields): (r: map<int, Row>)
    ensures r.Keys == rows.Keys
    ensures forall k | k in rows :: r[k] == rows[k].(fields := r[k].fields)
    ensures forall k | k in rows :: r[k].fields == if id == Some(k) then f else rows[k].fields
    ensures !Hits(rows, id) ==> r == rows
  {
    if Hits(rows, id) then rows[id.value := rows[id.value].(fields := f)] else rows
  }

  /** PUT: rewrite the text columns of the row with the id, answering with it if there is one. */
  method UpdateText(db: Table, id: Option<int>, f: Fields) returns (v: Option<RowView>)
    requires db.Valid()
    modifies db
    ensures db.Valid() && db.nextId == old(db.nextId)
    ensures db.rows == TextUpdated(old(db.rows), id, f)
    ensures v == if Hits(old(db.rows), id) then Some(View(id.value, db.rows[id.value])) else None
  {
    db.rows := TextUpdated(db.rows, id, f);
    v := if Hits(db.rows, id) then Some(View(id.value, db.rows[id.value])) else None;
  }

  /** The table after `DELETE FROM sentences WHERE id = ${id}`. */
  function Deleted(rows: map<int, Row>, id: Option<int>): (r: map<int, Row>)
    ensures r.Keys == if id.Some? then rows.Keys - {id.value} else rows.Keys
    ensures forall k | k in r :: r[k] == rows[k]
  {
    if id.Some? then rows - {id.value} else rows
  }

  /** DELETE: remove the row with the id; an id that matches nothing changes nothing. */
  method Delete(db: Table, id: Option<int>)
    requires db.Valid()
    modifies db
    ensures db.Valid() && db.nextId == old(db.nextId)
    ensures db.rows == Deleted(old(db.rows), id)
  {
    db.rows := Deleted(db.rows, id);
  }

  /** Deleting twice leaves what deleting once left, and the id is gone either way. */
  lemma DeleteIdempotent(rows: map<int, Row>, id: int)
    ensures Deleted(Deleted(rows, Some(id)), Some(id)) == Deleted(rows, Some(id))
    ensures id !in Deleted(rows, Some(id))
  {
  }

  /** The handler: dispatch on the method; a failing statement leaves the table as it was. */
  method Handle(db: Table, req: Request, now: Timestamp, fault: Option<string>) returns (res: Response)
    requires db.Valid()
    modifies db
    ensures db.Valid() && Stable(old(db.rows), db.rows)
    ensures !Served(req.verb) ==> db.rows == old(db.rows) && res == NotAllowed(req.verb, ALLOWED)
    ensures Served(req.verb) && fault.Some? ==> db.rows == old(db.rows) && res == Failed(fault.value)
    ensures req.verb == "GET" && fault.None? ==>
      && db.rows == old(db.rows)
      && res.status == 200 && res.allow == [] && res.body.Rows? && IsListing(db.rows, res.body.rows)
    ensures req.verb == "POST" && fault.None? ==>
      var id := old(db.nextId);
      && id !in old(db.rows)
      && db.rows == old(db.rows)[id := NewRow(req.fields, now)]
      && res == Response(201, [], FirstRow(Some(View(id, NewRow(req.fields, now)))))
    ensures req.verb == "PUT" && fault.None? ==>
      && db.rows == TextUpdated(old(db.rows), req.id, req.fields)
      && res == Response(200, [], FirstRow(
           if Hits(old(db.rows), req.id) then Some(View(req.id.value, db.rows[req.id.value])) else None))
    ensures req.verb == "DELETE" && fault.None? ==>
      db.rows == Deleted(old(db.rows), req.queryId) && res == Response(204, [], Empty)
  {
    if !Served(req.verb) {
      res := NotAllowed(req.verb, ALLOWED);
    } else if fault.Some? {
      res := Failed(fault.value);
    } else if req.verb == "GET" {
      var l := Select(db);
      res := Response(200, [], Rows(l));
    } else if req.verb == "POST" {
      var v := Insert(db, req.fields, now);
      res := Response(201, [], FirstRow(Some(v)));
    } else if req.verb == "PUT" {
      var v := UpdateText(db, req.id, req.fields);
      res := Response(200, [], FirstRow(v));
    } else {
      Delete(db, req.queryId);
      res := Response(204, [], Empty);
    }
  }
}
