/**
 * The `students` table and the four handlers of the student API.
 *
 * The table is a map from the `INTEGER PRIMARY KEY` id to the row's other
 * five columns.  Each handler is specified by a function from the table
 * before the request to the reply and the table after it (`AddOutcome`,
 * `UpdateOutcome`, `DeleteOutcome`, `Listing`); the lemmas below state what
 * the API promises about those functions, and the class `StudentTable`
 * carries out the same requests step by step on a table it updates in place.
 */
module Students {

  import opened Wrappers
  import opened Models

  /** One row of `students`; the phone is stored in the column `number`. */
  datatype Row = Row(firstName: string, lastName: string, number: string, birthdate: Date, email: string)

  type Table = map<int, Row>

  /** A handler's reply: `{"success": true, "message": ...}` or an HTTP error with its detail. */
  datatype Reply = Success(message: string) | HttpError(status: nat, detail: string)

  /** The reply to one request together with the table it leaves behind. */
  datatype Outcome = Outcome(reply: Reply, table: Table)

  const PhoneExists := "Phone number already exists"
  const EmailExists := "Email already exists"
  const NotFound := "Student not found"
  const Registered := "Student registered successfully!"
  const Updated := "Student updated successfully!"
  const Deleted := "Student deleted"

  /** The framework's answer to an exception that is not an `HTTPException`. */
  const InternalServerError := "Internal Server Error"

  /** The columns written by `INSERT` and `UPDATE`. */
  function RowOf(s: StudentBase): Row
  {
    Row(s.firstName, s.lastName, s.phone, s.birthdate, s.email)
  }

  /** One row as `SELECT id, ..., number AS phone, ...` returns it. */
  function Exposed(id: int, r: Row): StudentOut
  {
    StudentOut(id, r.firstName, r.lastName, r.number, r.birthdate, r.email)
  }

  /** `SELECT id FROM students WHERE number=?` finds a row. */
  predicate PhoneInUse(t: Table, phone: string)
  {
    exists id :: id in t && t[id].number == phone
  }

  /** `SELECT id FROM students WHERE number=? AND id!=?` finds a row. */
  predicate PhoneInUseByOther(t: Table, phone: string, self: int)
  {
    exists id :: id in t && id != self && t[id].number == phone
  }

  /** Inserting a row with this email would violate `email UNIQUE`. */
  predicate EmailInUse(t: Table, email: string)
  {
    exists id :: id in t && t[id].email == email
  }

  /** Setting row `self`'s email to this one would violate `email UNIQUE`. */
  predicate EmailInUseByOther(t: Table, email: string, self: int)
  {
    exists id :: id in t && id != self && t[id].email == email
  }

  ghost predicate PhoneUnique(t: Table)
  {
    forall i, j :: i in t && j in t && i != j ==> t[i].number != t[j].number
  }

  ghost predicate EmailUnique(t: Table)
  {
    forall i, j :: i in t && j in t && i != j ==> t[i].email != t[j].email
  }

  /** No two rows share a phone, and no two rows share an email. */
  ghost predicate Consistent(t: Table)
  {
    PhoneUnique(t) && EmailUnique(t)
  }

  /** A non-empty set has an element to pick. */
  lemma NonEmptyHasElement(s: set<int>)
    ensures s != {} ==> exists x :: x in s
  {
    if forall x :: x !in s {
      assert s == {};
    }
  }

  /** The largest id of a non-empty set of ids. */
  ghost function MaxId(ids: set<int>): (m: int)
    requires ids != {}
    ensures m in ids && forall k :: k in ids ==> k <= m
    decreases ids
  {
    NonEmptyHasElement(ids);
    var x :| x in ids;
    if ids - {x} == {} then
      assert forall k :: k in ids ==> k == x || k in ids - {x};
      x
    else
      var rest := MaxId(ids - {x});
      assert forall k :: k in ids ==> k == x || k in ids - {x};
      if x < rest then rest else x
  }

  /**
   * The id SQLite gives a row inserted without one into a table whose key is
   * `INTEGER PRIMARY KEY`: one more than the largest id in use, or 1 in an
   * empty table.
   */
  ghost function NextRowId(ids: set<int>): (r: int)
    ensures r !in ids && forall k :: k in ids ==> k < r
    ensures ids == {} ==> r == 1
    ensures ids != {} ==> r - 1 in ids
  {
    if ids == {} then 1 else MaxId(ids) + 1
  }

  /**
   * `add_student` as written: the phone pre-check, then the insert that the
   * email constraint may refuse.  On that refusal the `except` clause closes
   * the connection and raises the 400, but the `finally` clause then closes
   * the cursor of the closed connection, which raises a `ProgrammingError`
   * in place of the 400: the client gets a 500.  The insert did not happen.
   */
  ghost function AddOutcome(t: Table, s: StudentCreate): Outcome
  {
    if PhoneInUse(t, s.phone) then Outcome(HttpError(400, PhoneExists), t)
    else if EmailInUse(t, s.email) then Outcome(HttpError(500, InternalServerError), t)
    else Outcome(Success(Registered), t[NextRowId(t.Keys) := RowOf(s)])
  }

  /** `add_student` as intended: a stored email is answered with 400 "Email already exists". */
  ghost function AddOutcomeIntended(t: Table, s: StudentCreate): Outcome
  {
    if PhoneInUse(t, s.phone) then Outcome(HttpError(400, PhoneExists), t)
    else if EmailInUse(t, s.email) then Outcome(HttpError(400, EmailExists), t)
    else Outcome(Success(Registered), t[NextRowId(t.Keys) := RowOf(s)])
  }

  /**
   * `update_student`: the phone check against the other rows, then the update,
   * which matches no row for an unknown id and which the email constraint may refuse.
   */
  function UpdateOutcome(t: Table, id: int, s: StudentUpdate): Outcome
  {
    if PhoneInUseByOther(t, s.phone, id) then Outcome(HttpError(400, PhoneExists), t)
    else if id !in t then Outcome(HttpError(404, NotFound), t)
    else if EmailInUseByOther(t, s.email, id) then Outcome(HttpError(400, EmailExists), t)
    else Outcome(Success(Updated), t[id := RowOf(s)])
  }

  /** `delete_student`: remove the row with that id; 404 when no row was removed. */
  function DeleteOutcome(t: Table, id: int): Outcome
  {
    if id in t then Outcome(Success(Deleted), t - {id}) else Outcome(HttpError(404, NotFound), t)
  }

  /** `get_students`: every row as a `StudentOut`, in no particular order. */
  function Listing(t: Table): set<StudentOut>
  {
    set id | id in t :: Exposed(id, t[id])
  }

  // ----- add_student -----

  /** A phone already stored in any row is refused, whatever the email, and nothing changes. */
  lemma AddRejectsStoredPhone(t: Table, s: StudentCreate, other: int)
    requires other in t && t[other].number == s.phone
    ensures AddOutcome(t, s) == Outcome(HttpError(400, PhoneExists), t)
  {
  }

  /** As intended, a new phone with an email already stored is refused with 400, and nothing changes. */
  lemma AddRejectsStoredEmail(t: Table, s: StudentCreate, other: int)
    requires !PhoneInUse(t, s.phone)
    requires other in t && t[other].email == s.email
    ensures AddOutcomeIntended(t, s) == Outcome(HttpError(400, EmailExists), t)
  {
  }

  /** As written, the same request is answered with 500, though nothing changes either. */
  lemma AddStoredEmailAsWritten(t: Table, s: StudentCreate, other: int)
    requires !PhoneInUse(t, s.phone)
    requires other in t && t[other].email == s.email
    ensures AddOutcome(t, s) == Outcome(HttpError(500, InternalServerError), t)
  {
  }

  /**
   * The code as written and as intended leave the same table after every
   * add, and give the same reply except for a new phone with a stored email,
   * so every lemma here about the table after an add holds of both.
   */
  lemma AddIntendedAgrees(t: Table, s: StudentCreate)
    ensures AddOutcomeIntended(t, s).table == AddOutcome(t, s).table
    ensures AddOutcomeIntended(t, s).reply != AddOutcome(t, s).reply <==>
      !PhoneInUse(t, s.phone) && EmailInUse(t, s.email)
  {
  }

  /** A concrete request on which the two differ: a second student with a new phone and Ann's email. */
  lemma AddEmailClashExample()
    ensures var ann := Row("Ann", "Lee", "9123456780", Date(2000, 1, 1), "ann@example.com");
      var bob := StudentBase("Bob", "Lee", "9123456781", Date(2001, 2, 3), "ann@example.com");
      && AddOutcome(map[1 := ann], bob).reply == HttpError(500, InternalServerError)
      && AddOutcomeIntended(map[1 := ann], bob).reply == HttpError(400, EmailExists)
  {
    var ann := Row("Ann", "Lee", "9123456780", Date(2000, 1, 1), "ann@example.com");
    var bob := StudentBase("Bob", "Lee", "9123456781", Date(2001, 2, 3), "ann@example.com");
    assert EmailInUse(map[1 := ann], bob.email) by {
      assert map[1 := ann][1].email == bob.email;
    }
  }

  /** Add succeeds exactly when neither the phone nor the email is stored; a failure changes nothing. */
  lemma AddSucceedsIff(t: Table, s: StudentCreate)
    ensures AddOutcome(t, s).reply.Success? <==> !PhoneInUse(t, s.phone) && !EmailInUse(t, s.email)
    ensures AddOutcome(t, s).reply.HttpError? ==> AddOutcome(t, s).table == t
  {
  }

  /**
   * A successful add stores exactly one new row, under an id not in use,
   * holding the submitted fields, and leaves every existing row as it was.
   */
  lemma AddInsertsOneRow(t: Table, s: StudentCreate)
    requires AddOutcome(t, s).reply.Success?
    ensures var t', id := AddOutcome(t, s).table, NextRowId(t.Keys);
      && id !in t
      && t'.Keys == t.Keys + {id}
      && |t'| == |t| + 1
      && t'[id] == RowOf(s)
      && forall k :: k in t ==> t'[k] == t[k]
  {
  }

  /** Add keeps phones unique and emails unique. */
  lemma AddPreservesConsistency(t: Table, s: StudentCreate)
    requires Consistent(t)
    ensures Consistent(AddOutcome(t, s).table)
  {
  }

  /**
   * After a successful add the listing is the old listing plus one record
   * with the new id and the submitted fields, and it is the only record
   * carrying those fields.
   */
  lemma AddThenList(t: Table, s: StudentCreate)
    requires AddOutcome(t, s).reply.Success?
    ensures var id := NextRowId(t.Keys);
      && Listing(AddOutcome(t, s).table) == Listing(t) + {WithId(id, s)}
      && WithId(id, s) !in Listing(t)
      && forall o :: o in Listing(AddOutcome(t, s).table) && Base(o) == s ==> o.id == id
  {
    var t', id := AddOutcome(t, s).table, NextRowId(t.Keys);
    assert Exposed(id, t'[id]) == WithId(id, s);
    forall o | o in Listing(t')
      ensures o in Listing(t) + {WithId(id, s)}
      ensures Base(o) == s ==> o.id == id
    {
      var k :| k in t' && o == Exposed(k, t'[k]);
      if k != id {
        assert k in t && t'[k] == t[k];
        assert o in Listing(t);
      }
    }
    forall o | o in Listing(t) ensures o in Listing(t') {
      var k :| k in t && o == Exposed(k, t[k]);
      assert k in t' && t'[k] == t[k];
    }
  }

  /** Deleting the row an add just inserted gives back the table as it was. */
  lemma AddThenDeleteRestores(t: Table, s: StudentCreate)
    requires AddOutcome(t, s).reply.Success?
    ensures DeleteOutcome(AddOutcome(t, s).table, NextRowId(t.Keys)) == Outcome(Success(Deleted), t)
  {
  }

  // ----- update_student -----

  /** A phone held by a row with another id is refused, whether or not `id` exists. */
  lemma UpdateRejectsPhoneOfOther(t: Table, id: int, s: StudentUpdate, other: int)
    requires other in t && other != id && t[other].number == s.phone
    ensures UpdateOutcome(t, id, s) == Outcome(HttpError(400, PhoneExists), t)
  {
  }

  /** An unknown id gives 404 and changes nothing, unless the phone is stored, which gives 400 first. */
  lemma UpdateUnknownId(t: Table, id: int, s: StudentUpdate)
    requires id !in t
    ensures UpdateOutcome(t, id, s) ==
      if PhoneInUse(t, s.phone) then Outcome(HttpError(400, PhoneExists), t)
      else Outcome(HttpError(404, NotFound), t)
  {
  }

  /** Keeping the student's own phone is allowed while phones are unique. */
  lemma UpdateKeepsOwnPhone(t: Table, id: int, s: StudentUpdate)
    requires PhoneUnique(t)
    requires id in t && t[id].number == s.phone
    requires !EmailInUseByOther(t, s.email, id)
    ensures UpdateOutcome(t, id, s) == Outcome(Success(Updated), t[id := RowOf(s)])
  {
  }

  /** An email held by a row with another id is refused once the phone and the id pass. */
  lemma UpdateRejectsEmailOfOther(t: Table, id: int, s: StudentUpdate, other: int)
    requires !PhoneInUseByOther(t, s.phone, id) && id in t
    requires other in t && other != id && t[other].email == s.email
    ensures UpdateOutcome(t, id, s) == Outcome(HttpError(400, EmailExists), t)
  {
  }

  /**
   * Update succeeds exactly when no other row holds the phone, the id exists
   * and no other row holds the email; a failure changes nothing, and a
   * success replaces all five fields of that row and no other row.
   */
  lemma UpdateSucceedsIff(t: Table, id: int, s: StudentUpdate)
    ensures var o := UpdateOutcome(t, id, s);
      && (o.reply.Success? <==>
            !PhoneInUseByOther(t, s.phone, id) && id in t && !EmailInUseByOther(t, s.email, id))
      && (o.reply.HttpError? ==> o.table == t)
      && (o.reply.Success? ==>
            o.table.Keys == t.Keys && o.table[id] == RowOf(s) &&
            forall k :: k in t && k != id ==> o.table[k] == t[k])
  {
  }

  /** Update keeps phones unique and emails unique. */
  lemma UpdatePreservesConsistency(t: Table, id: int, s: StudentUpdate)
    requires Consistent(t)
    ensures Consistent(UpdateOutcome(t, id, s).table)
  {
  }

  /** After a successful update the listing shows the new fields in place of the old ones. */
  lemma UpdateThenList(t: Table, id: int, s: StudentUpdate)
    requires UpdateOutcome(t, id, s).reply.Success?
    ensures Listing(UpdateOutcome(t, id, s).table) == Listing(t) - {Exposed(id, t[id])} + {WithId(id, s)}
  {
    var t' := UpdateOutcome(t, id, s).table;
    assert Exposed(id, t'[id]) == WithId(id, s);
    forall o | o in Listing(t')
      ensures o in Listing(t) - {Exposed(id, t[id])} + {WithId(id, s)}
    {
      var k :| k in t' && o == Exposed(k, t'[k]);
      if k != id {
        assert t'[k] == t[k];
        assert o in Listing(t);
      }
    }
    forall o | o in Listing(t) - {Exposed(id, t[id])} ensures o in Listing(t') {
      var k :| k in t && o == Exposed(k, t[k]);
      assert k != id;
      assert k in t' && t'[k] == t[k];
    }
  }

  /** Repeating a successful update succeeds again and leaves the table as the first one did. */
  lemma UpdateIdempotent(t: Table, id: int, s: StudentUpdate)
    requires UpdateOutcome(t, id, s).reply.Success?
    ensures var t' := UpdateOutcome(t, id, s).table;
      UpdateOutcome(t', id, s) == Outcome(Success(Updated), t')
  {
  }

  // ----- delete_student -----

  /** Delete removes exactly the row with that id; an unknown id gives 404 and changes nothing. */
  lemma DeleteRemovesExactly(t: Table, id: int)
    ensures var o := DeleteOutcome(t, id);
      && (id in t ==> o.reply == Success(Deleted) && o.table.Keys == t.Keys - {id} &&
                      forall k :: k in o.table ==> o.table[k] == t[k])
      && (id !in t ==> o == Outcome(HttpError(404, NotFound), t))
  {
  }

  /** Delete keeps phones unique and emails unique. */
  lemma DeletePreservesConsistency(t: Table, id: int)
    requires Consistent(t)
    ensures Consistent(DeleteOutcome(t, id).table)
  {
  }

  /** After a successful delete the listing has lost that record and nothing else. */
  lemma DeleteThenList(t: Table, id: int)
    requires id in t
    ensures Listing(DeleteOutcome(t, id).table) == Listing(t) - {Exposed(id, t[id])}
  {
    var t' := DeleteOutcome(t, id).table;
    forall o | o in Listing(t') ensures o in Listing(t) - {Exposed(id, t[id])} {
      var k :| k in t' && o == Exposed(k, t'[k]);
      assert k in t && t'[k] == t[k];
    }
    forall o | o in Listing(t) - {Exposed(id, t[id])} ensures o in Listing(t') {
      var k :| k in t && o == Exposed(k, t[k]);
      assert k != id;
      assert k in t';
    }
  }

  // ----- get_students -----

  /** The listing holds one record per row, each with that row's id and columns. */
  lemma ListingIsRows(t: Table)
    ensures forall id :: id in t ==> Exposed(id, t[id]) in Listing(t)
    ensures forall o :: o in Listing(t) ==> o.id in t && o == Exposed(o.id, t[o.id])
  {
  }

  /**
   * The table as the application keeps it.  It starts empty, as
   * `CREATE TABLE IF NOT EXISTS` leaves a new database, and every request
   * keeps phones and emails unique.
   */
  class StudentTable {

    var rows: Table

    ghost predicate Valid()
      reads this
    {
      Consistent(rows)
    }

    constructor ()
      ensures Valid() && rows == map[]
    {
      rows := map[];
    }

    /** The id SQLite assigns to the next inserted row. */
    method FreshRowId() returns (id: int)
      ensures id == NextRowId(rows.Keys)
    {
      var todo := rows.Keys;
      ghost var seen: set<int> := {};
      var any := false;
      var max := 0;
      while todo != {}
        invariant seen + todo == rows.Keys && seen !! todo
        invariant any <==> seen != {}
        invariant any ==> max in seen && forall k :: k in seen ==> k <= max
        decreases |todo|
      {
        NonEmptyHasElement(todo);
        var k :| k in todo;
        if !any || max < k {
          max := k;
        }
        any := true;
        seen := seen + {k};
        todo := todo - {k};
      }
      if any {
        assert MaxId(rows.Keys) == max;
        id := max + 1;
      } else {
        id := 1;
      }
    }

    /** `add_student` */
    method AddStudent(s: StudentCreate) returns (reply: Reply)
      requires Valid()
      modifies this
      ensures Valid()
      ensures Outcome(reply, rows) == AddOutcome(old(rows), s)
    {
      // SELECT id FROM students WHERE number=?
      if PhoneInUse(rows, s.phone) {
        return HttpError(400, PhoneExists);
      }
      // INSERT INTO students ...: the UNIQUE constraint on email raises an integrity error
      var connectionOpen := true;
      if EmailInUse(rows, s.email) {
        // except sqlite3.IntegrityError: conn.close(), then raise the 400
        connectionOpen := false;
        reply := HttpError(400, EmailExists);
      } else {
        var id := FreshRowId();
        rows := rows[id := RowOf(s)];
        reply := Success(Registered);
      }
      // finally: cursor.close() raises on a closed connection, replacing the exception in flight
      if !connectionOpen {
        reply := HttpError(500, InternalServerError);
      }
    }

    /** `get_students`: every row once, its `number` column shown as `phone`. */
    method GetStudents() returns (students: seq<StudentOut>)
      ensures |students| == |rows|
      ensures forall i :: 0 <= i < |students| ==>
        students[i].id in rows && students[i] == Exposed(students[i].id, rows[students[i].id])
      ensures forall id :: id in rows ==> exists i :: 0 <= i < |students| && students[i].id == id
      ensures forall i, j :: 0 <= i < j < |students| ==> students[i].id != students[j].id
      ensures (set o | o in students) == Listing(rows)
    {
      var todo := rows.Keys;
      students := [];
      while todo != {}
        invariant todo <= rows.Keys
        invariant |students| == |rows.Keys| - |todo|
        invariant forall i :: 0 <= i < |students| ==>
          students[i].id in rows && students[i].id !in todo &&
          students[i] == Exposed(students[i].id, rows[students[i].id])
        invariant forall id :: id in rows && id !in todo ==>
          exists i :: 0 <= i < |students| && students[i].id == id
        invariant forall i, j :: 0 <= i < j < |students| ==> students[i].id != students[j].id
        decreases |todo|
      {
        NonEmptyHasElement(todo);
        var id :| id in todo;
        ghost var before := students;
        students := students + [Exposed(id, rows[id])];
        todo := todo - {id};
        forall other | other in rows && other !in todo
          ensures exists i :: 0 <= i < |students| && students[i].id == other
        {
          if other == id {
            assert students[|before|].id == other;
          } else {
            var i :| 0 <= i < |before| && before[i].id == other;
            assert students[i].id == other;
          }
        }
      }
      forall o | o in Listing(rows) ensures o in students {
        var id :| id in rows && o == Exposed(id, rows[id]);
        var i :| 0 <= i < |students| && students[i].id == id;
      }
    }

    /** `update_student` */
    method UpdateStudent(id: int, s: StudentUpdate) returns (reply: Reply)
      requires Valid()
      modifies this
      ensures Valid()
      ensures Outcome(reply, rows) == UpdateOutcome(old(rows), id, s)
      ensures id in old(rows) && old(rows)[id].number == s.phone && !EmailInUseByOther(old(rows), s.email, id) ==>
        reply == Success(Updated)
    {
      if id in rows && rows[id].number == s.phone && !EmailInUseByOther(rows, s.email, id) {
        UpdateKeepsOwnPhone(rows, id, s);
      }
      // SELECT id FROM students WHERE number=? AND id!=?
      if PhoneInUseByOther(rows, s.phone, id) {
        return HttpError(400, PhoneExists);
      }
      // UPDATE students SET ... WHERE id=?
      var rowcount := 0;
      if id in rows {
        if EmailInUseByOther(rows, s.email, id) {
          return HttpError(400, EmailExists);
        }
        rows := rows[id := RowOf(s)];
        rowcount := 1;
      }
      if rowcount == 0 {
        return HttpError(404, NotFound);
      }
      reply := Success(Updated);
    }

    /** `delete_student` */
    method DeleteStudent(id: int) returns (reply: Reply)
      requires Valid()
      modifies this
      ensures Valid()
      ensures Outcome(reply, rows) == DeleteOutcome(old(rows), id)
    {
      // DELETE FROM students WHERE id=?
      var deleted := if id in rows then 1 else 0;
      rows := rows - {id};
      if deleted == 0 {
        return HttpError(404, NotFound);
      }
      reply := Success(Deleted);
    }
  }
}
