/** The check-then-insert store of backend/data_model/db_interface.py.

    The `User` table is a sequence of (Email, PasswordHash) records held by a
    `Database`; a `Session` stages additions until it commits them.
    Whether the existence query, the `session.add` call or the commit fails
    is an explicit input (`Faults`), because it depends on the database engine. */
module DbInterface {
  import opened Outcomes
  import Errors

  /** A row of the `User` table (its auto-assigned `Id` is not modelled). */
  datatype Record = Record(email: string, passwordHash: Option<string>)

  /** Which storage calls fail during one `save_login`. */
  datatype Faults = Faults(queryFails: bool, addFails: bool, commitFails: bool)

  const NoFaults := Faults(false, false, false)

  /** The `(code, string)` tuple that `_save_login_internal` returns on failure. */
  type ErrorPair = (int, string)

  /** The pair is a registered code together with its catalogue string. */
  predicate Catalogued(p: ErrorPair) {
    p.0 in Errors.Catalog && Errors.Catalog[p.0] == p.1
  }

  /** `query(User).filter_by(Email=email).all()`: the records whose email matches, in order. */
  function WithEmail(rows: seq<Record>, email: string): (m: seq<Record>)
    ensures |m| <= |rows|
    ensures forall r :: r in m ==> r in rows && r.email == email
    ensures forall i :: 0 <= i < |rows| && rows[i].email == email ==> rows[i] in m
  {
    if rows == [] then []
    else (if rows[0].email == email then [rows[0]] else []) + WithEmail(rows[1..], email)
  }

  /** The filter keeps each matching record as many times as the table holds
      it, and no other record. */
  lemma {:induction false} WithEmailCount(rows: seq<Record>, email: string)
    ensures forall r :: multiset(WithEmail(rows, email))[r] ==
                        if r.email == email then multiset(rows)[r] else 0
  {
    if rows != [] {
      WithEmailCount(rows[1..], email);
      assert rows == [rows[0]] + rows[1..];
    }
  }

  /** Some record of `rows` has the given email. */
  predicate HasEmail(rows: seq<Record>, email: string) {
    exists i :: 0 <= i < |rows| && rows[i].email == email
  }

  /** Filtering the table is non-empty exactly when some record has the email. */
  lemma WithEmailNonEmpty(rows: seq<Record>, email: string)
    ensures |WithEmail(rows, email)| > 0 <==> HasEmail(rows, email)
  {
    if |WithEmail(rows, email)| > 0 {
      var r := WithEmail(rows, email)[0];
      assert r in WithEmail(rows, email);
      var i :| 0 <= i < |rows| && rows[i] == r;
    }
  }

  /** Appending one record extends the filtered view by that record when it matches. */
  lemma {:induction false} WithEmailAppend(rows: seq<Record>, r: Record, email: string)
    ensures WithEmail(rows + [r], email) ==
            WithEmail(rows, email) + (if r.email == email then [r] else [])
  {
    var last := if r.email == email then [r] else [];
    if rows == [] {
      assert rows + [r] == [r];
      assert WithEmail([r], email) == last + WithEmail([], email);
    } else {
      var head := if rows[0].email == email then [rows[0]] else [];
      assert (rows + [r])[1..] == rows[1..] + [r];
      calc {
        WithEmail(rows + [r], email);
        head + WithEmail(rows[1..] + [r], email);
        { WithEmailAppend(rows[1..], r, email); }
        head + (WithEmail(rows[1..], email) + last);
        (head + WithEmail(rows[1..], email)) + last;
        WithEmail(rows, email) + last;
      }
    }
  }

  /** The table: a list of records that only a committing session changes. */
  class Database {
    var rows: seq<Record>

    constructor (rows: seq<Record>)
      ensures this.rows == rows
    {
      this.rows := rows;
    }
  }

  /** A SQLAlchemy session bound to one database. Added records stay pending
      until `Commit`; queries see committed and pending records alike
      (the session flushes before it queries). */
  class Session {
    const db: Database
    var pending: seq<Record>

    constructor (db: Database)
      ensures this.db == db && pending == []
    {
      this.db := db;
      pending := [];
    }

    /** What a query in this session sees. */
    function Visible(): seq<Record>
      reads this, db
    {
      db.rows + pending
    }

    /** `session.query(User).filter_by(Email=email).all()`, raising when `fails`. */
    method QueryByEmail(email: string, fails: bool) returns (r: Outcome<seq<Record>>)
      ensures r.Raised? <==> fails
      ensures r.Raised? ==> r.exc == DatabaseError
      ensures r.Returned? ==> r.value == WithEmail(Visible(), email)
    {
      if fails {
        r := Raised(DatabaseError);
      } else {
        r := Returned(WithEmail(db.rows + pending, email));
      }
    }

    /** `session.add(record)`: stages the record, or raises and stages nothing. */
    method Add(record: Record, fails: bool) returns (raised: bool)
      modifies this`pending
      ensures raised == fails
      ensures pending == if fails then old(pending) else old(pending) + [record]
    {
      raised := fails;
      if !fails {
        pending := pending + [record];
      }
    }

    /** `session.commit()`: writes the pending records to the table at once,
        or raises and writes nothing. */
    method Commit(fails: bool) returns (raised: bool)
      modifies this`pending, db`rows
      ensures raised == fails
      ensures fails ==> db.rows == old(db.rows) && pending == old(pending)
      ensures !fails ==> db.rows == old(db.rows) + old(pending) && pending == []
    {
      raised := fails;
      if !fails {
        db.rows := db.rows + pending;
        pending := [];
      }
    }

    /** `session.rollback()`: discards the pending records. */
    method Rollback()
      modifies this`pending
      ensures pending == []
    {
      pending := [];
    }

    /** The exit of `session_scope()`: when the body returned normally the
        session commits; when the body raised, or the commit raises, the
        session rolls back and the exception propagates. Either every pending
        record reaches the table or none does. */
    method ExitScope(bodyRaised: Option<Exception>, commitFails: bool) returns (raised: Option<Exception>)
      modifies this`pending, db`rows
      ensures pending == []
      ensures bodyRaised.Some? ==> raised == bodyRaised
      ensures bodyRaised.None? ==> raised == if commitFails then Some(DatabaseError) else None
      ensures raised.None? ==> db.rows == old(db.rows) + old(pending)
      ensures raised.Some? ==> db.rows == old(db.rows)
    {
      if bodyRaised.Some? {
        Rollback();
        raised := bodyRaised;
      } else {
        var failed := Commit(commitFails);
        if failed {
          Rollback();
          raised := Some(DatabaseError);
        } else {
          raised := None;
        }
      }
    }
  }

  /** `_user_already_exists(email, session)`: `None` when the query fails,
      otherwise whether at least one visible record (possibly several) has the email. */
  method UserAlreadyExists(email: string, session: Session, queryFails: bool) returns (r: Option<bool>)
    ensures r.None? <==> queryFails
    ensures r.Some? ==> (r.value <==> HasEmail(session.Visible(), email))
  {
    var existing := session.QueryByEmail(email, queryFails);
    if existing.Raised? {
      return None;
    }
    WithEmailNonEmpty(session.Visible(), email);
    if |existing.value| > 1 {
      r := Some(true);
    } else if |existing.value| == 1 {
      r := Some(true);
    } else {
      r := Some(false);
    }
  }

  /** What `_save_login_internal` returns and which records it stages, given
      the records its session sees. */
  function SaveLoginInternalSpec(visible: seq<Record>, email: string, hash: Option<string>, faults: Faults)
    : (r: (Option<ErrorPair>, seq<Record>))
    ensures r.0.Some? <==> r.1 == []
    ensures r.0.None? ==> r.1 == [Record(email, hash)]
    ensures r.0.Some? ==> Catalogued(r.0.value)
  {
    if faults.queryFails then
      (Some((Errors.FailedToQueryForUserCode, Errors.FailedToQueryForUserString)), [])
    else if HasEmail(visible, email) then
      (Some((Errors.UserWithEmailAlreadyExistsCode, Errors.UserWithEmailAlreadyExistsString)), [])
    else if faults.addFails then
      (Some((Errors.FailedToCommitUserCode, Errors.FailedToCommitUserString)), [])
    else
      (None, [Record(email, hash)])
  }

  /** `_save_login_internal(email, hashed_password, session)`: existence query,
      then conflict check, then `session.add`. */
  method SaveLoginInternal(email: string, hash: Option<string>, session: Session, faults: Faults)
    returns (r: Option<ErrorPair>)
    modifies session`pending
    ensures var spec := SaveLoginInternalSpec(old(session.Visible()), email, hash, faults);
            r == spec.0 && session.pending == old(session.pending) + spec.1
  {
    var userExists := UserAlreadyExists(email, session, faults.queryFails);
    if userExists.None? {
      return Some((Errors.FailedToQueryForUserCode, Errors.FailedToQueryForUserString));
    } else if userExists.value {
      return Some((Errors.UserWithEmailAlreadyExistsCode, Errors.UserWithEmailAlreadyExistsString));
    }
    var raised := session.Add(Record(email, hash), faults.addFails);
    if raised {
      return Some((Errors.FailedToCommitUserCode, Errors.FailedToCommitUserString));
    }
    r := None;
  }

  /** What `save_login` returns and the table it leaves, from the table it starts with. */
  function SaveLoginSpec(rows: seq<Record>, email: string, hash: Option<string>, faults: Faults)
    : (r: (Outcome<Option<ErrorPair>>, seq<Record>))
    ensures r.1 == rows || r.1 == rows + [Record(email, hash)]
    ensures r.1 == rows + [Record(email, hash)] <==> r.0 == Returned(None)
    ensures r.0.Raised? ==> r.0.exc == DatabaseError
    ensures r.0.Returned? && r.0.value.Some? ==> Catalogued(r.0.value.value)
  {
    var inner := SaveLoginInternalSpec(rows, email, hash, faults);
    if faults.commitFails then (Raised(DatabaseError), rows)
    else (Returned(inner.0), rows + inner.1)
  }

  /** `save_login(email, hashed_password)`: `_save_login_internal` inside one
      `session_scope`, on a fresh session. */
  method SaveLogin(db: Database, email: string, hash: Option<string>, faults: Faults)
    returns (r: Outcome<Option<ErrorPair>>)
    modifies db
    ensures (r, db.rows) == SaveLoginSpec(old(db.rows), email, hash, faults)
  {
    var session := new Session(db);
    assert session.Visible() == db.rows;
    ghost var inner := SaveLoginInternalSpec(db.rows, email, hash, faults);
    var result := SaveLoginInternal(email, hash, session, faults);
    assert session.pending == inner.1;
    var raised := session.ExitScope(None, faults.commitFails);
    if raised.Some? {
      r := Raised(raised.value);
    } else {
      r := Returned(result);
    }
  }

  /** A failing existence query reports code 202 and inserts nothing. */
  lemma SaveLoginQueryFailure(rows: seq<Record>, email: string, hash: Option<string>, faults: Faults)
    requires faults.queryFails && !faults.commitFails
    ensures SaveLoginSpec(rows, email, hash, faults) ==
      (Returned(Some((202, Errors.Catalog[202]))), rows)
  {
  }

  /** An email already in the table reports code 301 and leaves the table unchanged. */
  lemma SaveLoginConflict(rows: seq<Record>, email: string, hash: Option<string>, faults: Faults)
    requires !faults.queryFails && !faults.commitFails
    requires HasEmail(rows, email)
    ensures SaveLoginSpec(rows, email, hash, faults) ==
      (Returned(Some((301, Errors.Catalog[301]))), rows)
  {
  }

  /** A failing `session.add` reports code 201 and leaves the table unchanged. */
  lemma SaveLoginAddFailure(rows: seq<Record>, email: string, hash: Option<string>, faults: Faults)
    requires !faults.queryFails && faults.addFails && !faults.commitFails
    requires !HasEmail(rows, email)
    ensures SaveLoginSpec(rows, email, hash, faults) ==
      (Returned(Some((201, Errors.Catalog[201]))), rows)
  {
  }

  /** A fresh email is appended as exactly one record, nothing else changes,
      and the call returns `None`. */
  lemma SaveLoginFresh(rows: seq<Record>, email: string, hash: Option<string>)
    requires !HasEmail(rows, email)
    ensures SaveLoginSpec(rows, email, hash, NoFaults) ==
      (Returned(None), rows + [Record(email, hash)])
    ensures |WithEmail(SaveLoginSpec(rows, email, hash, NoFaults).1, email)| == 1
    ensures var rows' := SaveLoginSpec(rows, email, hash, NoFaults).1;
            forall i :: 0 <= i < |rows'| && rows'[i].email == email ==> i == |rows|
  {
    WithEmailNonEmpty(rows, email);
    WithEmailAppend(rows, Record(email, hash), email);
  }

  /** A failing commit rolls back: the table is the one before the transaction
      and the exception propagates. */
  lemma SaveLoginCommitFailure(rows: seq<Record>, email: string, hash: Option<string>, faults: Faults)
    requires faults.commitFails
    ensures SaveLoginSpec(rows, email, hash, faults) == (Raised(DatabaseError), rows)
  {
  }

  /** Saving the same email twice: the second call always reports 301 and
      changes nothing; from a table without that email, exactly one record
      with it remains. */
  lemma {:induction false} SaveLoginTwice(rows: seq<Record>, email: string, h1: Option<string>, h2: Option<string>)
    ensures var rows1 := SaveLoginSpec(rows, email, h1, NoFaults).1;
            SaveLoginSpec(rows1, email, h2, NoFaults) ==
              (Returned(Some((301, Errors.Catalog[301]))), rows1)
    ensures !HasEmail(rows, email) ==>
      var rows2 := SaveLoginSpec(SaveLoginSpec(rows, email, h1, NoFaults).1, email, h2, NoFaults).1;
      |WithEmail(rows2, email)| == 1 &&
      forall i :: 0 <= i < |rows2| && rows2[i].email == email ==> i == |rows|
  {
    var rows1 := SaveLoginSpec(rows, email, h1, NoFaults).1;
    if HasEmail(rows, email) {
      assert rows1 == rows;
    } else {
      assert rows1 == rows + [Record(email, h1)];
      assert rows1[|rows|].email == email;
      SaveLoginFresh(rows, email, h1);
    }
  }
}
