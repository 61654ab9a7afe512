/**
 * How the handlers of `Handlers` combine: what one request leaves behind
 * for the next.
 */
module HandlerLaws {
  import opened Wrappers
  import opened Http
  import opened Models
  import opened Handlers

  /** A student who has just registered can log in, given that `checkpw` accepts what `hashpw` produced. */
  lemma RegisterThenLogin(t: StudentTable, req: StudentCreate, hash: string -> string, verify: (string, string) -> bool)
    requires req.registerNo !in t
    requires verify(req.password, hash(req.password))
    ensures var t' := RegisterStudent(t, req, hash).1;
      StudentLogin(t', LoginRequest(Some(req.registerNo), Some(req.password)), verify)
      == Ok(StudentProfile(req.registerNo, req.name, req.studentClass, req.parentName))
  {
  }

  /** Registering the same `register_no` twice: the second request is refused and changes nothing. */
  lemma RegisterTwice(t: StudentTable, req1: StudentCreate, req2: StudentCreate, hash: string -> string)
    requires req1.registerNo == req2.registerNo
    ensures var t1 := RegisterStudent(t, req1, hash).1;
      RegisterStudent(t1, req2, hash) == (Fail(HttpError(BadRequest, StudentExists)), t1)
  {
  }

  /** Deleting a student who was just registered gives back the table as it was before. */
  lemma RegisterThenDelete(t: StudentTable, req: StudentCreate, hash: string -> string)
    requires req.registerNo !in t
    ensures var t1 := RegisterStudent(t, req, hash).1;
      DeleteStudent(t1, Granted, req.registerNo) == (Ok(StudentDeleted), t)
  {
    var t1 := RegisterStudent(t, req, hash).1;
    assert t1 - {req.registerNo} == t;
  }

  /** After a delete the student is gone: reading or deleting it again is 404. */
  lemma DeleteThenGet(t: StudentTable, key: string)
    ensures var t1 := DeleteStudent(t, Granted, key).1;
      && GetStudent(t1, Granted, key) == Fail(HttpError(NotFound, StudentMissing))
      && DeleteStudent(t1, Granted, key) == (Fail(HttpError(NotFound, StudentMissing)), t1)
  {
  }

  /** After an update the row is read back under its (possibly new) key, and the old key is gone if it moved. */
  lemma UpdateThenGet(t: StudentTable, key: string, u: StudentUpdate)
    requires UpdateStudent(t, Granted, key, u).0.Ok?
    ensures var t1 := UpdateStudent(t, Granted, key, u).1;
      var row := ApplyUpdate(t[key], u);
      && GetStudent(t1, Granted, row.registerNo) == Ok(StudentProfileOf(row))
      && (row.registerNo != key ==> GetStudent(t1, Granted, key).FailsWith(NotFound))
  {
  }

  /** Setting only the name leaves every other field of the row, and every other row, as it was. */
  lemma UpdateNameOnly(t: StudentTable, key: string, name: string)
    requires key in t && StudentsKeyed(t)
    ensures var u := StudentUpdate(Some(name), None, None, None, None);
      UpdateStudent(t, Granted, key, u) == (Ok(StudentUpdated), t[key := t[key].(name := name)])
  {
    var u := StudentUpdate(Some(name), None, None, None, None);
    var row := ApplyUpdate(t[key], u);
    assert (t - {key})[key := row] == t[key := row];
  }

  /** An update that sets nothing leaves the table as it was. */
  lemma EmptyUpdate(t: StudentTable, key: string)
    requires key in t && StudentsKeyed(t)
    ensures UpdateStudent(t, Granted, key, StudentUpdate(None, None, None, None, None))
      == (Ok(StudentUpdated), t)
  {
    var row := t[key];
    assert (t - {key})[key := row] == t;
  }

  /** A password set by an update is stored exactly as sent: it is not hashed. */
  lemma UpdateStoresPasswordAsGiven(t: StudentTable, key: string, u: StudentUpdate)
    requires UpdateStudent(t, Granted, key, u).0.Ok? && u.password.Some?
    ensures var t1 := UpdateStudent(t, Granted, key, u).1;
      t1[ApplyUpdate(t[key], u).registerNo].password == u.password.value
  {
  }

  /** So a student whose password was changed by an update can log in only if `checkpw` accepts the plain text as a hash. */
  lemma LoginAfterPasswordUpdate(t: StudentTable, key: string, pwd: string, verify: (string, string) -> bool)
    requires key in t && StudentsKeyed(t)
    ensures var t1 := UpdateStudent(t, Granted, key, StudentUpdate(None, None, None, None, Some(pwd))).1;
      StudentLogin(t1, LoginRequest(Some(key), Some(pwd)), verify).Ok? <==> verify(pwd, pwd)
  {
  }

  /**
   * A parent who has just registered can log in with the normalised form of
   * the email, given that `checkpw` accepts what `hashpw` produced.
   */
  lemma RegisterParentThenLogin(t: ParentTable, req: ParentCreate, hash: string -> string,
                                verify: (string, string) -> bool, normalize: string -> string)
    requires normalize(req.email) !in t && !ParentNameTaken(t, req.parentName)
    requires verify(req.password, hash(req.password))
    ensures var t' := RegisterParent(t, req, hash, normalize).1;
      ParentLogin(t', LoginRequest(Some(normalize(req.email)), Some(req.password)), verify)
      == Ok(ParentProfile(req.parentName, req.phoneNumber, normalize(req.email)))
  {
  }

  /**
   * Login reads the email as sent, without the registration's rewrite: an
   * email that normalisation changes, and that no row holds, is not found
   * even right after its own registration.
   */
  lemma LoginWithUnnormalisedEmail(t: ParentTable, req: ParentCreate, hash: string -> string,
                                   verify: (string, string) -> bool, normalize: string -> string, pwd: Option<string>)
    requires normalize(req.email) != req.email && req.email !in t
    ensures var t' := RegisterParent(t, req, hash, normalize).1;
      ParentLogin(t', LoginRequest(Some(req.email), pwd), verify) == Fail(HttpError(NotFound, ParentMissing))
  {
  }

  /** Two registrations whose emails normalise to the same address: the second is refused with 400. */
  lemma RegisterSameNormalisedEmail(t: ParentTable, req1: ParentCreate, req2: ParentCreate,
                                    hash: string -> string, normalize: string -> string)
    requires RegisterParent(t, req1, hash, normalize).0.Ok?
    requires normalize(req1.email) == normalize(req2.email)
    ensures var t1 := RegisterParent(t, req1, hash, normalize).1;
      RegisterParent(t1, req2, hash, normalize) == (Fail(HttpError(BadRequest, ParentExists)), t1)
  {
  }

  /**
   * Two parents with different emails and the same `parent_name`: the
   * handler's own check lets the second through, and the database refuses it.
   */
  lemma SameParentNameTwice(t: ParentTable, req1: ParentCreate, req2: ParentCreate,
                            hash: string -> string, normalize: string -> string)
    requires RegisterParent(t, req1, hash, normalize).0.Ok?
    requires normalize(req2.email) != normalize(req1.email) && normalize(req2.email) !in t
    requires req2.parentName == req1.parentName
    ensures var t1 := RegisterParent(t, req1, hash, normalize).1;
      RegisterParent(t1, req2, hash, normalize) == (Fail(InternalServerError), t1)
  {
    var t1 := RegisterParent(t, req1, hash, normalize).1;
    assert t1[normalize(req1.email)].parentName == req2.parentName;
  }

  /** A key collision on update is the database's 500, and the table is left as it was. */
  lemma UpdateOntoTakenKey(t: StudentTable, key: string, other: string)
    requires key in t && other in t && key != other
    ensures var u := StudentUpdate(None, None, Some(other), None, None);
      UpdateStudent(t, Granted, key, u) == (Fail(InternalServerError), t)
  {
  }
}
