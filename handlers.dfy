/**
 * The student and parent handlers of the web API, as functions from the
 * tables before a request to the response and the tables after it.
 * The database is two in-memory tables: students keyed by `register_no`
 * and parents keyed by `email`, the key every parent handler looks rows up by.
 * Password hashing and checking are parameters (`hash`, `verify`).
 */
module Handlers {
  import opened Wrappers
  import opened Http
  import opened Models

  type StudentTable = map<string, Student>
  type ParentTable = map<string, Parent>

  /** The outcome of the bearer-token dependency, which runs before a guarded handler. */
  datatype Auth = Granted | Denied(detail: string)

  const StudentExists := "Student already exists with this registration number."
  const StudentRegistered := "Student registered successfully"
  const StudentMissing := "Student not found"
  const StudentUpdated := "Student updated successfully"
  const StudentDeleted := "Student deleted successfully"
  const ParentExists := "Parent already exists with this email."
  const ParentRegistered := "Parent registered successfully"
  const ParentMissing := "Parent not found"
  const WrongPassword := "Invalid password"

  /** Every student row is stored under its own primary key. */
  predicate StudentsKeyed(t: StudentTable) {
    forall k :: k in t ==> t[k].registerNo == k
  }

  /** Every parent row is stored under its own email, and no two rows share a `parent_name`. */
  predicate ParentsKeyed(t: ParentTable) {
    && (forall e :: e in t ==> t[e].email == e)
    && (forall e1, e2 :: e1 in t && e2 in t && t[e1].parentName == t[e2].parentName ==> e1 == e2)
  }

  /** The dict a student response carries: the four public columns, never the password. */
  function StudentProfileOf(s: Student): (r: StudentProfile)
    ensures r.registerNo == s.registerNo && r.name == s.name
    ensures r.studentClass == s.studentClass && r.parentName == s.parentName
  {
    StudentProfile(s.registerNo, s.name, s.studentClass, s.parentName)
  }

  /** The dict a parent response carries: name, phone and email, never the password. */
  function ParentProfileOf(p: Parent): (r: ParentProfile)
    ensures r.parentName == p.parentName && r.phoneNumber == p.phoneNumber && r.email == p.email
  {
    ParentProfile(p.parentName, p.phoneNumber, p.email)
  }

  /** Two rows that differ at most in their password give the same profile: the password never shows. */
  lemma ProfilesHidePassword(s: Student, p: Parent, pwd: string)
    ensures StudentProfileOf(s.(password := pwd)) == StudentProfileOf(s)
    ensures ParentProfileOf(p.(password := pwd)) == ParentProfileOf(p)
  {
  }

  /** A response or an error that the guard produced before the handler ran. */
  function Guard<T>(auth: Auth, handler: Response<T>): (r: Response<T>)
    ensures auth.Denied? ==> r == Fail(HttpError(Unauthorized, auth.detail))
    ensures auth.Granted? ==> r == handler
  {
    match auth
    case Denied(detail) => Fail(HttpError(Unauthorized, detail))
    case Granted => handler
  }

  /** The guard in front of a handler that may change the student table: a denial changes nothing. */
  function GuardWrite<T>(auth: Auth, t: StudentTable, handler: (Response<T>, StudentTable))
    : (out: (Response<T>, StudentTable))
    ensures auth.Denied? ==> out == (Fail(HttpError(Unauthorized, auth.detail)), t)
    ensures auth.Granted? ==> out == handler
  {
    (Guard(auth, handler.0), if auth.Denied? then t else handler.1)
  }

  // ---------------------------------------------------------------------
  // Students
  // ---------------------------------------------------------------------

  /** `POST /students/register`: refuse a taken `register_no`, else store the row with a hashed password. */
  function RegisterStudent(t: StudentTable, req: StudentCreate, hash: string -> string)
    : (out: (Response<string>, StudentTable))
    ensures out.0.Ok? <==> req.registerNo !in t
    ensures out.0.Fail? ==> out.0 == Fail(HttpError(BadRequest, StudentExists)) && out.1 == t
    ensures out.0.Ok? ==> out.0.value == StudentRegistered
    ensures out.0.Ok? ==> out.1.Keys == t.Keys + {req.registerNo} && |out.1| == |t| + 1
    ensures out.0.Ok? ==> forall k :: k in t ==> out.1[k] == t[k]
    ensures out.0.Ok? ==> var s := out.1[req.registerNo];
      && s.password == hash(req.password)
      && StudentProfileOf(s) == StudentProfile(req.registerNo, req.name, req.studentClass, req.parentName)
    ensures StudentsKeyed(t) ==> StudentsKeyed(out.1)
  {
    if req.registerNo in t then
      (Fail(HttpError(BadRequest, StudentExists)), t)
    else
      var row := Student(req.name, req.registerNo, req.parentName, req.studentClass, hash(req.password));
      (Ok(StudentRegistered), t[req.registerNo := row])
  }

  /**
   * `POST /students/login`: an absent key is 404 before the password is looked at,
   * a missing password makes the bcrypt wrapper raise (500), a mismatch is 401.
   */
  function StudentLogin(t: StudentTable, req: LoginRequest, verify: (string, string) -> bool)
    : (r: Response<StudentProfile>)
    ensures r.FailsWith(NotFound) <==> req.key.None? || req.key.value !in t
    ensures r.FailsWith(NotFound) ==> r.error.detail == StudentMissing
    ensures r.Ok? <==>
      req.key.Some? && req.key.value in t && req.password.Some?
      && verify(req.password.value, t[req.key.value].password)
    ensures r.Ok? ==> r.value == StudentProfileOf(t[req.key.value])
    ensures req.key.Some? && req.key.value in t && req.password.None? ==> r == Fail(InternalServerError)
    ensures r.FailsWith(Unauthorized) <==>
      req.key.Some? && req.key.value in t && req.password.Some?
      && !verify(req.password.value, t[req.key.value].password)
    ensures r.FailsWith(Unauthorized) ==> r.error.detail == WrongPassword
  {
    if req.key.None? || req.key.value !in t then
      Fail(HttpError(NotFound, StudentMissing))
    else
      var s := t[req.key.value];
      if req.password.None? then
        Fail(InternalServerError)
      else if !verify(req.password.value, s.password) then
        Fail(HttpError(Unauthorized, WrongPassword))
      else
        Ok(StudentProfileOf(s))
  }

  /** `GET /students/{register_no}`. */
  function GetStudent(t: StudentTable, auth: Auth, key: string): (r: Response<StudentProfile>)
    ensures auth.Denied? ==> r == Fail(HttpError(Unauthorized, auth.detail))
    ensures auth.Granted? ==> (r.Ok? <==> key in t)
    ensures auth.Granted? && key !in t ==> r == Fail(HttpError(NotFound, StudentMissing))
    ensures r.Ok? ==> key in t && r.value == StudentProfileOf(t[key])
    ensures r.Ok? && StudentsKeyed(t) ==> r.value.registerNo == key
  {
    Guard(auth,
      if key !in t then Fail(HttpError(NotFound, StudentMissing))
      else Ok(StudentProfileOf(t[key])))
  }

  /** The row after `setattr` has copied every field the update sets; a password is copied as given. */
  function ApplyUpdate(s: Student, u: StudentUpdate): (r: Student)
    ensures r.name == u.name.GetOr(s.name)
    ensures r.parentName == u.parentName.GetOr(s.parentName)
    ensures r.registerNo == u.registerNo.GetOr(s.registerNo)
    ensures r.studentClass == u.studentClass.GetOr(s.studentClass)
    ensures r.password == u.password.GetOr(s.password)
  {
    Student(
      u.name.GetOr(s.name),
      u.registerNo.GetOr(s.registerNo),
      u.parentName.GetOr(s.parentName),
      u.studentClass.GetOr(s.studentClass),
      u.password.GetOr(s.password))
  }

  /**
   * `PUT /students/{register_no}`. A new `register_no` moves the row to that key;
   * moving it onto another student's key breaks the primary key when the
   * session commits, an unhandled error (500) that leaves the table as it was.
   */
  function UpdateStudent(t: StudentTable, auth: Auth, key: string, u: StudentUpdate)
    : (out: (Response<string>, StudentTable))
    ensures auth.Denied? ==> out.0 == Fail(HttpError(Unauthorized, auth.detail))
    ensures auth.Granted? && key !in t ==> out.0 == Fail(HttpError(NotFound, StudentMissing))
    ensures auth.Granted? && key in t
      && (var k' := ApplyUpdate(t[key], u).registerNo; k' != key && k' in t)
      ==> out.0 == Fail(InternalServerError)
    ensures out.0.Fail? ==> out.1 == t
    ensures out.0.Ok? <==>
      auth.Granted? && key in t
      && (var k' := ApplyUpdate(t[key], u).registerNo; k' == key || k' !in t)
    ensures out.0.Ok? ==> var row := ApplyUpdate(t[key], u);
      && out.0.value == StudentUpdated
      && out.1.Keys == t.Keys - {key} + {row.registerNo}
      && out.1[row.registerNo] == row
      && |out.1| == |t|
      && forall k :: k in t && k != key ==> out.1[k] == t[k]
    ensures StudentsKeyed(t) ==> StudentsKeyed(out.1)
  {
    GuardWrite(auth, t,
      if key !in t then
        (Fail(HttpError(NotFound, StudentMissing)), t)
      else
        UpdateRow(t, key, u))
  }

  /** The update of a stored row, after the guard and the lookup have passed. */
  function UpdateRow(t: StudentTable, key: string, u: StudentUpdate): (out: (Response<string>, StudentTable))
    requires key in t
    ensures out.0.Ok? || out.0 == Fail(InternalServerError)
    ensures out.0.Fail? <==> (var k' := ApplyUpdate(t[key], u).registerNo; k' != key && k' in t)
  {
    var row := ApplyUpdate(t[key], u);
    if row.registerNo != key && row.registerNo in t then
      (Fail(InternalServerError), t)
    else
      var t' := (t - {key})[row.registerNo := row];
      assert |t - {key}| == |t| - 1;
      (Ok(StudentUpdated), t')
  }

  /** `DELETE /students/{register_no}`. */
  function DeleteStudent(t: StudentTable, auth: Auth, key: string): (out: (Response<string>, StudentTable))
    ensures auth.Denied? ==> out.0 == Fail(HttpError(Unauthorized, auth.detail))
    ensures auth.Granted? ==> (out.0.Ok? <==> key in t)
    ensures auth.Granted? && key !in t ==> out.0 == Fail(HttpError(NotFound, StudentMissing))
    ensures out.0.Fail? ==> out.1 == t
    ensures out.0.Ok? ==> out.0.value == StudentDeleted
    ensures out.0.Ok? ==> out.1.Keys == t.Keys - {key} && |out.1| == |t| - 1
    ensures forall k :: k in out.1 ==> k in t && out.1[k] == t[k]
    ensures StudentsKeyed(t) ==> StudentsKeyed(out.1)
  {
    GuardWrite(auth, t,
      if key !in t then (Fail(HttpError(NotFound, StudentMissing)), t)
      else (Ok(StudentDeleted), t - {key}))
  }

  /** A list answer to `GET /students`: one profile per stored student and nothing else. */
  predicate IsListing(rows: seq<StudentProfile>, t: StudentTable) {
    && (forall i :: 0 <= i < |rows| ==> rows[i].registerNo in t && rows[i] == StudentProfileOf(t[rows[i].registerNo]))
    && (forall i, j :: 0 <= i < j < |rows| ==> rows[i].registerNo != rows[j].registerNo)
    && ListedKeys(rows) == t.Keys
  }

  /** The `register_no` values that appear in a list of profiles. */
  function ListedKeys(rows: seq<StudentProfile>): set<string> {
    if rows == [] then {} else ListedKeys(rows[..|rows| - 1]) + {rows[|rows| - 1].registerNo}
  }

  lemma {:induction false} ListedKeysAt(rows: seq<StudentProfile>, k: string)
    ensures k in ListedKeys(rows) <==> exists i :: 0 <= i < |rows| && rows[i].registerNo == k
  {
    if rows != [] {
      var init := rows[..|rows| - 1];
      ListedKeysAt(init, k);
      if k in ListedKeys(init) {
        var i :| 0 <= i < |init| && init[i].registerNo == k;
        assert rows[i] == init[i];
      }
      if exists i :: 0 <= i < |rows| && rows[i].registerNo == k {
        var i :| 0 <= i < |rows| && rows[i].registerNo == k;
        if i < |init| {
          assert init[i] == rows[i];
        }
      }
    }
  }

  /** Distinct keys: the list is exactly as long as the set of keys it names. */
  lemma {:induction false} ListedKeysSize(rows: seq<StudentProfile>)
    requires forall i, j :: 0 <= i < j < |rows| ==> rows[i].registerNo != rows[j].registerNo
    ensures |ListedKeys(rows)| == |rows|
  {
    if rows != [] {
      var init := rows[..|rows| - 1];
      var last := rows[|rows| - 1].registerNo;
      ListedKeysSize(init);
      ListedKeysAt(init, last);
      assert last !in ListedKeys(init);
    }
  }

  /** A listing holds exactly one entry per stored student. */
  lemma ListingSize(rows: seq<StudentProfile>, t: StudentTable)
    requires IsListing(rows, t)
    ensures |rows| == |t|
  {
    ListedKeysSize(rows);
    assert |t.Keys| == |t|;
  }

  // ---------------------------------------------------------------------
  // Parents
  // ---------------------------------------------------------------------

  /** Some stored parent already uses this `parent_name`. */
  predicate ParentNameTaken(t: ParentTable, name: string) {
    exists e :: e in t && t[e].parentName == name
  }

  /**
   * `POST /parents/register`. The body's email is an `EmailStr`: before the
   * handler runs, validation replaces it with its normalised form
   * (`normalize`), and that form is what is looked up and stored. Only the
   * email is checked. A new email with a `parent_name` already stored breaks
   * the primary key when the session commits, an unhandled error (500) that
   * leaves the table as it was.
   */
  function RegisterParent(t: ParentTable, req: ParentCreate, hash: string -> string, normalize: string -> string)
    : (out: (Response<string>, ParentTable))
    ensures var email := normalize(req.email);
      && (email in t <==> out.0.FailsWith(BadRequest))
      && (email in t ==> out.0.error.detail == ParentExists)
      && (email !in t && ParentNameTaken(t, req.parentName) ==> out.0 == Fail(InternalServerError))
      && (out.0.Fail? ==> out.1 == t)
      && (out.0.Ok? <==> email !in t && !ParentNameTaken(t, req.parentName))
    ensures out.0.Ok? ==> out.0.value == ParentRegistered
    ensures out.0.Ok? ==> out.1.Keys == t.Keys + {normalize(req.email)} && |out.1| == |t| + 1
    ensures out.0.Ok? ==> forall e :: e in t ==> out.1[e] == t[e]
    ensures out.0.Ok? ==> var p := out.1[normalize(req.email)];
      && p.password == hash(req.password)
      && ParentProfileOf(p) == ParentProfile(req.parentName, req.phoneNumber, normalize(req.email))
    ensures ParentsKeyed(t) ==> ParentsKeyed(out.1)
  {
    var email := normalize(req.email);
    if email in t then
      (Fail(HttpError(BadRequest, ParentExists)), t)
    else if ParentNameTaken(t, req.parentName) then
      (Fail(InternalServerError), t)
    else
      var row := Parent(req.parentName, req.phoneNumber, email, hash(req.password));
      (Ok(ParentRegistered), t[email := row])
  }

  /** `POST /parents/login`, with the same order of checks as the student login. */
  function ParentLogin(t: ParentTable, req: LoginRequest, verify: (string, string) -> bool)
    : (r: Response<ParentProfile>)
    ensures r.FailsWith(NotFound) <==> req.key.None? || req.key.value !in t
    ensures r.FailsWith(NotFound) ==> r.error.detail == ParentMissing
    ensures r.Ok? <==>
      req.key.Some? && req.key.value in t && req.password.Some?
      && verify(req.password.value, t[req.key.value].password)
    ensures r.Ok? ==> r.value == ParentProfileOf(t[req.key.value])
    ensures req.key.Some? && req.key.value in t && req.password.None? ==> r == Fail(InternalServerError)
    ensures r.FailsWith(Unauthorized) <==>
      req.key.Some? && req.key.value in t && req.password.Some?
      && !verify(req.password.value, t[req.key.value].password)
    ensures r.FailsWith(Unauthorized) ==> r.error.detail == WrongPassword
  {
    if req.key.None? || req.key.value !in t then
      Fail(HttpError(NotFound, ParentMissing))
    else
      var p := t[req.key.value];
      if req.password.None? then
        Fail(InternalServerError)
      else if !verify(req.password.value, p.password) then
        Fail(HttpError(Unauthorized, WrongPassword))
      else
        Ok(ParentProfileOf(p))
  }
}
