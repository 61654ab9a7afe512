/**
 * The request handlers as methods of one object that owns the two tables
 * and changes them in place, as the handlers change the database through
 * their session. Each method is tied to the function of `Handlers` that
 * specifies it.
 */
module Server {
  import opened Wrappers
  import opened Http
  import opened Models
  import H = Handlers

  class Registry {
    var students: map<string, Student>
    var parents: map<string, Parent>
    /** bcrypt's `hashpw` with a fresh salt, and `checkpw`. */
    const hash: string -> string
    const verify: (string, string) -> bool
    /** The rewrite pydantic's `EmailStr` validation applies to a registration email. */
    const normalizeEmail: string -> string

    ghost predicate Valid()
      reads this
    {
      H.StudentsKeyed(students) && H.ParentsKeyed(parents)
    }

    constructor (hash: string -> string, verify: (string, string) -> bool, normalizeEmail: string -> string)
      ensures Valid()
      ensures students == map[] && parents == map[]
      ensures this.hash == hash && this.verify == verify && this.normalizeEmail == normalizeEmail
    {
      students := map[];
      parents := map[];
      this.hash := hash;
      this.verify := verify;
      this.normalizeEmail := normalizeEmail;
    }

    method RegisterStudent(req: StudentCreate) returns (r: Response<string>)
      requires Valid()
      modifies this
      ensures Valid()
      ensures (r, students) == H.RegisterStudent(old(students), req, hash)
      ensures parents == old(parents)
    {
      if req.registerNo in students {
        return Fail(HttpError(BadRequest, H.StudentExists));
      }
      var hashed := hash(req.password);
      var row := Student(req.name, req.registerNo, req.parentName, req.studentClass, hashed);
      students := students[req.registerNo := row];
      r := Ok(H.StudentRegistered);
    }

    /** Reads only: the table is not changed by a login. */
    method StudentLogin(req: LoginRequest) returns (r: Response<StudentProfile>)
      ensures r == H.StudentLogin(students, req, verify)
    {
      r := H.StudentLogin(students, req, verify);
    }

    /** `GET /students`: read every row (in no particular order) and build one profile per row. */
    method GetAllStudents(auth: H.Auth) returns (r: Response<seq<StudentProfile>>)
      requires Valid()
      ensures auth.Denied? ==> r == Fail(HttpError(Unauthorized, auth.detail))
      ensures auth.Granted? ==> r.Ok? && H.IsListing(r.value, students)
    {
      if auth.Denied? {
        return Fail(HttpError(Unauthorized, auth.detail));
      }
      var rows: seq<StudentProfile> := [];
      var remaining := students.Keys;
      while remaining != {}
        invariant remaining <= students.Keys
        invariant H.ListedKeys(rows) == students.Keys - remaining
        invariant forall i :: 0 <= i < |rows| ==> rows[i].registerNo in students && rows[i].registerNo !in remaining
        invariant forall i :: 0 <= i < |rows| ==> rows[i] == H.StudentProfileOf(students[rows[i].registerNo])
        invariant forall i, j :: 0 <= i < j < |rows| ==> rows[i].registerNo != rows[j].registerNo
        decreases remaining
      {
        var k :| k in remaining;
        var p := H.StudentProfileOf(students[k]);
        assert (rows + [p])[..|rows|] == rows;
        rows := rows + [p];
        remaining := remaining - {k};
      }
      r := Ok(rows);
    }

    /** Reads only. */
    method GetStudent(auth: H.Auth, key: string) returns (r: Response<StudentProfile>)
      ensures r == H.GetStudent(students, auth, key)
    {
      r := H.GetStudent(students, auth, key);
    }

    /** The `setattr` loop over the supplied fields, then the commit that may break the primary key. */
    method UpdateStudent(auth: H.Auth, key: string, u: StudentUpdate) returns (r: Response<string>)
      requires Valid()
      modifies this
      ensures Valid()
      ensures (r, students) == H.UpdateStudent(old(students), auth, key, u)
      ensures parents == old(parents)
    {
      if auth.Denied? {
        return Fail(HttpError(Unauthorized, auth.detail));
      }
      if key !in students {
        return Fail(HttpError(NotFound, H.StudentMissing));
      }
      var row := students[key];
      if u.name.Some? { row := row.(name := u.name.value); }
      if u.parentName.Some? { row := row.(parentName := u.parentName.value); }
      if u.registerNo.Some? { row := row.(registerNo := u.registerNo.value); }
      if u.studentClass.Some? { row := row.(studentClass := u.studentClass.value); }
      if u.password.Some? { row := row.(password := u.password.value); }
      if row.registerNo != key && row.registerNo in students {
        return Fail(InternalServerError);
      }
      students := (students - {key})[row.registerNo := row];
      r := Ok(H.StudentUpdated);
    }

    method DeleteStudent(auth: H.Auth, key: string) returns (r: Response<string>)
      requires Valid()
      modifies this
      ensures Valid()
      ensures (r, students) == H.DeleteStudent(old(students), auth, key)
      ensures parents == old(parents)
    {
      if auth.Denied? {
        return Fail(HttpError(Unauthorized, auth.detail));
      }
      if key !in students {
        return Fail(HttpError(NotFound, H.StudentMissing));
      }
      students := students - {key};
      r := Ok(H.StudentDeleted);
    }

    method RegisterParent(req: ParentCreate) returns (r: Response<string>)
      requires Valid()
      modifies this
      ensures Valid()
      ensures (r, parents) == H.RegisterParent(old(parents), req, hash, normalizeEmail)
      ensures students == old(students)
    {
      var email := normalizeEmail(req.email);
      if email in parents {
        return Fail(HttpError(BadRequest, H.ParentExists));
      }
      var hashed := hash(req.password);
      var row := Parent(req.parentName, req.phoneNumber, email, hashed);
      if H.ParentNameTaken(parents, req.parentName) {
        return Fail(InternalServerError);
      }
      parents := parents[email := row];
      r := Ok(H.ParentRegistered);
    }

    /** Reads only: the table is not changed by a login. */
    method ParentLogin(req: LoginRequest) returns (r: Response<ParentProfile>)
      ensures r == H.ParentLogin(parents, req, verify)
    {
      r := H.ParentLogin(parents, req, verify);
    }
  }
}
