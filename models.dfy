/**
 * The shapes of the stored rows (the ORM classes) and of the request bodies
 * (the pydantic schemas). Neither holds any logic of its own.
 */
module Models {
  import opened Wrappers

  /** A row of the `Students` table; `registerNo` is its primary key. */
  datatype Student = Student(
    name: string,
    registerNo: string,
    parentName: string,
    studentClass: string,
    password: string)

  /** A row of the `Parents` table; `parentName` is its primary key, `email` is unique. */
  datatype Parent = Parent(
    parentName: string,
    phoneNumber: string,
    email: string,
    password: string)

  /** Body of `POST /students/register`. */
  datatype StudentCreate = StudentCreate(
    name: string,
    parentName: string,
    registerNo: string,
    studentClass: string,
    password: string)

  /** Body of `PUT /students/{register_no}`: every field may be left unset. */
  datatype StudentUpdate = StudentUpdate(
    name: Option<string>,
    parentName: Option<string>,
    registerNo: Option<string>,
    studentClass: Option<string>,
    password: Option<string>)

  /** Body of `POST /parents/register`. */
  datatype ParentCreate = ParentCreate(
    parentName: string,
    phoneNumber: string,
    email: string,
    password: string)

  /** Body of a login request, read with `dict.get`, so either value may be missing. */
  datatype LoginRequest = LoginRequest(key: Option<string>, password: Option<string>)

  /** The student fields a response may carry; there is no password among them. */
  datatype StudentProfile = StudentProfile(
    registerNo: string,
    name: string,
    studentClass: string,
    parentName: string)

  /** The parent fields a response may carry; there is no password among them. */
  datatype ParentProfile = ParentProfile(
    parentName: string,
    phoneNumber: string,
    email: string)
}
