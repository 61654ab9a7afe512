# Smart Study Portal backend: student/parent registry and upload checks

This project models in Dafny the request-handling logic of the Smart Study
Portal web backend (`server/main.py`): the student and parent handlers
(register, login, list, get, update and delete a student; register and log in
a parent) over in-memory tables, and the pieces of the `POST /process-image`
endpoint that are logic rather than calls to other services (the request
guards, the check on the OCR text, and the stripping of a markdown code fence
from the generated reply).

Files and modules:

- `wrappers.dfy` (`Wrappers`): `Option`, for a JSON value that may be missing and for the optional fields of an update.
- `http.dfy` (`Http`): `HttpError` (an `HTTPException`: status code and detail) and `Response`, a body or an error.
- `models.dfy` (`Models`): the rows of the `Students` and `Parents` tables (`server/models.py`), the request bodies (`server/schemas.py`) and the profiles the handlers return. A profile type has no password field, so no response can carry a password.
- `handlers.dfy` (`Handlers`): each handler as a function from the table before the request to the response and the table after it, with its contract. The student table is a `map` keyed by `register_no`, the primary key. The parent table is a `map` keyed by `email`, the only key the handlers look rows up by. `StudentsKeyed` and `ParentsKeyed` are the table invariants: every row sits under its own key, and no two parents share a `parent_name`, the database's primary key for parents.
- `server.dfy` (`Server`): class `Registry` owns the two tables and changes them in place. It has one method per handler, and each method's `ensures` ties its response and the new tables to the function in `Handlers`. `GetAllStudents` walks the table in no fixed order and builds one profile per row.
- `laws.dfy` (`HandlerLaws`): how the handlers combine. Examples: register then log in, register then delete, update then read, and a duplicate parent name.
- `pystr.dfy` (`PyStr`): Python's `str.isspace`, `strip`, `startswith` and `endswith`, with `IsStripOf` as an independent definition of what `strip` returns.
- `upload.dfy` (`Upload`): the guards of `process_image`, the OCR-text check (as written and as intended), and the fence stripper with its properties.

Password hashing and checking (bcrypt) are not modelled. They appear as two
function values given to the `Registry` constructor: `hash` and `verify`. The
bearer-token dependency is reduced to its outcome: `Auth` is `Granted` or
`Denied(detail)`. A denial gives a 401 before the handler body runs.

Points where the code does something other than what its own text suggests. The model follows the code:

- `register_student` hashes before storing (the comment at `server/main.py:58`), and the `password` column is marked "store hashed password in production" (`server/models.py:13`). `update_student`, however, copies a supplied `password` with `setattr` and does not hash it (`server/main.py:138-139`). `HandlerLaws.UpdateStoresPasswordAsGiven` states this.
- The primary key of `Parents` is `parent_name` (`server/models.py:18`), and `email` is only a unique column (`server/models.py:20`). The handlers look parents up only by email (`server/main.py:160`, `server/main.py:185`). A new email with an already stored `parent_name` passes the handler's check. The commit then fails on the primary key, and the client gets FastAPI's unhandled-error 500. `Handlers.RegisterParent` and `HandlerLaws.SameParentNameTwice` state this.
- The registration email is an `EmailStr` (`server/schemas.py:30`). Validation rewrites it to a normalised address before the handler looks it up and stores it. `parent_login` reads the email exactly as sent (`server/main.py:182`). The rewrite is the parameter `normalize`. `HandlerLaws.LoginWithUnnormalisedEmail` and `HandlerLaws.RegisterSameNormalisedEmail` state the consequences.
- An update can set `register_no`, which moves the row to a new key. If that key belongs to another student, the commit fails on the primary key (`server/models.py:10`) and gives a 500, with the table unchanged.
- The empty-OCR check raises `HTTPException(400)` (`server/main.py:241-244`), but the client receives a 500 (see Findings).

## Model

| member | source | states |
|---|---|---|
| `Handlers.RegisterStudent` | server/main.py:52-73 | Success exactly when the `register_no` is not yet stored. A taken one gives the 400 "Student already registered" with the table unchanged. Otherwise exactly one new key is added, holding the request's fields and `hash(password)`, and every other row stays as it was. The key invariant is preserved. |
| `Handlers.StudentLogin` | server/main.py:74-94 | A missing or unknown key gives 404, checked before any password. A missing password on a known key gives 500. A password that `verify` rejects gives 401 "Invalid password". Success exactly when `verify` accepts, and it returns the stored row's profile (no password). |
| `Handlers.GetStudent` | server/main.py:115-126 | A denied token gives 401 with the dependency's detail. Otherwise success exactly when the key is stored, with that row's profile; an unknown key gives 404. |
| `Handlers.ApplyUpdate` | server/main.py:138-139 | Each field set in the update replaces the stored value, including `register_no` and the unhashed `password`. Every unset field keeps its old value. |
| `Handlers.UpdateStudent` | server/main.py:131-143 | 401 with the dependency's detail before anything else. An unknown key gives 404 with no change. Moving onto another student's key gives exactly the 500 `InternalServerError`, with no change. Otherwise the old key is replaced by the updated row under its new key, the size is kept, and every other row is unchanged. |
| `Handlers.DeleteStudent` | server/main.py:148-157 | 401 with the dependency's detail first. An unknown key gives 404 with no change. Otherwise exactly that key is removed and every other row is unchanged. |
| `Handlers.RegisterParent` | server/main.py:158-177 | The email is first normalised (`EmailStr`). A taken normalised email gives 400 with no change. A new email with a stored `parent_name` gives 500 with no change. Otherwise exactly one row is added under the normalised email, holding `hash(password)`, and the others are unchanged. The invariants (keyed by email, distinct names) are preserved. |
| `Handlers.ParentLogin` | server/main.py:180-199 | A missing or unknown email gives 404 before any password check. A missing password gives 500. A rejected password gives 401 "Invalid password". Success exactly when `verify` accepts, returning name, phone and email only. |
| `Handlers.StudentProfileOf` | server/main.py:102-110 | The student dict carries `register_no`, `name`, `class` and `parent_name`, each equal to the stored column. The profile type has no password field. |
| `Handlers.ParentProfileOf` | server/main.py:192-199 | The parent dict carries `parent_name`, `phone_number` and `email`, each equal to the stored column. The profile type has no password field. |
| `Handlers.ProfilesHidePassword` | server/main.py:86-94 | Changing only a row's password leaves its profile unchanged, so no response depends on the password. |
| `Handlers.Guard` | server/auth.py:18-27 | A denied bearer token gives 401 with the dependency's detail. A granted one passes the handler's response through. |
| `Handlers.GuardWrite` | server/auth.py:18-27 | In front of a handler that changes the table: a denied token gives 401 and leaves the table as it was. A granted one gives the handler's response and table. |
| `Handlers.UpdateRow` | server/main.py:138-141 | Once the row is found, the update fails exactly when the new `register_no` belongs to another student, and then with the 500 of a failed commit. |
| `Handlers.ListingSize` | server/main.py:101-110 | A list answer, with one profile per stored row and no key twice, has exactly as many entries as the table has students. |
| `Server.Registry.constructor` | server/main.py:41 | The tables start empty and satisfy the key invariants. |
| `Server.Registry.RegisterStudent` | server/main.py:53-73 | Response and new student table are those of `Handlers.RegisterStudent`. Parents are untouched and the invariants kept. |
| `Server.Registry.StudentLogin` | server/main.py:75-94 | Reads only. Answers as `Handlers.StudentLogin` on the current table. |
| `Server.Registry.GetAllStudents` | server/main.py:98-110 | 401 when denied. Otherwise a list with exactly one profile per stored student, each equal to that row's profile, and no key twice. |
| `Server.Registry.GetStudent` | server/main.py:116-126 | Reads only. Answers as `Handlers.GetStudent`. |
| `Server.Registry.UpdateStudent` | server/main.py:132-143 | Applies the supplied fields one by one to the row, then re-keys it. Response and new table are those of `Handlers.UpdateStudent`. Parents are untouched. |
| `Server.Registry.DeleteStudent` | server/main.py:149-157 | Response and new table are those of `Handlers.DeleteStudent`. Parents are untouched. |
| `Server.Registry.RegisterParent` | server/main.py:159-177 | Response and new parent table are those of `Handlers.RegisterParent`, with the registry's email normalisation. Students are untouched. |
| `Server.Registry.ParentLogin` | server/main.py:181-199 | Reads only. Answers as `Handlers.ParentLogin`. |
| `HandlerLaws.RegisterThenLogin` | server/main.py:59-94 | After a successful registration, logging in with the same key and password returns the registered profile, provided `verify` accepts `hash` of the password. |
| `HandlerLaws.RegisterTwice` | server/main.py:54-56 | A second registration of the same `register_no` gives 400 and leaves the table unchanged. |
| `HandlerLaws.RegisterThenDelete` | server/main.py:151-156 | Deleting a just-registered student returns the table to what it was before the registration. |
| `HandlerLaws.DeleteThenGet` | server/main.py:151-156 | After a delete, reading or deleting the same key gives 404. |
| `HandlerLaws.UpdateThenGet` | server/main.py:134-139 | After an update, the row reads back under its new key with the updated fields. A moved row's old key gives 404. |
| `HandlerLaws.UpdateNameOnly` | server/main.py:138-139 | An update that sets only `name` changes that one field of that one row. |
| `HandlerLaws.EmptyUpdate` | server/main.py:138-139 | An update that sets nothing succeeds and leaves the table unchanged. |
| `HandlerLaws.UpdateStoresPasswordAsGiven` | server/main.py:138-139 | A password set by an update is stored exactly as sent, not hashed. |
| `HandlerLaws.LoginAfterPasswordUpdate` | server/main.py:83 | After an update sets password `p`, logging in with `p` succeeds exactly when `verify(p, p)` holds. The stored value is the plain text. |
| `HandlerLaws.RegisterParentThenLogin` | server/main.py:164-199 | After a successful parent registration, logging in with the normalised email and the password returns the parent's profile, provided `verify` accepts `hash` of the password. |
| `HandlerLaws.LoginWithUnnormalisedEmail` | server/main.py:182-187 | When normalisation changes an email and no row holds it as sent, logging in with the email as sent gives 404, even right after its registration. |
| `HandlerLaws.RegisterSameNormalisedEmail` | server/main.py:160-162 | After a successful registration, a second one whose email normalises to the same address gives 400 and changes nothing. |
| `HandlerLaws.SameParentNameTwice` | server/main.py:160-173 | A second parent with a new email and an existing `parent_name` passes the email check and is refused with 500. The table is unchanged. |
| `HandlerLaws.UpdateOntoTakenKey` | server/main.py:138-141 | Setting `register_no` to another stored student's key gives 500 and leaves the table as it was. |
| `PyStr.IsSpaceMatchesPython` | server/main.py:271 | The whitespace test `IsSpace` by code-point ranges holds exactly for the 29 characters of Python's `str.isspace`, listed one by one in `PySpaces`. |
| `PyStr.StartsWith` | server/main.py:274 | `s.startswith(p)` holds exactly when `p` fits in `s` and matches it character by character from the front. |
| `PyStr.EndsWith` | server/main.py:278 | `s.endswith(p)` holds exactly when `p` fits in `s` and matches it character by character at the end. |
| `PyStr.TrimStart` | server/main.py:271 | The result is a suffix of the input. Everything dropped is whitespace, and the result does not start with whitespace. |
| `PyStr.TrimEnd` | server/main.py:280 | The result is a prefix of the input. Everything dropped is whitespace, and the result does not end with whitespace. |
| `PyStr.Strip` | server/main.py:271 | The result is a slice of the input with only whitespace around it and none at either of its ends (`IsStripOf`). |
| `PyStr.StripUnique` | server/main.py:280 | At most one string satisfies `IsStripOf` for a given input, so `IsStripOf` defines `strip`. |
| `PyStr.StripEmptyIffBlank` | server/main.py:240 | `strip()` gives the empty string exactly when every character is whitespace, which is the test `not extracted_text.strip()`. |
| `PyStr.StripIdempotent` | server/main.py:280 | Stripping an already stripped string changes nothing. |
| `Upload.CheckRequest` | server/main.py:220-228 | An empty API key gives 500 whatever the content type. Otherwise the request passes exactly when a content type is given and starts with "image/", and fails with 400 "File must be an image" when it does not. |
| `Upload.ApiKeyCheckedFirst` | server/main.py:220-224 | With no API key, the outcome does not depend on the upload at all. |
| `Upload.Rewrapped` | server/main.py:319-321 | An `HTTPException` raised inside the `try` reaches the client as a 500. |
| `Upload.CheckOcrTextAsWritten` | server/main.py:240-244 | A whitespace-only OCR result is reported, but as the rewrapped 500, not as 400. |
| `Upload.BlankTextIsServerError` | server/main.py:240-244 | For the OCR text " \n", the code as written answers 500. |
| `Upload.CheckOcrText` | server/main.py:240-244 | Reports an error exactly when every character of the OCR text is whitespace, and that error is 400 with the no-text detail. |
| `Upload.CheckBeforeGeneration` | server/main.py:220-244 | The intended composition, with the corrected OCR check. A guard error comes first and is returned as is. When the guards pass, the answer is exactly `CheckOcrText`'s. The request passes exactly when the key is set, the type starts with "image/" and the text has a non-space character. |
| `Upload.CheckBeforeGenerationAsWritten` | server/main.py:220-244 | The composition as written. A guard error comes first. When the guards pass, the answer is exactly `CheckOcrTextAsWritten`'s. The only 400 it can give is "File must be an image". |
| `Upload.DropPrefix` | server/main.py:274-277 | When the text starts with the prefix, the text is the prefix followed by the result. Otherwise the text is unchanged. The result is a slice of the text. |
| `Upload.DropSuffix` | server/main.py:278-279 | When the text ends with the suffix, the text is the result followed by the suffix. Otherwise the text is unchanged. The result is a slice of the text. |
| `Upload.StripFences` | server/main.py:271-280 | The cleaned reply is a contiguous slice of the original reply, never longer than it. |
| `Upload.DropJsonOpening` | server/main.py:274-275 | For a reply "```json" + x + "```", the first fence check leaves x + "```". |
| `Upload.DropClosing` | server/main.py:276-279 | When x does not open with "```", the two "```" checks applied to x + "```" give back x. |
| `Upload.StripFencesJsonBlock` | server/main.py:271-280 | "```json" + x + "```" comes back as exactly x when x has no whitespace at either end and does not itself open with "```". |

## Left out

- Password hashing: bcrypt's `hashpw` and `checkpw` (`server/auth.py:30-36`) are the parameters `hash` and `verify`. The random salt is not modelled, so `hash` is a fixed function.
- `checkpw` raising on a stored value that is not a bcrypt hash is not modelled. This happens after an update has stored a plain-text password, and it would give a 500. `verify` is a total predicate here.
- Token creation and decoding, and `get_current_user` (`server/auth.py:12-27`), depend on the jose library and the clock. They are reduced to `Auth`.
- Handlers.UpdateStudent: a field sent explicitly as JSON `null` is not modelled. It counts as set in the update, and the NOT NULL column refuses it at commit. An unset field is `None`.
- Handlers.StudentLogin: the constant `"message": "Login successful"` around the profile is not part of the modelled response; the same holds for `Handlers.ParentLogin`.
- Server.Registry.GetAllStudents: the order of rows returned by the database query is not modelled. Any order of the stored rows is allowed.
- Request-body validation by pydantic and FastAPI is not modelled beyond the email rewrite. This covers the 422 for a malformed body or an invalid email address. Login values of JSON types other than strings are left out too.
- Handlers.RegisterParent: the `EmailStr` rewrite (which lower-cases the domain, trims spaces and unwraps "Name <a@b>") is the uninterpreted parameter `normalize`. Its actual rules are not modelled, so the model does not say which emails normalise alike.
- OCR (Tesseract, PIL decoding) and the two text-generation calls (`server/main.py:234-270`) are external services. The OCR text is a parameter of `Upload.CheckOcrText`, and any exception they raise would become the same 500.
- Parsing of the generated questions (`json.loads`, the regex fallback and the placeholder question, `server/main.py:283-296`) relies on library behaviour and is not modelled.
- The `Summary` insert and its autoincrement id, and session commit, rollback and close (`server/main.py:230, 299-324`), are persistence plumbing. A commit that breaks a key constraint appears only as its 500 outcome, with the table unchanged.
- CORS, `.env` loading, table creation and routing (`server/main.py:22-41, 207-209`) are configuration. Concurrent requests are not modelled either.

## Findings

| source | as written | input that shows it | evidently intended | confidence | as-written member | corrected member |
|---|---|---|---|---|---|---|
| server/main.py:240-244 | The `HTTPException(400)` for an empty OCR result is raised inside the `try` at line 232. The `except Exception` at line 319 catches it and raises a 500 "Error processing image: 400: No text could be extracted ...". | an image whose OCR text is " \n" | A 400 bad-input error telling the client the image has no readable text. | high, not executed | `Upload.CheckOcrTextAsWritten` (shown by `Upload.BlankTextIsServerError`, composed in `Upload.CheckBeforeGenerationAsWritten`) | `Upload.CheckOcrText` (used by `Upload.CheckBeforeGeneration`) |
