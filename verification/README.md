# grademark-api-ts core, modelled in Dafny

grademark-api-ts is a REST API for recording school grades. Users register and log in. Each user keeps semesters, each semester keeps subjects, and each subject keeps grades. This project models the part of the API below the HTTP routes:

- the four service classes (auth, semester, subject, grade), with their existence checks, name-uniqueness checks and the error each failure raises;
- the repositories that turn each call into an ORM query over the four tables;
- the error class hierarchy and its status codes;
- the error middleware that maps a thrown error to a response;
- the Joi schema that validates registration input.

How the pieces are laid out:

- `store.dfy` holds the database client's state: one `Database` object whose four tables are sequences of rows in table order. `Valid()` states the constraints the database enforces: unique ids, and unique username and email.
- `table.dfy` gives the meaning of the ORM's `findMany`, `findFirst`/`findUnique` and `update` over such a table.
- Each repository is a module. Its queries are functions over the rows; its `create`, `update` and `delete` are methods that change one table of the `Database`.
- Each service is a class holding the `Database`. Its methods return `Result<T, Thrown>`.
- `Thrown` is either an instance of one of the error classes or another built-in error. The only such error here is the `TypeError` that `registerUser` would throw on a null insert result.
- A row id generated by the database is a parameter (`newId`) of each create. An insert whose id is already taken yields nothing. This is what keeps the services' `ServerError` branches reachable.
- An `update` or `delete` whose where clause matches no row also yields nothing. The ORM throws in that case.
- bcrypt hashing, bcrypt comparison and JWT signing are uninterpreted function values held by `AuthService`.

The semester and grade services import the `1.semester` and `3.grade` repositories, and those files are not part of this model. The model uses `semester.repository.ts` and `grade.repository.ts` in their place. The auth service imports `auth.repository.ts`, and the subject service imports `2.subject.repository.ts`; both files are modelled.

Some repository methods that the services call appear in none of the files. For the auth and subject services this includes the very file they import, so the call fails as written (see "## Left out"):

- semester `getUniqueByName`;
- subject `getUniqueByName`;
- grade `getById`;
- user `getFirstByIdentifier`.

Each is specified from its call site. `getFirstByIdentifier` takes the first user whose email or username equals the identifier; this OR query is the one `src/repositories/repo.tests/0.auth.repository.test.ts:98-104` expects.

The legacy `subject.repository.ts` runs the same `getAllForSemester`, `getUnique`, `update` and `delete` queries as `2.subject.repository.ts`. Those are defined once, in `SubjectRepository`. `LegacySubjectRepository` holds only what differs: `createNew`, and a join that answers null for an absent subject.

## Model

| member | source | states |
|---|---|---|
| Errors.ErrorKind.StatusCode | src/utils/custom.error.ts:2-66 | CustomError, TeapotError and InvalidError have status 418, ConflictError 409, NotFoundError 404, ServerError 500, UnauthorizedError 403; each code belongs to exactly those classes |
| Errors.ErrorKind.Name | src/utils/custom.error.ts:6-62 | every class's `name` is its class name, ending in "Error"; only the base class is named "CustomError" |
| Errors.NamesIdentifyClasses | src/utils/custom.error.ts:6-62 | two classes have the same `name` exactly when they are the same class |
| Errors.NewError | src/utils/custom.error.ts:4-9 | a new error keeps its class; its message is the given one when non-empty and 'An error occurred' otherwise, so it is never empty |
| Errors.InstanceOfClasses | src/utils/custom.error.ts:13-66 | every error is an instance of CustomError, and otherwise of its own class only |
| Errors.Raise | src/utils/custom.error.ts:4-9 | a thrown error carries its class and its class's name, and keeps a non-empty message |
| ErrorMiddleware.ErrorHandler | src/middleware/error.middleware.ts:4-21 | the body is always {error: name, message}; Conflict, NotFound and Invalid errors get 409, 404 and 418; every other error gets 300; the status is always one of 300, 404, 409, 418 |
| ErrorMiddleware.RouteNotFoundHandler | src/middleware/error.middleware.ts:23-26 | the error passed on is a NotFoundError whose message is 'Route not found: ' followed by the URL |
| ErrorMiddleware.UnknownRouteAnswers404 | src/middleware/error.middleware.ts:10-15 | an unknown route is answered with 404 and the body {NotFoundError, 'Route not found: ' + URL} |
| ErrorMiddleware.IntendedErrorHandler | src/middleware/tests/error.middleware.test.ts:35-72 | a plain CustomError gets 418, a TypeError 400 and any other error 500, as the tests expect; every other error class gets its own status code, extending the CustomError case to the classes no test covers; the body is unchanged |
| ErrorMiddleware.HandlerSends300ToUnrecognisedErrors | src/middleware/error.middleware.ts:16-18 | ServerError, UnauthorizedError, a plain CustomError, a TypeError and a generic Error all get 300 from the handler; the tests expect 418 for the plain CustomError, 400 for the TypeError and 500 for the generic Error, and no test covers ServerError or UnauthorizedError |
| ErrorMiddleware.HandlersAgreeOnRecognisedClasses | src/middleware/error.middleware.ts:10-15 | for Conflict, NotFound and Invalid errors the handler as written and the intended one give the same response |
| Schemas.MatchesOneOrMore | src/utils/joi.schemas.ts:4-6 | a string matches `^[class]+$` exactly when it is non-empty and every character is in the class |
| Schemas.Split | src/utils/joi.schemas.ts:7-9 | splitting at a separator gives at least one part, and no part contains the separator |
| Schemas.JoinSplit | src/utils/joi.schemas.ts:7-9 | joining the parts of a split with the separator gives the string back |
| Schemas.SplitJoin | src/utils/joi.schemas.ts:7-9 | splitting the join of separator-free parts gives the parts back |
| Schemas.SplitConcat | src/utils/joi.schemas.ts:7-9 | splitting `a + sep + b` gives the parts of `a` followed by the parts of `b` |
| Schemas.ValidEmailShape | src/utils/joi.schemas.ts:7-9 | an accepted email is local@host.tld with one '@' (neither local nor host contains one), a non-empty local part and host, and tld one of com, net, de |
| Schemas.EmailAcceptedIffAllowedTld | src/utils/joi.schemas.ts:7-9 | an address local@host.tld made of non-empty segments is accepted exactly when tld is com, net or de |
| Schemas.CheckField | src/utils/joi.schemas.ts:4-11 | a field is accepted exactly when it is present and meets its rule: name non-empty over letters, digits and space; email as above; username 3 to 30 ASCII letters or digits; password at least 5 UTF-16 code units, as JavaScript counts `length`; a missing field is reported as required, an empty one as empty |
| Schemas.Utf16Length | src/utils/joi.schemas.ts:11 | the length `min(5)` compares lies between the number of characters and twice that number, and equals the number of characters exactly when none lies above U+FFFF |
| Schemas.AstralPasswordMeetsMinimum | src/utils/joi.schemas.ts:11 | a password of three characters above U+FFFF is six code units long, so the rule accepts it |
| Schemas.Validate | src/utils/joi.schemas.ts:3-11 | the input is accepted exactly when all four fields are; the validated value is the four fields; the error reported is the first failing field's violation, in the order name, email, username, password |
| Schemas.MissingOrEmptyFieldRejected | src/services/service.tests/0.auth.service.test.ts:64-82 | input with a missing field, or an empty string in any field, is rejected |
| Schemas.Message | src/services/auth.service.ts:10-12 | every violation has a non-empty message |
| Table.Filter | src/repositories/semester.repository.ts:15-21 | findMany keeps exactly the rows satisfying the where clause, in table order |
| Table.FindFirst | src/repositories/auth.repository.ts:8-14 | findFirst/findUnique answers nothing exactly when no row satisfies the where clause, and otherwise the first row that does |
| Table.Update | src/repositories/2.subject.repository.ts:41-50 | update replaces every matching row by the data clause applied to it and leaves every other row where it was |
| Table.SameKeySameRow | src/repositories/auth.repository.ts:16-30 | on a unique column, two rows with the same value are the same row |
| Table.FilterKeepsUniqueKeys | src/repositories/auth.repository.ts:54-60 | deleting rows keeps a unique column unique |
| Table.UpdateKeepsUniqueKeys | src/repositories/grade.repository.ts:31-42 | an update that does not change a column keeps it unique |
| Table.AppendKeepsUniqueKeys | src/repositories/auth.repository.ts:38-52 | inserting a row with a value no row has keeps the column unique |
| Table.FilterKeepsAll | src/repositories/semester.repository.ts:15-21 | findMany with a clause every row meets returns the whole table |
| Table.FilterAppend | src/repositories/semester.repository.ts:15-21 | findMany over a table with a row appended is findMany over the old rows, plus that row if it matches |
| Table.DeleteUndoesInsert | src/repositories/auth.repository.ts:38-60 | deleting the row just inserted, with a clause every other row meets, restores the table |
| AuthRepository.GetAll | src/repositories/auth.repository.ts:4-6 | getAll returns every user |
| AuthRepository.GetById | src/repositories/auth.repository.ts:8-14 | getById returns the user with that id, or nothing when there is none |
| AuthRepository.GetUniqueByUsername | src/repositories/auth.repository.ts:16-22 | returns the user with that username, or nothing when there is none |
| AuthRepository.GetUniqueByEmail | src/repositories/auth.repository.ts:24-30 | returns the user with that email, or nothing when there is none |
| AuthRepository.GetFirstByIdentifier | src/services/auth.service.ts:57-62 | returns the first user whose email or username is the identifier, or nothing when there is none |
| AuthRepository.Create | src/repositories/auth.repository.ts:38-52 | stores exactly the given name, email, username and password as one new row, unless the id, username or email is taken; constraints kept |
| AuthRepository.Delete | src/repositories/auth.repository.ts:54-60 | removes only the user with that id and returns it; nothing when absent |
| AuthRepository.DeleteUndoesCreate | src/repositories/auth.repository.ts:38-60 | deleting a user just created restores the user table |
| GradeRepository.GetAllForSubject | src/repositories/grade.repository.ts:4-10 | exactly the grades of that subject, possibly none |
| GradeRepository.CheckSubjectExistance | src/repositories/grade.repository.ts:12-18 | the subject with that id, or nothing when there is none |
| GradeRepository.GetById | src/services/grade.service.ts:19-24 | the grade with that id, or nothing when there is none |
| GradeRepository.Create | src/repositories/grade.repository.ts:20-29 | stores a grade with the given subject, grade, type and date, unless the id is taken |
| GradeRepository.Update | src/repositories/grade.repository.ts:31-42 | sets grade, type and date of the grade with that id and leaves its subject and every other row unchanged; nothing when absent |
| GradeRepository.Delete | src/repositories/grade.repository.ts:44-50 | removes only the grade with that id and returns it; nothing when absent |
| GradeRepository.DeleteUndoesCreate | src/repositories/grade.repository.ts:20-50 | deleting a grade just created restores the grade table |
| GradeRepository.UpdatedGradeIsFound | src/repositories/grade.repository.ts:31-42 | after an update, the grade found by id has the new grade, type and date and its old subject |
| SemesterRepository.Contains | src/repositories/semester.repository.ts:9 | the `contains` filter holds exactly when the search term occurs in the name at some position |
| SemesterRepository.SubstringOfTail | src/repositories/semester.repository.ts:9 | a term that is not a prefix of the name occurs in it exactly when it occurs in the name without its first character |
| SemesterRepository.GetManyBySearch | src/repositories/semester.repository.ts:6-13 | exactly the user's semesters whose name contains the search term |
| SemesterRepository.GetManyForUser | src/repositories/semester.repository.ts:15-21 | exactly the user's semesters |
| SemesterRepository.GetUnique | src/repositories/semester.repository.ts:23-29 | the semester with that id, or nothing when there is none |
| SemesterRepository.GetUniqueByName | src/services/semester.service.ts:31-35 | the user's semester with that name, or nothing when the user has none |
| SemesterRepository.SemesterWithSubjects.KeyCount | src/services/semester.service.ts:25 | a constant (four keys); its contract states that a fetched semester with its subjects attached has more than one key, so the key-count check at that line never fails on a present semester |
| SemesterRepository.GetUniqueWithSubjects | src/repositories/semester.repository.ts:31-40 | the semester with `subjects` set to all subjects of that semester; nothing when the semester is absent |
| SemesterRepository.Create | src/repositories/semester.repository.ts:42-49 | stores a semester with the given name and owner, unless the id is taken |
| SemesterRepository.Update | src/repositories/semester.repository.ts:51-61 | renames only the semester matching both id and owner and changes nothing else; nothing when no semester matches both |
| SemesterRepository.Delete | src/repositories/semester.repository.ts:63-70 | removes only the semester matching both id and owner; nothing when no semester matches both |
| SemesterRepository.DeleteUndoesCreate | src/repositories/semester.repository.ts:42-70 | deleting a semester just created, by its id and owner, restores the semester table |
| SubjectRepository.GetAllForSemester | src/repositories/2.subject.repository.ts:5-11 | exactly the subjects of that semester |
| SubjectRepository.GetUnique | src/repositories/2.subject.repository.ts:13-19 | the subject with that id, or nothing when there is none |
| SubjectRepository.GetUniqueByName | src/services/2.subject.service.ts:21-25 | the semester's subject with that name, or nothing when the semester has none |
| SubjectRepository.SpreadSubject.KeyCount | src/repositories/2.subject.repository.ts:25 | the spread record has a single key exactly when the subject was absent |
| SubjectRepository.GetUniqueWithGrades | src/repositories/2.subject.repository.ts:21-30 | always a record, never null: the subject's columns when it exists and none otherwise, plus all grades with that subject id |
| SubjectRepository.Create | src/repositories/2.subject.repository.ts:32-39 | stores a subject with the given name and semester, unless the id is taken |
| SubjectRepository.Update | src/repositories/2.subject.repository.ts:41-50 | renames only the subject with that id and changes nothing else; nothing when absent |
| SubjectRepository.Delete | src/repositories/2.subject.repository.ts:52-58 | removes only the subject with that id and returns it; nothing when absent |
| SubjectRepository.DeleteUndoesCreate | src/repositories/2.subject.repository.ts:32-58 | deleting a subject just created restores the subject table |
| SubjectRepository.RenamedSubjectIsFound | src/repositories/2.subject.repository.ts:41-50 | after a rename, the subject found by id has the new name and its old semester |
| LegacySubjectRepository.GetUniqueWithGrades | src/repositories/subject.repository.ts:22-31 | the subject with all its grades attached; nothing when the subject is absent |
| LegacySubjectRepository.CreateNew | src/repositories/subject.repository.ts:33-40 | stores a subject with the given name and semester, unless the id is taken |
| LegacySubjectRepository.JoinsAgreeExceptOnAbsentSubject | src/repositories/2.subject.repository.ts:21-30 | the spread join and the legacy join agree on a present subject; on an absent one the legacy join is null and the spread one a record holding only grades |
| AuthService.AuthService.ValidateInput | src/services/auth.service.ts:9-15 | returns the validated value exactly when the schema accepts the input, and otherwise raises InvalidError (418) with the schema's message |
| AuthService.AuthService.FindAllUsers | src/services/auth.service.ts:18-24 | NotFound 'No users found.' exactly when the table is empty, otherwise every user |
| AuthService.AuthService.RegisterUser | src/services/auth.service.ts:27-52 | Conflict on a taken username, else on a taken email, the store unchanged; otherwise one new user with the hashed password, returned with a token for its id; a failed insert is the TypeError of dereferencing null |
| AuthService.AuthService.LoginUser | src/services/auth.service.ts:55-81 | looks up by email, or by username when the email is empty; an unknown identifier or a wrong password raises InvalidError; success returns a token and only id, username and email |
| AuthService.LoginFailuresDifferOnlyInWording | src/services/auth.service.ts:60-67 | both login failures are InvalidErrors with status 418; only their messages differ ('or' versus 'of') |
| AuthService.AuthService.DeleteUser | src/services/auth.service.ts:84-92 | NotFound 'User not found!' with the store unchanged exactly when the id is absent; otherwise removes exactly that user and returns it as it was |
| SemesterService.SemesterService.GetAllForUser | src/services/semester.service.ts:5-21 | the user's semesters, narrowed by substring when a non-empty search term is given; NotFound, with the message of the branch taken, exactly when there is none |
| SemesterService.SemesterService.GetUniqueByIdWithSubjects | src/services/semester.service.ts:23-29 | NotFound 'Semester not found.' exactly when the id is absent; otherwise the semester with all its subjects |
| SemesterService.SemesterService.Create | src/services/semester.service.ts:31-43 | Conflict when the user has a semester of that name, ServerError when the insert yields nothing, otherwise the new semester; keeps semester names unique per user |
| SemesterService.SemesterService.Update | src/services/semester.service.ts:45-57 | NotFound for an absent id, ServerError when another user owns it, otherwise a rename with no name check |
| SemesterService.OwnedLookupAgrees | src/repositories/semester.repository.ts:51-70 | with unique ids, the row matching both id and owner is the row with that id when its owner matches, and none otherwise |
| SemesterService.UpdateCanDuplicateSemesterNames | src/services/semester.service.ts:45-57 | renaming one of a user's semesters to the name of another leaves the user with two semesters of that name |
| SemesterService.SemesterService.Delete | src/services/semester.service.ts:59-71 | NotFound for an absent id, ServerError when another user owns it, otherwise removes it and returns it as it was |
| SubjectService.SubjectService.GetAllForSemester | src/services/2.subject.service.ts:5-11 | NotFound 'No subjects found for this semester.' exactly when the semester has no subjects, otherwise exactly its subjects |
| SubjectService.SubjectService.GetUniqueByIdWithGrades | src/services/2.subject.service.ts:13-19 | never raises: an absent subject yields a record with no subject columns |
| SubjectService.SubjectService.GetUniqueByIdWithGradesChecked | src/services/service.tests/2.subject.service.test.ts:46-50 | NotFound 'Subject not found.' exactly when the id is absent; otherwise the subject with all its grades |
| SubjectService.SubjectService.Create | src/services/2.subject.service.ts:21-31 | Conflict only when the same semester has a subject of that name, ServerError when the insert yields nothing, otherwise the new subject; keeps subject names unique per semester |
| SubjectService.SubjectService.Update | src/services/2.subject.service.ts:33-47 | NotFound for an absent id; Conflict only when the name belongs to a different subject of the same semester; otherwise a rename; keeps subject names unique per semester |
| SubjectService.NoClashKeepsNamesUnique | src/services/2.subject.service.ts:38-42 | a rename that the name check lets through keeps subject names unique per semester |
| SubjectService.OwnNameNeverClashes | src/services/2.subject.service.ts:38-41 | with unique names, the name lookup for a subject's own name finds that subject, so renaming it to its own name passes the check |
| SubjectService.SubjectService.Delete | src/services/2.subject.service.ts:49-59 | NotFound exactly when the id is absent; otherwise removes that subject and returns it as it was; keeps names unique |
| GradeService.GradeService.GetAllForSubject | src/services/grade.service.ts:5-11 | NotFound 'No grades found for this subject.' exactly when the subject has no grades, otherwise exactly its grades |
| GradeService.GradeService.Create | src/services/grade.service.ts:13-17 | no check of the subject: the insert succeeds whenever the id is free, and a failed insert is returned as nothing rather than raised |
| GradeService.GradeService.Update | src/services/grade.service.ts:19-29 | NotFound with the store unchanged for an absent id; otherwise the grade with new grade, type and date and its old subject |
| GradeService.GradeService.Delete | src/services/grade.service.ts:31-41 | NotFound exactly when the id is absent; otherwise removes exactly that grade and returns it |

## Left out

- Routers, the `auth` and `apikey` middlewares, Express dispatch and the response envelope: request plumbing with no business rule. `errorHandler` is modelled as a mapping only; with three parameters Express would not register it as an error handler.
- bcrypt and JWT: hashing, password comparison and token signing are uninterpreted functions. The `JWT_SECRET` environment check is environment I/O and is not modelled.
- `getUniqueByIdentifier` in `auth.repository.ts` passes a bare string as the where clause and has no meaning to model.
- Timestamps, foreign keys, cascading deletes and concurrency. Each service call is atomic, so the check-then-insert race is not modelled.
- Dates are opaque strings.
- Tables are sequences in insertion order rather than maps from id to row, because `findFirst` depends on row order. Ids are unique by `Database.Valid()`.
- Schemas.ValidEmail: Joi's full address grammar (section 3.4.1 of RFC 5322) is not modelled. The rule checks one '@', a non-empty local part, at least two non-empty domain segments and the TLD allow-list. The TLD is compared case-sensitively, while Joi compares it case-insensitively.
- Schemas.Validate: unknown keys and non-string values are not modelled. Only the first violation is reported (Joi's default `abortEarly`).
- Schemas.Message: the wording of the messages follows Joi's templates only approximately.
- SemesterRepository.SemesterWithSubjects.KeyCount: counts the three modelled columns plus `subjects`; `createdAt`/`updatedAt` are not modelled.
- AuthService.AuthService.LoginUser: `auth.service.ts:3` imports `auth.repository.ts`, which has no `getFirstByIdentifier` (only `getUniqueByIdentifier` at `src/repositories/auth.repository.ts:32-36`), so as written the call at `auth.service.ts:59` throws the TypeError "repo.getFirstByIdentifier is not a function". The model gives the lookup the meaning `src/repositories/repo.tests/0.auth.repository.test.ts:98-104` expects.
- SubjectService.SubjectService.Create: `2.subject.service.ts:1` imports `2.subject.repository.ts`, which has no `getUniqueByName`, so as written the call at `2.subject.service.ts:22` throws the same kind of TypeError. The model gives the lookup the meaning `src/services/service.tests/2.subject.service.test.ts:56-126` expects.
- SubjectService.SubjectService.Update: the same holds for the `getUniqueByName` call at `2.subject.service.ts:38`.
- GradeService.GradeService.Create: `src/services/service.tests/3.grade.service.test.ts:55-61` expects a ServerError when the insert yields nothing. The code returns the null result, and the model follows the code.
- SubjectService.SubjectService.Update: the ServerError 'Subject not found or failed to update.' cannot occur here. After the existence check, the update always finds its row, since each call is atomic.
- SubjectService.SubjectService.Delete: the same holds for 'Failed to delete subject.'.

## Findings

| source | as written | input that shows it | evidently intended | confidence | as-written member | corrected member |
|---|---|---|---|---|---|---|
| src/middleware/error.middleware.ts:10-18 | only Conflict, NotFound and Invalid errors keep their status; every other error is sent with 300 | a ServerError, or a TypeError, reaching the handler is answered with status 300 | 418 for a plain CustomError, 400 for a TypeError and 500 for a generic Error, as `src/middleware/tests/error.middleware.test.ts:35-72` pins; for ServerError and UnauthorizedError, which no test covers, their own status, extended from the CustomError case | high; not executed | ErrorMiddleware.HandlerSends300ToUnrecognisedErrors | ErrorMiddleware.IntendedErrorHandler |
| src/repositories/2.subject.repository.ts:24-25 | `{...subject, grades}` with a null `subject` yields a record holding only `grades`, which is not null, so the service's NotFound check at `src/services/2.subject.service.ts:15` never fires | `getUniqueByIdWithGrades` with an id no subject has answers a record holding only `grades` | NotFound 'Subject not found.', as `src/services/service.tests/2.subject.service.test.ts:46-50` expects | medium; not executed | SubjectService.SubjectService.GetUniqueByIdWithGrades | SubjectService.SubjectService.GetUniqueByIdWithGradesChecked |
