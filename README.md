# Employee directory backend: authentication and repositories

A Dafny model of the logic in an Express/PostgreSQL backend for an employee
directory:

- **Authentication middleware** (`authenticateJWT`). It reads a bearer token
  from the `Authorization` header and attaches the identity it holds to
  `res.locals.user` when the token verifies. It never rejects a request.
- **Authorization guards**. `ensureLoggedIn`, `ensureAdmin` and
  `ensureCorrectUserOrAdmin` are decisions over that optional identity and the
  `:username` route parameter.
- **Token creation** (`createToken`). It projects a user to
  `{username, isadmin}` and signs it. The model proves the round trip: create a
  token, present it, and reach each guard with the expected decision.
- **User repository**. `authenticate`, `register`, `findAll`, `get`, `update`
  and `remove` run over a `users` table keyed by username. Hashing is
  abstract.
- **Employee repository**. `findAll` is a case-insensitive substring search
  over six columns. `get`, `update`, `remove`, `findBySkill` and `getSkills`
  run over an `employees` table, a `skills` table and the `employee_skills`
  association.

## How it is modelled

- **JavaScript values** (`Js`). A value is `Value`: undefined, null,
  booleans, integer numbers or strings, with JavaScript truthiness. A plain
  object is a map from property name to value. A request body that the code
  writes to is a `JsObject` holding its properties in insertion order.
- **The database** (`Database`). A table is a sequence of rows. The
  statements the models issue are functions on tables:
  - SELECT/DELETE with `col = $1`, which never matches NULL;
  - INSERT under a primary key;
  - ORDER BY in code-point order;
  - UPDATE with positional `$n` placeholders.

  The partial-update compiler (helpers/sql.js) is not part of this model.
  The model assumes that each supplied property becomes `column = $i` with
  `i` its position, and that the values come out in the same order. `UpdateRows` is the intended effect of such an update. The lemma
  `PartialUpdateAligned` proves that the statement the models build equals it
  for every input: the WHERE placeholder is numbered `values.length + 1` and
  the key is appended last.
- **Signing and hashing** (`Crypto`). `jwt.sign`/`jwt.verify` and
  `bcrypt.hash`/`bcrypt.compare` are function-valued parameters. Their laws are
  stated as `Sound()` predicates that the round-trip lemmas require:
  - a signed payload verifies to an object that extends it (jsonwebtoken
    adds `iat`);
  - a token has no white space at its ends;
  - `compare(p, hash(p))` holds.
- **The repositories**. Each repository has two parts:
  - functions ending in `On`, which state what each operation does to given
    tables;
  - a class (`User`, `Employee`) whose methods issue the same statements as
    the JavaScript and are proved to meet those functions.
- **Errors**. `UnauthorizedError`, `BadRequestError` and `NotFoundError` are
  kept with their messages. Any exception raised by the database or by a
  library is `ServerError` (status 500).

models/user.js and models/employee.js raise no error of their own for an
empty partial update, so an empty SET list is modelled as the database's
syntax error (ServerError). A search without a search string becomes
`ILIKE '%%'`, which skips a row whose six searched columns are all NULL;
`EmptySearchFindsEveryRow` states exactly that.

## Model

| member | source | states |
|---|---|---|
| `Text.StripBearer` | middleware/auth.js:14 | `/^[Bb]earer /` is removed once when the header starts with it; any other header is left whole |
| `Text.Trim` | middleware/auth.js:14 | the trimmed token has white space at neither end |
| `Text.TrimRemovesOnlySpace` | middleware/auth.js:14 | trimming drops only a white-space prefix and a white-space suffix |
| `Text.TrimIdempotent` | middleware/auth.js:14 | trimming twice is trimming once |
| `Text.ExtractToken` | middleware/auth.js:14 | the token has white space at neither end; it is the trimmed rest of the header after a `Bearer `/`bearer ` prefix, or the trimmed header when there is none |
| `Text.ExtractTokenOf` | middleware/auth.js:14 | a token with white space at neither end is recovered exactly from `"Bearer " + token` and from `"bearer " + token` |
| `Auth.ResolveIdentity` | middleware/auth.js:11-22 | the identity after the middleware is either the one before or exactly what `verify` returned for the extracted token |
| `Auth.AuthenticateJWT` | middleware/auth.js:9-24 | always continues with no error; `res.locals.user` ends as `ResolveIdentity` of its old value |
| `Auth.NoHeaderStaysAnonymous` | middleware/auth.js:11-13 | with no header, or an empty one, the identity is unchanged |
| `Auth.FailedVerificationStaysAnonymous` | middleware/auth.js:16-22 | when `verify` throws, the identity is unchanged |
| `Auth.EnsureLoggedIn` | middleware/auth.js:26-33 | admits iff a user is present; otherwise rejects with Unauthorized and no message |
| `Auth.EnsureAdmin` | middleware/auth.js:35-46 | admits iff a user is present and its `isadmin` is truthy; otherwise rejects with Unauthorized |
| `Auth.EnsureCorrectUserOrAdmin` | middleware/auth.js:48-58 | admits iff a user is present and either `isadmin` is truthy or `username` equals `req.params.username` (undefined when missing); otherwise rejects with Unauthorized |
| `Auth.AdminAdmitsEverywhere` | middleware/auth.js:26-58 | whenever `ensureAdmin` admits, the other two guards admit too |
| `Auth.AnonymousRejectedEverywhere` | middleware/auth.js:26-58 | an anonymous request is rejected by all three guards |
| `Crypto.SignedVerifies` | helpers/tokens.js:19 | under the signer's laws, a signed payload verifies to an object carrying every payload field |
| `Tokens.CreateToken` | helpers/tokens.js:13-20 | with a sound signer the token has no white space at either end and verifies to an object carrying the payload |
| `Tokens.Payload` | helpers/tokens.js:14-17 | the payload has exactly the keys `username` and `isadmin`; `isadmin` is the user's value when truthy, else `false` |
| `Tokens.TokenIgnoresOtherFields` | helpers/tokens.js:14-19 | users that agree on `username` and `isadmin` get the same payload, and so the same token from the time-free signer of this model; a password never reaches it |
| `Tokens.RoundTrip` | helpers/tokens.js:6-20 | presenting `Bearer`/`bearer` + `createToken(user)` identifies the request as that user; `ensureLoggedIn` admits, `ensureAdmin` admits iff `isadmin` is truthy, `ensureCorrectUserOrAdmin` admits iff `isadmin` is truthy or the usernames match |
| `Database.SelectWhere` | models/user.js:55-60 | `WHERE col = $1` returns exactly the table rows whose column equals the value, never more rows than the table |
| `Database.Find` | models/user.js:29 | returns a matching row's position, and none exactly when no row matches (NULL matches nothing) |
| `Database.SelectByKey` | models/user.js:103-117 | under a primary key, `WHERE key = $1` returns exactly the one row with that key, or no row |
| `Database.DeleteWhere` | models/user.js:154-161 | keeps exactly the rows that do not match, and the kept and selected rows together account for the table |
| `Database.DeleteNothing` | models/user.js:154-164 | a DELETE that matches nothing leaves the table unchanged |
| `Database.DeleteKeepsKey` | models/user.js:154-161 | deleting rows keeps the primary key intact |
| `Database.Insert` | models/user.js:68-79 | succeeds iff the new key is neither NULL nor taken, and then appends the row keeping the primary key |
| `Database.OrderBy` | models/user.js:95 | the result is sorted by the column in code-point order and is a permutation of its input |
| `Database.SqlForPartialUpdate` | models/user.js:129-133 | the i-th supplied property becomes the assignment of its translated column to `$(i+1)`, and its value the i-th parameter |
| `Database.RenamedByIdentity` | models/user.js:129-133 | a translation table that maps each name to itself, or an empty one, leaves the column names as given |
| `Database.OverwriteGet` | models/user.js:136-144 | after the SET list runs, a supplied column holds its new value (undefined as NULL) and every other column keeps its old one |
| `Database.ExecUpdate` | models/user.js:136-144 | the `UPDATE ... SET ... WHERE ... RETURNING` the models send (also models/employee.js:71-83), as PostgreSQL runs it with positional parameters: an empty SET list is an error, and a success keeps every row position and the key constraint; what it writes is stated by `PartialUpdateAligned` |
| `Database.UpdateRows` | models/user.js:129-147 | the reference partial update by key: an empty update is an error; a success keeps the key constraint, overwrites exactly the rows with the key with the supplied properties and leaves every other row as it was |
| `Database.PartialUpdateAligned` | models/user.js:134-144 | the UPDATE with WHERE placeholder `values.length + 1` and parameters `[...values, key]` behaves exactly as the intended update of the keyed row, error cases included |
| `Database.UpdateRowsNoMatch` | models/user.js:144-147 | an update matching no row changes nothing and returns no row |
| `Database.UpdateRowsHit` | models/user.js:144-145 | under a primary key the update overwrites only the keyed row and returns that row alone |
| `Database.UpdateKeepsKey` | models/user.js:129-144 | an update that does not write the key column cannot break the primary key |
| `UserModel.AuthenticateOn` | models/user.js:19-44 | succeeds iff a row has the username and the password matches its digest; the result has the public columns and no password; an unknown user gets UnauthorizedError("Invalid username/password") |
| `UserModel.User.Authenticate` | models/user.js:19-44 | the method's result is `AuthenticateOn` of the table |
| `UserModel.AuthenticateAt` | models/user.js:29-43 | a stored user whose digest matches the password authenticates to that row without its password |
| `UserModel.WrongPasswordLikeUnknownUser` | models/user.js:33-43 | a wrong password and an unknown username get the very same UnauthorizedError |
| `UserModel.NewRow` | models/user.js:66-78 | the inserted row has exactly the six columns of `users` |
| `UserModel.RegisterOn` | models/user.js:47-84 | registration succeeds iff the username is free, otherwise BadRequestError("Duplicate username: …") with the table unchanged; the table stays well formed; the result carries no password |
| `UserModel.User.Register` | models/user.js:47-84 | the method's result and new table are `RegisterOn` of the old table, and the class invariant holds |
| `UserModel.RegisterRejectsDuplicate` | models/user.js:55-64 | right after a successful registration, the same username is refused whatever else is supplied |
| `UserModel.RegisterThenAuthenticate` | models/user.js:19-84 | the registered password then authenticates the user and returns exactly what registration returned |
| `UserModel.FindAllOn` | models/user.js:87-99 | one row per user with the public columns only, sorted by username, a permutation of the users' public rows |
| `UserModel.User.FindAll` | models/user.js:87-99 | the method only delegates: its result is `FindAllOn` of the table, where the promises are stated |
| `UserModel.GetOn` | models/user.js:103-120 | succeeds iff the user exists and returns its public columns; otherwise NotFoundError("No user: …") |
| `UserModel.User.Get` | models/user.js:103-120 | the method's result is `GetOn` of the table |
| `UserModel.HashPassword` | models/user.js:125-127 | a truthy string password is replaced by its digest; a falsy one always succeeds and leaves the data alone; a truthy password that is not a string is an error (bcrypt rejects it); property names and order are kept |
| `UserModel.HashPasswordKeeps` | models/user.js:125-127 | hashing keeps the property names and every property other than the password |
| `UserModel.UpdateOn` | models/user.js:124-151 | the mutated `data` is `HashPassword` of the given one, and a hashing failure changes nothing; a failed update leaves the table unchanged; a successful one found the user and returns a row with exactly the public columns (the values are in `UpdateWritesUser`); the table stays well formed |
| `UserModel.UpdateRowsOnUsers` | models/user.js:144-147 | an executed update returns a row iff the user exists, changes nothing when it does not, and keeps the table well formed |
| `UserModel.User.Update` | models/user.js:124-151 | the method's result, new table and mutated `data` are `UpdateOn` of the old state |
| `UserModel.UpdateQueryOn` | models/user.js:129-150 | the query after hashing: a failure leaves the table unchanged, a success found the user and returns only its public columns; the table stays well formed |
| `UserModel.User.UpdateQuery` | models/user.js:129-150 | the statement built by `sqlForPartialUpdate` with `$(values.length + 1)` and `[...values, username]` gives `UpdateQueryOn` of the old table |
| `UserModel.UpdateStatementMeetsUpdateQuery` | models/user.js:129-147 | executing that positional statement is the reference keyed update of the users table |
| `UserModel.UpdateMissingUserNotFound` | models/user.js:144-147 | updating an absent user gives NotFoundError("No user: …") and changes nothing |
| `UserModel.UpdateWritesUser` | models/user.js:124-151 | for an update that does not change the username, a present user gets each supplied property in its column, keeps the other columns, the other users are kept, and the public columns of the new row are returned |
| `UserModel.UpdateRehashesPassword` | models/user.js:125-127 | the new password is stored as its digest and then authenticates the user |
| `UserModel.UpdateEmptyPasswordStoredVerbatim` | models/user.js:125-127 | an empty password skips hashing and is stored as the empty string |
| `UserModel.RemoveOn` | models/user.js:154-165 | succeeds iff the user exists, then deletes exactly that user's row; otherwise NotFoundError("No user: …") with the table unchanged |
| `UserModel.User.Remove` | models/user.js:154-165 | the method's result and new table are `RemoveOn` of the old table |
| `UserModel.RemoveForgetsUser` | models/user.js:154-165 | after removal, `get` and a second `remove` report NotFound for that username |
| `UserModel.RemoveKeepsOtherUsers` | models/user.js:154-165 | removal leaves every other user reading as before through `get` |
| `EmployeeModel.SearchTerm` | models/employee.js:35 | a missing or falsy `search` becomes the empty string; a string search is used as given |
| `EmployeeModel.ILike` | models/employee.js:38-43 | `col ILIKE '%term%'` holds exactly when the value is text and the lower-cased term occurs in the lower-cased value |
| `EmployeeModel.SearchHit` | models/employee.js:38-44 | a row is hit exactly when one of the six searched columns (not `employee_id`, not `ms_teams_link`) matches |
| `EmployeeModel.Search` | models/employee.js:36-44 | returns exactly the table rows in which one of the six searched columns contains the term, ignoring ASCII case |
| `EmployeeModel.FindAllOn` | models/employee.js:34-47 | `findAll` returns exactly the stored rows that the search matches, whole, and invents none |
| `EmployeeModel.Employee.FindAll` | models/employee.js:34-47 | the method only delegates: its result is `FindAllOn` of the table, where the promises are stated |
| `EmployeeModel.SearchIgnoresCase` | models/employee.js:38-43 | search strings that agree up to ASCII case return the same rows |
| `EmployeeModel.TeamsLinkNotSearched` | models/employee.js:38-43 | changing an employee's `ms_teams_link` never changes whether the search finds it |
| `EmployeeModel.EmptySearchFindsEveryRow` | models/employee.js:35-44 | with no search string, every row with a text-valued searched column is returned, and no other |
| `EmployeeModel.SearchReturnsStoredRows` | models/employee.js:36-46 | only stored rows are returned, and no row more often than it is stored |
| `EmployeeModel.GetOn` | models/employee.js:49-64 | succeeds iff the id exists and returns the eight columns of that row; otherwise NotFoundError("No employee found with id: …") |
| `EmployeeModel.Employee.Get` | models/employee.js:49-64 | the method's result is `GetOn` of the table |
| `EmployeeModel.UpdateOn` | models/employee.js:66-90 | a failed update leaves the table unchanged; a successful one found the employee and returns a row with exactly the eight columns (the values are in `UpdateWritesEmployee`); the table stays well formed |
| `EmployeeModel.UpdateRowsOnEmployees` | models/employee.js:83-88 | an executed update returns a row iff the employee exists, changes nothing when it does not, and keeps the table well formed |
| `EmployeeModel.Employee.Update` | models/employee.js:66-90 | the statement built with `$(values.length + 1)` and `[...values, id]` gives `UpdateOn` of the old table |
| `EmployeeModel.UpdateStatementMeetsUpdateOn` | models/employee.js:66-88 | executing that positional statement is the reference keyed update of the employees table |
| `EmployeeModel.UpdateMissingEmployeeNotFound` | models/employee.js:83-88 | updating an absent id gives NotFoundError("No employee found with id: …") and changes nothing |
| `EmployeeModel.UpdateWritesEmployee` | models/employee.js:66-90 | for an update that does not change `employee_id`, a present id gets each supplied property in its column, keeps the other columns, the other rows are kept, and the new row is returned |
| `EmployeeModel.RemoveOn` | models/employee.js:97-110 | succeeds iff the id exists, then deletes exactly that row and its associations; otherwise NotFoundError("No employee with id: …") with nothing changed |
| `EmployeeModel.Employee.Remove` | models/employee.js:97-110 | the method's result, employee table and association are `RemoveOn` of the old ones |
| `EmployeeModel.RemoveStatementsMeetRemoveOn` | models/employee.js:97-110 | the single `DELETE ... RETURNING employee_id`, together with the cascade on `employee_skills` that the model assumes, gives `RemoveOn` for every table |
| `EmployeeModel.RemoveForgetsEmployee` | models/employee.js:97-110 | after removal, `get`, a second `remove` and `getSkills` know nothing of the id |
| `EmployeeModel.RemoveKeepsOthers` | models/employee.js:97-110 | removal leaves every other employee reading as before through `get` |
| `EmployeeModel.RemoveKeepsOthersSkills` | models/employee.js:97-110 | removal leaves the skills of every other employee as they were |
| `EmployeeModel.FindBySkillOn` | models/employee.js:112-130 | returns exactly the employees that the association links to the skill, with their eight columns |
| `EmployeeModel.Employee.FindBySkill` | models/employee.js:112-130 | the method only delegates: its result is `FindBySkillOn` of the tables, where the promises are stated |
| `EmployeeModel.UnknownSkillFindsNobody` | models/employee.js:112-130 | a skill no employee is linked to gives an empty result, not an error |
| `EmployeeModel.GetSkillsOn` | models/employee.js:132-142 | returns exactly the id and name of each skill the association links to the employee |
| `EmployeeModel.Employee.GetSkills` | models/employee.js:132-142 | the method only delegates: its result is `GetSkillsOn` of the tables, where the promises are stated |
| `EmployeeModel.OwnSkillsNone` | models/employee.js:132-142 | an employee with no associations has no skills: an empty result, not an error |
| `EmployeeModel.CreateAsWritten` | models/employee.js:12-32 | `create` as written always fails and leaves the table unchanged |
| `EmployeeModel.CreateAsWrittenNeverSucceeds` | models/employee.js:12-32 | on every input where the intended `create` succeeds, the written one fails |
| `EmployeeModel.CreateOn` | models/employee.js:12-32 | the intended `create` succeeds iff the id is neither NULL nor taken, then appends the eight supplied columns and returns them |
| `EmployeeModel.Employee.Create` | models/employee.js:12-32 | the class's create performs the corrected insert: its result and new table are `CreateOn` of the old table, and the associations are unchanged |
| `EmployeeModel.CreateThenGet` | models/employee.js:12-64 | after creating an employee with a fresh id, `get` returns exactly the created row |

## Findings

| source | as written | input that shows it | evidently intended | confidence | as-written member | corrected member |
|---|---|---|---|---|---|---|
| models/employee.js:12-32 | `create(data)` passes undeclared identifiers (`employee_id`, `firstname`, …) as parameters, so it throws a ReferenceError before any query; the INSERT also has eight columns for seven placeholders, and RETURNING lacks a comma after `employee_id` | any call, e.g. `create({employee_id: 1, firstname: "A"})` on an empty table | insert the eight columns taken from `data` and return the new row | not executed | `EmployeeModel.CreateAsWrittenNeverSucceeds` | `EmployeeModel.CreateThenGet` |

`Employee.create` uses the corrected `CreateOn`.

## Left out

- `UserModel.UpdateWritesUser`: states only updates that do not change the username. A renaming update is modelled by `UpdateOn`, but its contents after the rename have no lemma.
- `EmployeeModel.UpdateWritesEmployee`: states only updates that do not change `employee_id`. A renaming update is modelled by `UpdateOn`, but its contents after the rename have no lemma.
- `EmployeeModel.Employee.Create`: performs the corrected insert (`CreateOn`), not the ReferenceError that models/employee.js:12-32 throws as written; the as-written behaviour is `CreateAsWritten`.
- HTTP routing, the application setup and the database connection (routes/, app.js, db.js). Route handlers are thin wrappers, and the JSON-schema validation of request bodies is an external collaborator.
- models/skill.js, models/departments.js and models/officeLocations.js are not part of this model. The `skills` table is read only by `getSkills`.
- The commented-out `applyToSkill` in models/user.js is not part of this model.
- Asynchrony. Each operation is one atomic step, so the race between `register`'s duplicate check and its INSERT is not modelled. The table's primary key reports a lost race as a ServerError.
- Logging (`console.log`, `console.error`, `console.assert`) is left out. `console.assert` only logs.
- bcrypt salts. `hash` is a fixed function of the password, and only `compare(p, hash(p))` is assumed of it. A salted hash would give different digests for one password.
- jsonwebtoken's claims other than the payload (`iat`, expiry) are not modelled. Verification is an abstract partial function, with no secret key.
- `Auth.EnsureLoggedIn`, `Auth.EnsureAdmin` and `Auth.EnsureCorrectUserOrAdmin` take the identity as an object. A JWT whose payload is a bare string is not modelled.
- Column types and casts. A value of the wrong type for its column is not rejected. Employee ids are integers, and the string route parameter is cast by PostgreSQL. The NotFound messages render the id as a decimal integer, while models/employee.js:60, 87 and 108 render the route string, so an id written `007` reads back as `7`.
- `ILIKE` wildcard characters (`%`, `_`) inside the search string are matched literally, and so is the escape character `\`, which PostgreSQL uses to escape the character after it. Case folding is ASCII only, and a searched column that is not text never matches.
- `findAll` of employees, `findBySkill` and `getSkills` return rows in table order; the SQL leaves their order unspecified.
- Text collation of `ORDER BY username` is code-point order (the "C" collation).
- The textual SQL is not modelled. `$n` placeholders are held as numbers, not rendered inside the SQL string.
- A parameter list longer than the placeholders it fills is not treated as an error.
- `UserModel.RegisterOn`: the `email` column is not treated as unique. The database schema is outside this model, so only the username key is enforced.
- `UserModel.User.Register` and `UserModel.AuthenticateOn`: username and password are strings. The model assumes its callers pass strings.
- JavaScript numbers are integers here. NaN and fractions do not occur.
- `Employee.remove` removes the employee's `employee_skills` pairs as a cascading foreign key would. The database schema is outside this model; the model assumes the foreign key cascades.
