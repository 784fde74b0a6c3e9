# User directory of the users router

A Dafny model of the in-memory user directory behind `routes/users.js`: one
shared, append-only table of user records (`USERS`) and the four route
handlers over it.

- `POST /auth/register` validates the body, rejects an email the table already
  holds, hashes the password and appends one record whose id is the table's
  length plus one (`Users.Directory.Register`, a method on the class
  `Users.Directory` that holds the table as a `seq<User>`).
- `POST /auth/login` validates the body, finds the first record with the email
  and compares the password with its stored hash (`Users.Login`).
- `GET /` projects every record to its public view (`Users.List`).
- `GET /:userId` finds the first record with the parsed id (`Users.GetById`).

Each response except the list is an `Outcome` constructor (Created, LoggedIn, Found,
ValidationError, Conflict, Unauthorized, NotFound, InternalError); `Users.Status`
gives the HTTP status it is sent with. The library checks whose code lies in the validation and hashing libraries
(the email check and the ISO 8601 date check of the validation middleware,
bcrypt's `hash` and `compare`) are function-valued fields of the datatypes
`Validators` and `Bcrypt`, so every property holds whatever those libraries
compute. The salt bcrypt draws at random is a parameter of `Register`; a
library error is `None`.

The read-only handlers are functions of the table, so they cannot change it.
The table invariants are stated conditionally because the starting contents
come from another module: if emails are pairwise distinct before a register,
they are after; if every record's id is its position plus one before, the same
holds after.

Two details of the code shape the model:

- The password rule asks for a match of `/[\W]/` (routes/users.js:21), a
  character outside `[A-Za-z0-9_]`; an underscore is therefore not accepted
  as the required symbol.
- The table is loaded from `../items` (routes/users.js:4), so the
  constructor takes the starting records as a parameter.

## Model

| member | source | states |
|---|---|---|
| `Users.ContainsNonWordChar` | routes/users.js:21-22 | the pattern `/[\W]/` matches iff some character of the string lies outside `[A-Za-z0-9_]` |
| `Users.PasswordAccepted` | routes/users.js:16-22 | a password passes iff it has at least 8 characters and one outside `[A-Za-z0-9_]` (the not-empty check is implied) |
| `Users.RegisterErrors` | routes/users.js:9-28 | the failing fields are exactly: fullName when empty; email when empty or not an email (the email chain, `EmailAccepted`); password when it breaks the password rule; dob when empty or not ISO 8601; no other field |
| `Users.LoginErrors` | routes/users.js:31-44 | login flags exactly email and password, by the same rules as register |
| `Users.BioNeverValidated` | routes/users.js:9-28 | the register verdict does not depend on `bio` |
| `Users.RegisteredCredentialsPassLogin` | routes/users.js:31-44 | credentials that passed register's validator pass login's validator |
| `Users.Find` | routes/users.js:59 | `find` gives None iff no record matches, otherwise the position of the first matching record |
| `Users.List` | routes/users.js:132-143 | same length and order as the table; element i is record i's fullName, email, bio and dob (no id, no password), the projection `Public` that get-by-id also uses |
| `Users.ListAppend` | routes/users.js:136-141 | listing a table with a record appended lists the old table, then that record's public view |
| `Users.GetById` | routes/users.js:146-168 | an unparsed id, and only that, gives a validation error on the id alone; an id no record has gives not found; otherwise the public view of the first record with that id |
| `Users.GetByIdAtPosition` | routes/users.js:153-168 | when ids are positions plus one, id k+1 returns record k |
| `Users.GetByIdPastEnd` | routes/users.js:153-157 | when ids are positions plus one, the id one past the last gives not found |
| `Users.Login` | routes/users.js:95-129 | validation error iff a field fails; unauthorized (unknown email) iff no record has the email; the placeholder token iff the first record with the email compares equal; otherwise unauthorized (wrong password), which covers a compare error |
| `Users.LoginWithDistinctEmails` | routes/users.js:108-127 | with distinct emails, login's answer is decided by the hash of the one record with the email |
| `Users.AppendFreshEmailKeepsDistinct` | routes/users.js:59-71 | appending a record with an email the table lacks keeps emails pairwise distinct |
| `Users.AppendNextIdKeepsPositions` | routes/users.js:65-71 | appending a record with id length+1 keeps every id equal to its position plus one |
| `Users.AppendRegistered` | routes/users.js:65-91 | the record register appends keeps both invariants, is listed last, is found by its id when every id is its position plus one, and logs in with its password when the hash compares equal |
| `Users.Status` | routes/users.js:47-168 | a 2xx status iff the outcome is a success, 201 for a registration and 200 for a login or a found user; 400 for validation errors and a known email, 401 for login failures, 404 for not found, 500 for a hashing error |
| `Users.Directory.constructor` | routes/users.js:4 | the table starts as the records loaded from elsewhere |
| `Users.Directory.Register` | routes/users.js:47-92 | a validation error (with the failing fields) or a known email or a hashing error leaves the table unchanged; otherwise exactly one record is appended with id old length + 1, the request's fields and the hash in place of the password, and the answer holds id, fullName, email, bio and dob; both invariants are kept; the new record is then listed, found by id when every id is its position plus one, and accepted by login when the hash compares equal |

## Left out

- HTTP routing, the request and response objects, the JSON envelopes and the message texts: each response is an `Outcome` constructor and `Users.Status`.
- The internals of the email check and the ISO 8601 check of the validation library (routes/users.js:14, routes/users.js:26): they are the parameters `Validators.isEmail` and `Validators.isIso8601`.
- The error list the validation library returns (routes/users.js:53): modelled as the set of failing fields, without the messages, their order or repeated entries for one field.
- Body values that are not strings: the validators check a string form of each value, but the handler stores and compares the raw body values (routes/users.js:57-78); the model takes strings, with a missing field as the empty string (a missing `bio` is `None`), so the distinct-emails and equality results cover string bodies only. An email sent as an array such as `["ada@x.com"]` can pass the email chain, never equals a stored string under `===`, and so can be appended beside an existing `"ada@x.com"`; the model does not capture this.
- The length check of the validation library counts characters; that it skips the variation selectors U+FE0E and U+FE0F when counting is not modelled.
- bcrypt's algorithm, salt generation and work factor (routes/users.js:66, routes/users.js:114): `Bcrypt.hash` and `Bcrypt.compare` are parameters, the salt is a parameter of `Register`, and the work factor 10 is passed on as a constant.
- Users.Directory.Register: runs as one atomic step. The hashing callback (routes/users.js:66) lets another request run between computing the id (routes/users.js:65) and appending (routes/users.js:71), so two registrations can both pass the email check and get the same id; that interleaving is not modelled.
- `parseInt` (routes/users.js:147): `GetById` takes the already parsed id, `None` for NaN.
- The contents of `../items` (routes/users.js:4): not part of this model; the invariants are stated as conditions on the starting table.
- The unused `tokenData` value in login (routes/users.js:119): it affects no response.
