# API_Validator identity service: a Dafny model

This project models the account logic of a small Express service, `index.js`.
The service registers accounts, checks login credentials and issues signed tokens.
Its state is two shared variables: the account list `users` and the next id, `userIdCounter`.
Four handlers act on that state:

- `POST /auth/register` validates the body against declarative rules. These are: a non-empty
  full name; a non-empty, well-formed email that no stored account already has; a password
  of at least eight characters containing a digit or a symbol; and an optional date of birth
  that must be a date. If any rule fails, it answers 400 and changes nothing. Otherwise it
  hashes the password with bcrypt, stores the record under the current counter value,
  increments the counter and answers 201.
- `POST /auth/login` finds the first account with that exact email and compares the password
  with its bcrypt digest. On success it answers 200 with a token signed over `{ id, email }`,
  to which jsonwebtoken adds an issued-at time (`iat`).
  Otherwise it answers 401 `Login Failed`.
- `GET /users` answers 404 when there are no accounts, and otherwise lists all of them in
  insertion order.
- `GET /users/:userId` parses the id with `parseInt`. It answers with the first account that
  has that id, or 404.

Layout:

- `builtins.dfy` (`Builtins`): `undefined` as `Option`, `Array.prototype.find` as `FindFirst`,
  and `parseInt` as a decimal digit-prefix parse.
- `accounts.dfy` (`Accounts`): the records, the request and response values, the foreign
  primitives (`Library`), lookups by email and id, and the store invariant.
- `validation.dfy` (`Validation`): `registrationValidationRules`, one function per field chain.
- `handlers.dfy` (`Handlers`): login, list and get as functions of the account list, and the
  record a registration builds. Also holds the lemmas relating handlers to each other.
- `server.dfy` (`Service`): class `Server`. Its fields are `users` and `userIdCounter`;
  `Register` updates them in place and the read-only handlers only read them.

bcrypt, jsonwebtoken and validator.js are foreign code. They appear as uninterpreted total
functions held in a `Library` value: `hash(password, salt)`, `compare(password, digest)`,
`sign(claims, secret)`, `isEmail` and `isDate`. bcrypt's random salt is an explicit argument
of `Register`. The only property assumed of these functions is `Sound(lib)`:
`compare(p, hash(p, salt))` holds for every `p` and `salt`. Only the lemmas that need it require it.

`Server.Valid()` is the store invariant, and the constructor and `Register` preserve it:

- `users[i].id == i + 1`;
- `userIdCounter == |users| + 1`;
- no two accounts share an email;
- every stored record satisfies the rules it was checked against.

The read-only handler methods have no `modifies` clause, so Dafny's framing guarantees they
change neither `users` nor the counter. Because every state change goes through these methods,
every sequence of handler calls after the constructor keeps the invariant.

Request bodies: a missing key is `None`. express-validator's standard validators read a
missing field as the empty string (`Text`). The custom uniqueness check gets the raw value,
and a missing value equals no stored email. Chains do not stop at their first failure, so the
400 detail lists every failed check, in chain order, as `(field, message)` pairs.

Strings are sequences of Unicode scalar values. validator's `isLength` counts a surrogate pair
as one character and does not count the variation selectors U+FE0E and U+FE0F.
`Validation.CountedLength` measures length the same way, so `"abcdef1"` followed by U+FE0F has length 7.
The class `[\d\W]` can be decided one code point at a time, because every non-ASCII code unit
and every non-ASCII code point falls outside `\w`.

## Model

| member | source | states |
|---|---|---|
| `Builtins.FindFirst` | index.js:72 | `find` yields the first position whose element satisfies the predicate, and yields none exactly when no element does |
| `Builtins.ParseInt` | index.js:99 | `parseInt` gives NaN exactly when no digit follows the optional sign; a negative result needs a leading `-`; on a sign followed only by digits it gives the signed value of those digits |
| `Builtins.ParseIgnoresTail` | index.js:99 | characters after a signed run of digits, starting with a non-digit, do not change what `parseInt` returns |
| `Builtins.ParseTrailingJunk` | index.js:99 | `parseInt("12abc")` is 12, so `GET /users/12abc` looks up id 12 |
| `Builtins.ParseDecimal` | index.js:99 | `parseInt` applied to the decimal rendering of a natural number gives that number back |
| `Accounts.IndexOfEmail` | index.js:25 | the lookup by exact email finds the first account with that email, and finds none exactly when no account has it |
| `Accounts.IndexOfId` | index.js:99 | the lookup by id finds the first account with that id, and finds none exactly when no account has it |
| `Validation.MatchesDigitOrSymbol` | index.js:36 | `/[\d\W]/` matches exactly when some character is a digit or lies outside `[A-Za-z0-9_]` |
| `Validation.FullNameErrors` | index.js:17 | every message is about `fullName`, and there is none exactly when the name is non-empty |
| `Validation.EmailErrors` | index.js:18-30 | every message is about `email`; there is none exactly when the email is non-empty, well-formed and unused; "Email is already registered" is present exactly when the submitted email equals a stored one |
| `Validation.CountedLength` | index.js:34 | the length `isLength` measures is the number of code points less the number of U+FE0E and U+FE0F |
| `Validation.PasswordErrors` | index.js:31-37 | every message is about `password`, and there is none exactly when the password policy holds (non-empty, counted length at least 8, a digit or symbol) |
| `Validation.DobErrors` | index.js:38-42 | every message is about `dob`, and there is none exactly when `dob` is missing or a date |
| `Validation.Validate` | index.js:16-43 | the error list is empty exactly when every rule holds; it cites the email as already registered exactly when some stored account has exactly that email; for each of `fullName`, `email`, `password` and `dob` it has no entry exactly when that field's rules hold |
| `Validation.PasswordRule` | index.js:31-37 | a password passes its chain exactly when its counted length is at least 8 and one of its characters is a digit or a non-word character |
| `Validation.PasswordExamples` | index.js:31-37 | "abcdefg1" passes; "abcdefgh", "short1" and "abcdef1" followed by U+FE0F fail |
| `Handlers.NewRecord` | index.js:55-62 | the stored record carries the given id and the digest in place of the password; name, email, bio and dob are as submitted |
| `Handlers.LookupEmail` | index.js:72 | a missing email finds nothing; otherwise the lookup finds the first account with exactly that email, and finds none exactly when no account has it |
| `Handlers.LoginAsWritten` | index.js:69-87 | an unknown email gives 401 `Login Failed`; the handler throws exactly when the email is known and no password is sent |
| `Handlers.MissingPasswordLeaks` | index.js:78 | with Ann registered, a password-less login as Ann throws, while one as an unknown user gets 401 |
| `Handlers.Login` | index.js:69-87 | every failure is the single 401 `Login Failed`; success happens exactly when the first account with that email exists and the password matches its digest, and the token is then `sign({id, email}, secret)` for that same first account |
| `Handlers.LoginCorrectsOnlyTheFault` | index.js:78-82 | the corrected login answers 401 where the written one throws, and agrees with it everywhere else |
| `Handlers.LoginSucceedsIff` | index.js:72-86 | with unique emails, login succeeds exactly when some account has that email and a matching digest, and the token is `sign({id, email}, secret)` for that account |
| `Handlers.LoginFailuresAlike` | index.js:74-82 | an unknown email and a known email with a wrong or missing password produce the identical reply, 401 `Login Failed` |
| `Handlers.ListUsers` | index.js:89-95 | 404 `User not found` exactly when there are no accounts; otherwise 200 `Success` with all accounts in insertion order |
| `Handlers.GetUser` | index.js:97-106 | 200 exactly when the id parses and some account has it, and the reply is then 200 `Success` carrying the first account with that id; otherwise 404 `User not found` |
| `Handlers.GetAssigned` | index.js:97-106 | with sequential ids, fetching the decimal form of any assigned id returns exactly the account given that id |
| `Handlers.GetNeverAssigned` | index.js:97-106 | with sequential ids, an id that does not parse or was never assigned gives 404 |
| `Handlers.LoginAfterRegister` | index.js:53-86 | after an accepted registration, logging in with the same email and password returns the token for the new account's id and email |
| `Handlers.SecondRegistrationRejected` | index.js:23-30 | registering again with an email that was just stored is rejected with "Email is already registered" |
| `Service.AppendKeepsInvariant` | index.js:55-64 | appending an accepted candidate's record under the next id keeps ids sequential, the counter one past the count, emails unique and records valid |
| `Service.Server.constructor` | index.js:11-12 | the store starts empty, with counter 1, and satisfies the invariant |
| `Service.Server.Register` | index.js:45-67 | a failed rule gives 400 `Validation Error` with the failed checks, and leaves `users` and the counter unchanged; otherwise it gives 201 `Success` with no data, appends exactly one record whose id is the old counter and whose password is the digest, increments the counter by one and leaves earlier records in place; it keeps the invariant |
| `Service.Server.Login` | index.js:69-87 | answers as `Handlers.Login` on the current accounts; it changes no state |
| `Service.Server.ListUsers` | index.js:89-95 | answers as `Handlers.ListUsers` on the current accounts; it changes no state |
| `Service.Server.GetUser` | index.js:97-106 | answers as `Handlers.GetUser` on the current accounts; it changes no state |

## Left out

- Express routing, `express.json()`, response objects and `app.listen` (index.js:1-9, 108-110): transport plumbing. Each handler returns a status, a message and an optional payload instead.
- bcrypt's internals: the random salt (an explicit argument here), the cost factor 10, and 72-byte truncation. `hash` and `compare` are uninterpreted, and `Sound` is their only property. The model does not show that a digest differs from the plaintext.
- jsonwebtoken: `sign` is uninterpreted and only the hardcoded secret is modelled. Token verification is not part of the source, so no property about verifying a token is stated.
- Handlers.Login: the token is `sign(claims, secret)` with no issue time. jsonwebtoken adds an `iat` claim read from the clock, so in the source two logins in different seconds get different tokens; the clock is not modelled.
- Service.Server.Register: ids and the counter are unbounded integers. In the source `userIdCounter` is a double, so past 2^53 accounts `userIdCounter++` (index.js:56) stops increasing and sequential ids and `counter == |users| + 1` no longer hold.
- validator.js's `isEmail` and `isDate`: uninterpreted predicates.
- The extra keys of each express-validator error entry (`type`, `value`, `path`, `location`): only the field and the message are kept.
- Body fields whose JSON value is not a string (numbers, arrays, objects, `null`): the model has only strings and absent keys. For such values, express-validator's string conversion and bcrypt's type checks are not modelled.
- Builtins.ParseInt: models only an optional sign followed by a decimal digit prefix. It leaves out `parseInt`'s skipping of leading white space, its `0x` hexadecimal prefix and its rounding of long digit strings to a double.
- Lone surrogates: a JSON string may carry an unpaired UTF-16 surrogate such as `"\ud800"`. `isLength` counts it as one character and `/[\d\W]/` matches it, but a Dafny `string` holds only Unicode scalar values, so such request fields cannot be represented and the model says nothing about them.
- Concurrency: each handler runs atomically. In the source, `await bcrypt.hash` (index.js:53) lets another registration with the same email run between the uniqueness check (index.js:25) and the `push` (index.js:64). The uniqueness invariant proved here holds only for sequential handling. The source is not race-free.
- What happens after a throw: the model records it as `Fault`. Whether Express answers 500, leaves the request open, or Node ends the process depends on versions outside this code.

## Findings

| source | as written | input that shows it | evidently intended | confidence | as-written member | corrected member |
|---|---|---|---|---|---|---|
| index.js:78 | `bcrypt.compare(password, user.password)` is called even when the body has no `password`, and bcrypt rejects a missing argument, so the handler throws | register Ann (`ann@x.com`), then `POST /auth/login` with body `{"email": "ann@x.com"}`; the same body with `bob@x.com` gets 401 | a missing password fails like a wrong one (401 `Login Failed`), so the reply does not reveal whether the email is registered | medium, not executed; relies on bcrypt rejecting an absent argument | `Handlers.LoginAsWritten`, `Handlers.MissingPasswordLeaks` | `Handlers.Login`, `Handlers.LoginFailuresAlike` |

The rest of the model, including `Service.Server.Login`, uses the corrected `Handlers.Login`.
