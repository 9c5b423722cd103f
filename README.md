# Account service model

A Dafny model of the account service of a small user-management backend. The
service lives in `controllers/userController.js`. It provides:

- an email syntax check;
- registration, with ordered field checks and an optional referral check;
- login with bcrypt comparison and token issuance;
- listing and lookup by id;
- a sparse-patch update and a delete over a shared user table.

Modules:

- `Wrappers`: `Option`.
- `Credentials`: bcrypt as a symbolic digest. `Hash(password)` gives a
  `Digest`, and `Matches(password, digest)` stands for `bcrypt.compare`. As in
  bcrypt, only the first 72 bytes of a password's UTF-8 encoding count: a
  password shorter than that matches its own digest and no other, and a longer
  one also matches every password that shares those 72 bytes. A stored password
  has type `Digest`, never `string`, so the plaintext cannot be stored.
- `EmailFormat`: `validateEmail`. The regular expression
  `^[^\s@]+@[^\s@]+\.[^\s@]+$` is run as a seven-state automaton (`Step`, `Run`)
  over the lower-cased input. The lemmas prove that the automaton accepts
  exactly the strings of the pattern's shape (`IsEmailShaped`).
- `Users`: the user table as a class `UserStore` holding a `map<Id, User>`.
  Its methods stand for the Prisma calls the handlers make. The store keeps
  `id` as primary key and `email` unique: `Valid()`.
- `UserController`: one method per handler. The methods make the same checks
  in the same order and return early in the same places. Each writing handler
  is proved equal to an outcome function of the old table (`RegisterOutcome`,
  `UpdateOutcome`, `DeleteOutcome`). Each reading handler is proved equal to a
  response function of the table (`LoginOutcome`, `LookupOutcome`), or states
  its result directly (`GetAllUsers`).
- `AccountProperties`: lemmas about those outcome functions. They cover check
  order, store unchanged on failure, exactly one record added on success,
  referral rules, register-then-login, sparse update, and delete-then-lookup.

Parameters stand in for what the service takes from outside. `freshId` is the
`uuid()` of registration. `secret` is `process.env.JWT_SECRET`. `key` is the
value update and delete pass to the store, `parseInt(id)` in the service.

In three places the model follows the code as written:

- Update and delete have no 404 branch. A missing record reaches the
  catch-all and answers 500.
- Update and delete look records up by `parseInt(id)`, but registration keys
  records by a uuid string. The model takes the key as a parameter and does not
  decide what `parseInt` makes of a uuid.
- Update stores a new email without the format check registration applies
  (`UpdateSkipsEmailFormat`).

Decisions where the code relies on library behaviour:

- A field is "missing" when it is absent or `""` (`Truthy`). A whitespace-only
  string counts as present.
- Login with no email answers 500, because Prisma refuses a unique lookup
  without a key.
- Login with no password, for a known email, answers 500, because bcrypt
  refuses to compare a missing password.
- An unset or empty signing secret answers 500, because `jwt.sign` throws.
- A create fails, and registration answers 500, when the fresh id or the
  email is already in the table.
- An update fails, and answers 500, when its new email belongs to another
  record.

## Model

| member | source | states |
|---|---|---|
| `Credentials.Hash` | controllers/userController.js:48 | the digest stored for a password has cost 10, matches that password, and matches exactly the passwords whose first 72 UTF-8 bytes are the same |
| `Credentials.ShortPasswordMatchesOnlyItself` | controllers/userController.js:91 | `bcrypt.compare` against the digest of a password shorter than 72 bytes accepts that password and nothing else |
| `Credentials.LongPasswordIgnoresTail` | controllers/userController.js:91 | once a password fills 72 bytes, anything appended to it still matches its digest |
| `Credentials.DistinctPasswordsShareDigest` | controllers/userController.js:91 | two different 73-character passwords sharing their first 72 characters match the same digest |
| `EmailFormat.StartAccepts` | controllers/userController.js:18 | the automaton for the pattern accepts a string exactly when it has the shape `local@domain.tld`: three non-empty runs free of whitespace and `@` |
| `EmailFormat.ValidEmailIsShape` | controllers/userController.js:17-20 | `validateEmail(s)` holds iff `s` has the shape `local@domain.tld`, both directions |
| `EmailFormat.ValidEmailCaseInsensitive` | controllers/userController.js:19 | lower-casing the input first never changes the verdict of `validateEmail` |
| `EmailFormat.ValidEmailConsequences` | controllers/userController.js:18 | a valid email has no whitespace, exactly one `@`, and a `.` after the `@` that is not the last character |
| `EmailFormat.NoAtSignInvalid` | controllers/userController.js:17-20 | a string without `@` is never a valid email |
| `EmailFormat.ValidEmailFromParts` | controllers/userController.js:18 | any three non-empty runs joined as `local@domain.tld` pass the check |
| `Users.WithEmail` | controllers/userController.js:54-56 | the unique-email lookup finds a record iff some stored record has that email, and the record it finds is stored under its own id with that email |
| `Users.WithEmailFindsOwner` | controllers/userController.js:84 | with unique emails, looking up a stored record's email returns that record |
| `Users.UserStore.Create` | controllers/userController.js:68-70 | `create` adds the record under its id exactly when neither its id nor its email is taken; otherwise the table is unchanged |
| `Users.UserStore.FindById` | controllers/userController.js:122-124 | `findUnique` by id returns the stored record iff the id is present |
| `Users.UserStore.FindByEmail` | controllers/userController.js:84 | `findUnique` by email returns the one record with that email, or nothing |
| `Users.UserStore.FindMany` | controllers/userController.js:109 | `findMany` returns every stored record exactly once and nothing else |
| `Users.UserStore.Update` | controllers/userController.js:154-157 | `update` writes the patch over the keyed record iff it exists and any new email is not another record's; otherwise nothing changes |
| `Users.UserStore.Delete` | controllers/userController.js:169-171 | `delete` removes the keyed record and returns it iff it exists; otherwise nothing changes |
| `UserController.CreateOutcome` | controllers/userController.js:68-76 | a create keeps ids and emails unique in the table, and answers 201 with the record or the catch-all 500 |
| `UserController.RegisterOutcome` | controllers/userController.js:22-77 | registration keeps ids and emails unique in the table |
| `UserController.CreateUser` | controllers/userController.js:22-77 | the handler's response and new table are those of `RegisterOutcome` on the old table |
| `UserController.LoginUser` | controllers/userController.js:79-105 | the handler answers `LoginOutcome` on the table and does not write the store |
| `UserController.GetAllUsers` | controllers/userController.js:107-115 | 200 with every stored record exactly once and nothing else; the store is not written |
| `UserController.GetUserById` | controllers/userController.js:117-135 | 200 with the stored record iff the id is present, otherwise 404 "User not found"; the store is not written |
| `UserController.UpdateOutcome` | controllers/userController.js:137-164 | an update keeps ids and emails unique in the table |
| `UserController.UpdateUser` | controllers/userController.js:137-164 | the handler builds the sparse patch field by field and its response and new table are those of `UpdateOutcome` |
| `UserController.DeleteOutcome` | controllers/userController.js:166-177 | a delete keeps ids and emails unique in the table |
| `UserController.DeleteUser` | controllers/userController.js:166-177 | the handler's response and new table are those of `DeleteOutcome` |
| `AccountProperties.RegisterChecksInOrder` | controllers/userController.js:28-42 | missing name wins over everything, then missing email, then invalid format, then missing password; an invalid email with no password reports the format error |
| `AccountProperties.RegisterFailureKeepsStore` | controllers/userController.js:28-76 | registration answers 201, 400 or 500; every non-201 answer is an error and leaves the table unchanged; 500 "Error creating user" comes exactly when all checks pass but the fresh id or the email is taken |
| `AccountProperties.RegisterSucceedsWhen` | controllers/userController.js:28-72 | registration succeeds iff the field checks pass, a requested referral names a stored user, and neither the fresh id nor the email is taken |
| `AccountProperties.RegisterSuccessAddsRecord` | controllers/userController.js:44-49 | on 201 the table gains exactly one record, under the fresh id, with the given name and email and `Hash(password)`, which matches the password, and only it when it is shorter than 72 bytes; nothing else changes |
| `AccountProperties.ReferrerMatchesStoredUser` | controllers/userController.js:54-59 | the referral lookup succeeds iff some stored user has exactly the referral email and name |
| `AccountProperties.ReferralMustNameStoredUser` | controllers/userController.js:52-66 | with both referral fields, 400 "Referred user does not exist" iff no stored user has that email and exactly that name; on 201 the referrer was stored and the record carries both fields |
| `AccountProperties.PartialReferralIgnored` | controllers/userController.js:52 | with either referral field missing, the outcome equals that of a request with no referral, and a created record has no referral fields |
| `AccountProperties.DuplicateEmailRejected` | controllers/userController.js:68-76 | a second registration with an email already registered never answers 201 and leaves the table unchanged; if it passes the field and referral checks it answers 500 "Error creating user" |
| `AccountProperties.LoginDecision` | controllers/userController.js:84-100 | unknown email gives 404; known email with a non-matching password gives 401; otherwise 200 with only a token, signed over the whole stored record |
| `AccountProperties.RegisterThenLogin` | controllers/userController.js:48 | after a successful registration, login with the same email and password answers 200 with a token for the new record |
| `AccountProperties.UpdateMissingKeyFails` | controllers/userController.js:154-163 | an update answers 200 iff the store accepts the patch; otherwise, in particular for a missing key, it answers 500 and leaves the table unchanged |
| `AccountProperties.UpdateChangesOnlySuppliedFields` | controllers/userController.js:143-157 | a successful update changes only fields supplied non-empty, stores a supplied password as its hash, and leaves id, referral fields and all other records unchanged |
| `AccountProperties.UpdatePasswordOnly` | controllers/userController.js:148-151 | an update with only a password changes exactly the stored hash, as a lookup shows |
| `AccountProperties.UpdateSkipsEmailFormat` | controllers/userController.js:147 | update accepts "not-an-email", which `validateEmail` rejects |
| `AccountProperties.DeleteRemovesExactlyKey` | controllers/userController.js:166-177 | delete answers 200 iff the key is present and then removes exactly that record, after which a lookup answers 404; a missing key answers 500 and changes nothing |
| `AccountProperties.HandlersKeepReferralsPaired` | controllers/userController.js:64-65 | registration, update and delete keep every record's referral fields both present or both absent |

## Left out

- Express setup, CORS, logging middleware, body parsing and `listen`
  (`index.js`), and the route table (`routes/userRoute.js`): HTTP plumbing.
  Each handler is a method taking the already-parsed body fields.
- `utils/GenerateJWTKey.js`: random key generation and writing to `.env`.
- Passwords containing the character U+0000, which a C implementation of
  bcrypt may treat as the end of the key. `Key` keeps every byte up to the
  72nd.
- bcrypt salting: `Hash` is deterministic. The model does not capture that two
  hashes of one password differ.
- JWT signing and the one-hour expiry: a token is the term
  `Jwt(claims, secret)`. As in the service, the claims are the whole stored
  record, password digest included.
- `uuid()`: the fresh id is the parameter `freshId`.
- `parseInt(id)` in update and delete: the key is a parameter. The model does
  not decide which uuid strings, if any, it can reach.
- Failures of the store itself (connection loss and the like). Because of
  this, the 500 branches of `getAllUsers` ("Error fetching users") and
  `getUserById` ("Error fetching user") cannot be reached in the model.
- Body fields that are not strings (numbers, objects, `null`), and the
  `String(email)` conversion they would go through. Fields are optional strings.
- `EmailFormat.ValidEmail`: lower-cases ASCII letters only. JavaScript's
  `toLowerCase` maps all of Unicode and works on UTF-16 code units, while a
  Dafny `char` is a Unicode scalar value.
- A request without a body: `loginUser` unpacks the body before its `try`,
  so that failure escapes the handler. Bodies are assumed present.
- `console.log`, `console.error`, `dotenv`, and async scheduling. Every
  handler runs to completion before the next.
