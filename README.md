# Login limiter and authenticate-or-register flow, in Dafny

This project models the two pieces of the Local Food Finder backend that run on
every `POST /api/user/auth` request, and proves what they promise:

- the **login attempt limiter** (`src/middlewares/loginLimiter.ts`): a
  process-wide dictionary from email to `{count, lastAttempt}`, a read-only
  check that answers 400 when the email is missing and 429 when the email has
  at least `MAX_ATTEMPTS` (2) failures with the last one less than
  `BLOCK_TIME` (300000 ms) ago, and the two writers `recordFailedLogin` and
  `resetFailedLogin`;
- the **authenticate-or-register handler** `handleAuth` and the profile update
  `updateProfile` (`src/controllers/userController.ts`), over an abstract user
  collection and the same limiter;
- the **route chain** `router.post('/auth', loginLimiter, handleAuth)`
  (`src/routes/userRoutes.ts`), which runs the check first.

Files:

- `login_limiter.dfy`: module `Optional` (an `Option` datatype for absent body
  fields) and module `LoginLimiter`. The dictionary is the field
  `failedLoginAttempts` of class `Limiter`; a ghost `history` of the writes
  (`Failed(email, at)`, `Reset(email)`) is kept beside it, and `Valid()` says
  the dictionary is the replay of that history. `Date.now()` is an explicit
  `now: int` parameter. Pure functions (`CheckAttempts`, `RecordFailure`,
  `ResetRecord`, `ApplyAll`) specify the methods; lemmas state the blocking
  window, the re-block after a lapse and what a stored record means.
- `user_controller.dfy`: module `UserController`. The user collection is a
  `map<string, User>` keyed by email (the schema makes the email unique), the
  database id is a counter `nextId`, and the collaborators (the request-body
  schema, `bcrypt.hash`, `bcrypt.compare`, `jwt.sign`) are uninterpreted total
  functions in a `Services` value. `HandleAuthSpec` is the handler as a function;
  class `Controller` holds the collection and the shared `Limiter`, and its
  methods `HandleAuth` and `UpdateProfile` change them in place.
- `user_routes.dfy`: module `UserRoutes`, the limiter-then-handler chain as a
  function `PostAuthSpec` and a method `PostAuth`, with the end-to-end
  two-wrong-passwords scenario.

The count is never reset when a block lapses (`loginLimiter.ts:15`,
`:29-30`). So a failure at t and another at t + BLOCK_TIME + 1 still combine,
and the check right after the second answers 429 (`SpacedFailuresStillBlock`).

## Model

| member | source | states |
|---|---|---|
| LoginLimiter.CheckAttempts | src/middlewares/loginLimiter.ts:8-24 | missing email (absent or "") gives MissingEmail; otherwise Blocked exactly when count >= 2 and now - lastAttempt < 300000; Allowed hands on the stored record, and an email with no record is allowed with {0, 0} |
| LoginLimiter.Limiter.Check | src/middlewares/loginLimiter.ts:8-24 | the middleware method reads the dictionary, writes nothing (no modifies clause) and answers exactly CheckAttempts |
| LoginLimiter.RecordFailure | src/middlewares/loginLimiter.ts:27-31 | the email's record becomes {old count + 1, now}, a missing record counting as 0; every other key is unchanged |
| LoginLimiter.ResetRecord | src/middlewares/loginLimiter.ts:34-36 | the email's record becomes {0, 0}, other keys unchanged, and afterwards the check for that email is never Blocked, at any time |
| LoginLimiter.Limiter.RecordFailedLogin | src/middlewares/loginLimiter.ts:27-31 | updates the dictionary in place to RecordFailure of the old one, appends Failed(email, now) to the history, keeps Valid() |
| LoginLimiter.Limiter.ResetFailedLogin | src/middlewares/loginLimiter.ts:34-36 | updates the dictionary in place to ResetRecord of the old one, appends Reset(email) to the history, keeps Valid() |
| LoginLimiter.Limiter.constructor | src/middlewares/loginLimiter.ts:4 | the dictionary starts empty, with an empty history |
| LoginLimiter.ApplyAllAppend | src/middlewares/loginLimiter.ts:30-35 | applying the writes in two batches is the same as applying them in one |
| LoginLimiter.ReplayAppend | src/middlewares/loginLimiter.ts:30-35 | the dictionary after a history extended by some writes is the earlier dictionary with those writes applied; the controller uses it to tie the limiter's state to its writes |
| LoginLimiter.ReplayCountsNonNegative | src/middlewares/loginLimiter.ts:29-30 | invariant: every stored count, after any history of writes, is non-negative |
| LoginLimiter.FailuresSinceOtherEvent | src/middlewares/loginLimiter.ts:30 | a write for another email leaves this email's surviving failures unchanged |
| LoginLimiter.FailuresSinceResetEvent | src/middlewares/loginLimiter.ts:35 | a reset wipes out every earlier failure of that email |
| LoginLimiter.FailuresSinceFailedEvent | src/middlewares/loginLimiter.ts:30 | a failure adds exactly one surviving failure for that email |
| LoginLimiter.ReplayRecordMeaning | src/middlewares/loginLimiter.ts:29-35 | after any history, the stored count is the number of failures since the email's last reset; a zero count goes with lastAttempt 0; a positive count goes with lastAttempt equal to the time of the most recent event for the email, which is a failure |
| LoginLimiter.TwoFailuresBlockWithinWindow | src/middlewares/loginLimiter.ts:15 | two failures in a row, the later at t2, give Blocked exactly when now - t2 < 300000 and Allowed otherwise: the window runs from the most recent failure |
| LoginLimiter.BlockLapses | src/middlewares/loginLimiter.ts:11-23 | since the check writes nothing, a block lapses by itself: every check from lastAttempt + BLOCK_TIME on is allowed |
| LoginLimiter.ReblockAfterLapse | src/middlewares/loginLimiter.ts:15 | the count is not reset when a block lapses: one further failure after the window makes the count at least 3 and blocks at once for the next five minutes |
| LoginLimiter.SpacedFailuresStillBlock | src/middlewares/loginLimiter.ts:15 | from no record, failures at t and at t + BLOCK_TIME + 1 still combine into a block |
| UserController.NewUser | src/models/user.ts:5-22 | a created user stores the bcrypt hash of the password, username "" and coordinates [0, 0] |
| UserController.HandleAuthSpec | src/controllers/userController.ts:8-40 | invalid input gives 400 and writes nothing; the limiter gets exactly one Failed(email, now) exactly when an existing user's password mismatches (401, store unchanged) and exactly one Reset(email) exactly on a successful login ("Login successful"); an unknown email is signed up with one new user ("Sign up successful") and no limiter write; existing users never change; the status is 400, 401 or 200 accordingly; nextId is kept for an existing user and grows by one on sign-up; the store invariant is kept; a success carries only the stored user's id and email and a token for that id |
| UserController.SignUpThenLogIn | src/controllers/userController.ts:18-33 | when the comparison accepts each password against its own hash, a sign-up with a password is followed by a successful login with it, for the same user summary, with no change to the store and one reset of the counter |
| UserController.LoginClearsBlock | src/controllers/userController.ts:27-29 | after a successful login the limiter allows that email at any later time, whatever its record was |
| UserController.Controller.HandleAuth | src/controllers/userController.ts:8-40 | the method's response, new collection and writes to the shared limiter are exactly those of HandleAuthSpec; Valid() is kept |
| UserController.UpdateRecord | src/controllers/userController.ts:47-53 | the updated record has the new username and coordinates [lng, lat] in that order; id, email and password hash are unchanged |
| UserController.WithoutPassword | src/controllers/userController.ts:54 | the returned user has the record's id, email, username and coordinates, and no password field |
| UserController.UpdateKeepsStoreValid | src/controllers/userController.ts:47-54 | updating one record keeps every user under its own email with a distinct id |
| UserController.Controller.UpdateProfile | src/controllers/userController.ts:42-60 | for a known id, exactly that user's record is replaced by UpdateRecord and the result is that record without its password; for an unknown id the result is null and nothing changes; the limiter is not touched |
| UserRoutes.PostAuthSpec | src/routes/userRoutes.ts:108 | 400 exactly when the email is missing, 429 (the only source of that status) exactly when the limiter blocks, and in both cases neither the store nor the limiter changes (so a blocked request cannot extend its block); otherwise the effect is exactly one handler call |
| UserRoutes.TwoWrongPasswordsThenBlocked | src/routes/userRoutes.ts:108 | a known email with no failures on record that sends a wrong password twice gets 401 twice, then 429 for every request, whatever the password, while now - t2 < 300000, and is let through from then on |
| UserRoutes.PostAuth | src/routes/userRoutes.ts:108 | the method runs the limiter's check and then, only if allowed, the controller; its effect is exactly PostAuthSpec |

## Left out

- The clock: `Date.now()` is the parameter `now`. The limiter's check and
  `recordFailedLogin` read the clock at two instants of one request; the model
  gives both the same `now`.
- Concurrency: requests are handled one after another; interleaved
  read-modify-write on the shared dictionary (lost updates) is not modelled.
- JavaScript object keys: the dictionary is a plain object, so keys such as
  `__proto__` or `constructor` would hit `Object.prototype`; the model uses a
  map with no such keys.
- Non-string `email` values in the body: the model takes an optional string;
  other JSON values are not modelled.
- The request-body schema `authSchema` (src/utils/validators is not part of
  this model): it is an uninterpreted predicate on a present email and
  password; an absent field is taken to fail it.
- bcrypt and JWT: `bcrypt.hash`, `bcrypt.compare` and `jwt.sign` are
  uninterpreted functions; the `JWT_SECRET` fallback and the token expiry are
  not modelled, nor is the bearer-token middleware that supplies `userId` to
  `updateProfile`.
- Services: `hash` and `sign` are deterministic functions here, while
  bcrypt salts each hash and a JWT embeds its issue time; nothing relates
  `hash` and `compare` except the assumption stated by `SignUpThenLogIn`.
- The database: MongoDB ids are a counter; `createdAt`/`updatedAt` timestamps
  are not modelled; the store or a library failing (the 500 "Server Error" and
  "Update failed" responses) is not modelled, including the case where the
  token signing fails after the counter was already reset.
- UserController.Controller.UpdateProfile: absent `username`, `lng` or `lat`
  fields are not modelled (they are given as a string and two reals); the
  GeoJSON `type: 'Point'` tag is implied, not stored.
- The nearby-spot search, the 2dsphere indexes, the OpenStreetMap fetch, server
  bootstrap, configuration, logging, Swagger and the other routes: I/O and
  a proximity query delegated to the database, outside this core.
