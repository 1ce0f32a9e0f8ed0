# Producer/consumer token exchange: login checks, one-time codes and the token table

This project is a Dafny model of the three sequential pieces of logic in the
producer/consumer mobile-app backend and its consumer client.

- **Token table** (`TokenStore`, tokens.dfy). The `tokens` table has an
  auto-increment `id`, a `timestamp`, a `latitude`, a `longitude` and a
  `displayed` flag that defaults to false.
  - `POST /storeToken` inserts one row.
  - `GET /getTokens` runs two statements. It SELECTs the undisplayed rows, then
    UPDATEs every undisplayed row to displayed, then answers the selected rows.
  - The table is an in-memory class, `TokenTable`, holding the rows and the
    AUTO_INCREMENT counter. Its methods are proved against the specification
    functions `AfterStore`, `Undisplayed` and `AfterClaim`.
  - A sequence of requests, each run as one step (`Run`, `Deliveries`), is
    used to state exactly-once delivery.
  - A sequence of single statements (`Interleave`) shows what happens when
    another request's statements run between a claim's SELECT and its UPDATE.
    With nothing in between, it agrees with `Deliveries`.
- **One-time-code login** (`UserModel`, users.dfy, and `OtpAuth`, otp_auth.dfy).
  The `users` table holds rows of email, code and expiry.
  - Sending a code draws a number in [100000, 999999] and writes it out in
    decimal. It stores the code with an expiry of `now + 300000` ms. For a new
    email it inserts a row; for a known email it updates that email's rows.
  - Verifying is a read-only query. It looks for a row with that email, an
    equal code and an expiry after `now`, and answers 400 when there is none.
  - The controller (`authController.js` with `User.js`) and the inline
    handlers of `server.js` contain the same logic, so one model covers both.
  - The current time is a parameter, in milliseconds.
- **Login input checks** (`LoginValidation`, login_validation.dfy, on top of
  the JavaScript string primitives in `JsText`, jstext.dfy).
  - Contact: blank is rejected. A contact containing `@` must match
    `^[^\s@]+@[^\s@]+\.[^\s@]+$`. Any other contact must be exactly ten ASCII
    digits.
  - Name: after trimming it must be at least two UTF-16 code units long.
  - The send and verify buttons check these in a fixed order before sending
    any request.
  - The email regular expression is modelled twice: as a decision on the shape
    of the string, and as the language of the expression. A lemma proves that
    the two agree.

## Model

| member | source | states |
|---|---|---|
| `JsText.Trim` | ConsumerApp/src/screens/LoginScreen.tsx:31 | `trim()` leaves no whitespace at either end, and its result is empty exactly when the string is all whitespace |
| `JsText.IsBlank` | ConsumerApp/src/screens/LoginScreen.tsx:31 | `!s.trim()` holds exactly when the string is all whitespace, the empty string included |
| `JsText.TrimIsSlice` | ConsumerApp/src/screens/LoginScreen.tsx:59 | the trimmed string is a slice of the original with only whitespace before and after it |
| `JsText.Utf16Length` | ConsumerApp/src/screens/LoginScreen.tsx:59 | `length` counts UTF-16 code units: between n and 2n for n characters, and equal to n exactly when no character lies outside the Basic Multilingual Plane |
| `JsText.DecimalString` | Backend_login/controllers/authController.js:5 | `toString()` of a whole number gives ASCII digits with no leading zero that read back as the number |
| `JsText.DecimalStringLength` | Backend_login/server.js:34 | a number with k+1 digits is written with exactly k+1 characters |
| `LoginValidation.ValidateContact` | ConsumerApp/src/screens/LoginScreen.tsx:30-52 | the blank-contact error is given exactly when the contact is all whitespace. The invalid-email error is given exactly when it is not blank, contains `@` and fails the email pattern. The invalid-phone error is given exactly when it is not blank, has no `@` and is not ten digits |
| `LoginValidation.IsTenDigitPhone` | ConsumerApp/src/screens/LoginScreen.tsx:45-46 | `^\d{10}$`: a contact it accepts has no `@`, so the phone branch is the one that tests it, and has nothing for `trim` to strip |
| `LoginValidation.EmailPatternIsRegex` | ConsumerApp/src/screens/LoginScreen.tsx:38-39 | the shape test accepts a string iff the string is in the language of `^[^\s@]+@[^\s@]+\.[^\s@]+$`. The shape is: no whitespace, exactly one `@` with text before it, and a `.` in the domain that is neither the domain's first nor its last character |
| `LoginValidation.ContactAcceptedIff` | ConsumerApp/src/screens/LoginScreen.tsx:36-50 | accepted as an email iff in the email regex language; accepted as a phone iff exactly ten ASCII digits; rejected otherwise |
| `LoginValidation.PaddedContactRejected` | ConsumerApp/src/screens/LoginScreen.tsx:38-46 | the patterns run on the untrimmed contact, so a contact with leading or trailing whitespace is always rejected |
| `LoginValidation.ValidateName` | ConsumerApp/src/screens/LoginScreen.tsx:54-64 | the blank-name error is given exactly when the name is all whitespace |
| `LoginValidation.NameAcceptedIff` | ConsumerApp/src/screens/LoginScreen.tsx:59 | a name is accepted iff it has two non-whitespace characters, or one character that takes two UTF-16 code units; this is the same as a trimmed length of at least 2 |
| `LoginValidation.SendOtpGuard` | ConsumerApp/src/screens/LoginScreen.tsx:66-68 | the contact is checked first and its error wins. A name error is possible only in register mode with a valid contact, and in that case an invalid name is refused with the name's own error (blank or too short). On success the contact's kind is returned |
| `LoginValidation.SendOtpAcceptedIff` | ConsumerApp/src/screens/LoginScreen.tsx:67-68 | a code is requested iff the contact is a valid email or phone number and, in register mode only, the name is long enough |
| `LoginValidation.VerifyOtpGuard` | ConsumerApp/src/screens/LoginScreen.tsx:97-101 | the verify request is sent iff the entered code has a character other than whitespace |
| `UserModel.FindUserByEmail` | Backend_login/models/User.js:3-5 | the query returns only rows of the table with that email, and every such row |
| `UserModel.FindMultiplicity` | Backend_login/models/User.js:4 | each row with that email is returned as often as the table holds it; no other row is returned |
| `UserModel.WithOtp` | Backend_login/models/User.js:17 | the UPDATE sets the code and expiry on every row with that email; row count and all other rows are unchanged |
| `UserModel.UsersTable.InsertUser` | Backend_login/models/User.js:7-13 | the table gains one row with the given email, code and expiry at the end; the other rows stay as they were |
| `UserModel.UsersTable.UpdateUserOtp` | Backend_login/models/User.js:15-21 | the table becomes `WithOtp` of the old table |
| `UserModel.FindEmptyIff` | Backend_login/controllers/authController.js:15 | the query is empty iff no row has that email |
| `UserModel.FindAfterInsert` | Backend_login/models/User.js:7-13 | after an insert, the query for the inserted email ends with the new row; the queries for other emails are unchanged |
| `UserModel.FindAfterUpdate` | Backend_login/models/User.js:15-21 | after `updateUserOTP(e, c, x)` the query for `e` finds as many rows as before, each holding code `c` and expiry `x` |
| `UserModel.UpdateLeavesOtherEmails` | Backend_login/models/User.js:17-18 | the update does not change what the query finds for any other email |
| `UserModel.UpdateMissingEmailIsNoop` | Backend_login/models/User.js:15-21 | updating an email that has no row leaves the whole table unchanged |
| `UserModel.InsertKeepsEmailsUnique` | Backend_login/controllers/authController.js:15-18 | inserting only when the email has no row keeps at most one row per email |
| `OtpAuth.SixDigitCode` | Backend_login/server.js:34 | every number in [100000, 999999] is written as six ASCII digits with a non-zero first digit |
| `OtpAuth.GenerateOtp` | Backend_login/controllers/authController.js:5 | the code is a six-digit decimal string whose value lies in [100000, 999999] |
| `OtpAuth.AfterSendOtp` | Backend_login/controllers/authController.js:12-23 | a send adds exactly one row when the email has none and no row otherwise; rows of other emails keep their place and content |
| `OtpAuth.SendOtp` | Backend_login/controllers/authController.js:7-34 | the handler draws a six-digit code; the table becomes `AfterSendOtp` with expiry `now + 300000` |
| `OtpAuth.VerifyOtp` | Backend_login/controllers/authController.js:36-49 | verification succeeds iff a row for the email has an equal code and an expiry strictly after `now`; otherwise the answer is 400 |
| `OtpAuth.VerifyAfterSend` | Backend_login/server.js:37-95 | right after a send, that email verifies iff the code is the one just sent and the time is before `now + 300000`. So an earlier, different code stops verifying, the new code verifies repeatedly until it expires, and it fails at the expiry instant |
| `OtpAuth.SendOtpLeavesOtherEmails` | Backend_login/controllers/authController.js:15-23 | a send leaves other emails' rows, and their verification results, unchanged |
| `OtpAuth.SendOtpKeepsOneRowPerEmail` | Backend_login/server.js:48-63 | starting from one row per email, a send leaves exactly one row for the email, holding the new code and expiry, and still one row per email |
| `OtpAuth.VerifyUnknownEmailFails` | Backend_login/controllers/authController.js:45 | an email with no row is answered with status 400 |
| `OtpAuth.VerifiedEarlierToo` | Backend_login/server.js:79-95 | verification is read-only: a code that verifies at time t also verifies at every earlier time, and a code that fails at t fails at every later time |
| `TokenStore.Undisplayed` | Backend/routes/consumerRoutes.ts:9 | the SELECT returns only undisplayed rows of the table, and every undisplayed row |
| `TokenStore.MarkedDisplayed` | Backend/routes/consumerRoutes.ts:10 | after the UPDATE every row is displayed; the row count and each row's id, timestamp and coordinates are unchanged, so `displayed` only goes from false to true |
| `TokenStore.Insertable` | Backend/models/tokenModel.ts:17-23 | the INSERT is accepted iff timestamp, latitude and longitude are all present (NOT NULL), the timestamp has at most 255 characters (VARCHAR(255)), both coordinates lie within the FLOAT range of ±3.402823466E+38, and the INT AUTO_INCREMENT counter has not passed 2147483647 |
| `TokenStore.AfterStore` | Backend/routes/producerRoutes.ts:10-13 | an accepted INSERT keeps the existing rows as a prefix and appends one row with the next id, the given values and `displayed` false, and advances the counter; a refused INSERT changes nothing |
| `TokenStore.AfterClaim` | Backend/routes/consumerRoutes.ts:10 | after the UPDATE every row is displayed, each row is otherwise unchanged, and the counter is unchanged |
| `TokenStore.Run` | Backend/routes/producerRoutes.ts:7-19 | running requests one after another never lowers the counter and keeps ids increasing and below it |
| `TokenStore.Deliveries` | Backend/routes/consumerRoutes.ts:7-16 | with each request run as one step, every delivered token was undisplayed when delivered; a run with no `/getTokens` delivers nothing |
| `TokenStore.DeliveriesAppend` | Backend/routes/consumerRoutes.ts:7-16 | a run split in two delivers what the first part delivers, then what the second part delivers from the table the first part leaves |
| `TokenStore.DeliveredBelowCounter` | Backend/models/tokenModel.ts:18 | every delivered token has an id the counter had already handed out |
| `TokenStore.InTurnIsDeliveries` | Backend/routes/consumerRoutes.ts:9-11 | if nothing runs between a `/getTokens` SELECT and its UPDATE, the two-statement handler delivers exactly what the one-step semantics `Deliveries` delivers and leaves the same table |
| `TokenStore.Interleave` | Backend/routes/consumerRoutes.ts:9-10 | statements run one at a time: a SELECT records its request's answer, an INSERT may land before that request's UPDATE, and the answer goes out once the UPDATE finishes. Every answered row was undisplayed when it was selected, the counter never goes down, and the key stays well formed |
| `TokenStore.SelectStoreUpdate` | Backend/routes/consumerRoutes.ts:9-10 | with SELECT, then another request's INSERT, then UPDATE, the answer is what was pending before the INSERT, and the table ends as store-then-claim |
| `TokenStore.TokenTable.constructor` | Backend/models/tokenModel.ts:17-23 | a fresh table is empty and its AUTO_INCREMENT counter starts at 1 |
| `TokenStore.TokenTable.StoreToken` | Backend/routes/producerRoutes.ts:7-19 | answers 201 when the database accepts the row (`Insertable`), else 500. The new table is `AfterStore` of the old one. On 201 that appends `(next id, timestamp, latitude, longitude, displayed = false)`; on 500 the table is unchanged. The handler itself checks nothing |
| `TokenStore.TokenTable.SelectUndisplayed` | Backend/routes/consumerRoutes.ts:9 | returns the undisplayed rows and changes nothing |
| `TokenStore.TokenTable.MarkAllDisplayed` | Backend/routes/consumerRoutes.ts:10 | the rows become `MarkedDisplayed` of the old rows; the counter is unchanged |
| `TokenStore.TokenTable.GetTokens` | Backend/routes/consumerRoutes.ts:7-16 | answers exactly the rows that were undisplayed when the call began, and leaves every row displayed |
| `TokenStore.StoreKeepsWellFormed` | Backend/models/tokenModel.ts:18 | a store keeps ids increasing and below the counter; the new row's id is greater than every existing id |
| `TokenStore.ClaimKeepsWellFormed` | Backend/routes/consumerRoutes.ts:10 | the UPDATE keeps ids increasing and below the counter |
| `TokenStore.SecondClaimReturnsNothing` | Backend/routes/consumerRoutes.ts:9-10 | after a claim nothing is undisplayed, so a second call with no store in between answers the empty list |
| `TokenStore.UndisplayedAfterAppend` | Backend/routes/producerRoutes.ts:10-13 | an appended undisplayed row joins the end of what the next SELECT returns; the rows already pending are unchanged |
| `TokenStore.DeliveriesAreFresh` | Backend/routes/consumerRoutes.ts:9-11 | when each `/getTokens` runs as one step, no token id is delivered twice. Every delivered token was pending at the start or stored later |
| `TokenStore.PendingTokenDelivered` | Backend/routes/consumerRoutes.ts:9-11 | a pending token is delivered iff some `/getTokens` request follows; no pending token is skipped |
| `TokenStore.StoredTokenDelivered` | Backend/routes/producerRoutes.ts:10-14 | with each `/getTokens` run as one step, a token accepted by a `/storeToken` anywhere in a run is delivered iff some `/getTokens` comes after that store |
| `TokenStore.StoreBetweenClaimStepsIsLost` | Backend/routes/consumerRoutes.ts:9-10 | with the statements run as SELECT, INSERT by another request, UPDATE, the stored row is absent from the answer and ends displayed; no later request delivers it |
| `TokenStore.InterleavedClaimsDeliverTwice` | Backend/routes/consumerRoutes.ts:9-10 | with the statements run as SELECT 1, SELECT 2, UPDATE 1, UPDATE 2, both requests answer every pending row, so the delivered ids repeat |

## Left out

- Mail delivery (`transporter.sendMail`) is not modelled; its outcome does not affect the table or the response.
- Database and connection failures (the 500 answers of the login handlers, a failing token query) are not modelled. For `/storeToken` only the column constraints that refuse a row are modelled.
- The callback order of send-OTP is not modelled: the response goes out before the insert or update completes. Each handler is one sequential step.
- Concurrency is left out, with one exception: the two statements of `/getTokens` are kept separate so that the findings below can be stated.
- `Math.random` is not modelled; the drawn number is a nondeterministic choice within its range.
- Time is an integer number of milliseconds. Storing the expiry in a DATETIME column (second precision, the connection's time zone) and comparing it with `NOW()` is not modelled.
- SQL collation is not modelled: `email = ?` and `otp = ?` are exact string equality, without case folding or trailing-space padding.
- Type coercion of request values is not modelled (a number sent as `otp`, a missing `email` bound as NULL): emails and codes are strings.
- Coordinates are carried through unchanged. Rounding to the single-precision FLOAT column is not modelled.
- The `users` table schema is not part of this model, so no unique key on `email` is assumed. One row per email is proved as an invariant of send-OTP instead.
- TokenStore.Insertable: assumes the server runs in strict SQL mode. Without it, MySQL truncates an over-long timestamp and clips an out-of-range coordinate, with a warning, and accepts the row; the model answers 500 for those.
- TokenStore.TokenTable.StoreToken: a refused INSERT leaves the counter unchanged. InnoDB may burn an AUTO_INCREMENT value on a failed insert; the model does not capture that gap. Ids stay unique and increasing either way.
- TokenStore.Undisplayed: rows are returned in table (id) order. Without ORDER BY, MySQL does not promise any order.
- The `setLoginType` state update, alerts and everything after the guards in `handleSendOTP` and `handleVerifyOTP` are not modelled: the user-exists check, the network calls, registration and navigation. The validators return the contact kind instead. React applies `setLoginType` only at the next render, so the first send reads the previous kind; this is not modelled.
- The OTP field's `maxLength={6}` is a text-input property and is not modelled.
- Express wiring, schema creation, `Backend/controllers/tokenController.js`, the producer's timer-driven generation loops and the HTTP client wrappers are not part of this model.
- Session or bearer credentials are not modelled: no shown backend issues or checks them.

## Findings

`GET /getTokens` runs its SELECT and its UPDATE as two separate statements, outside any transaction. The handler awaits between them, so other requests can run in the gap.

| source | as written | input that shows it | evidently intended | confidence | as-written member | corrected member |
|---|---|---|---|---|---|---|
| Backend/routes/consumerRoutes.ts:9-10 | the UPDATE marks every undisplayed row, including rows inserted after the SELECT | a `/storeToken` whose INSERT lands between the SELECT and the UPDATE: its row is not in the answer, yet it ends displayed | every stored token is delivered to exactly one `/getTokens` answer | not executed | `TokenStore.StoreBetweenClaimStepsIsLost` | `TokenStore.StoredTokenDelivered` |
| Backend/routes/consumerRoutes.ts:9-10 | two requests can both SELECT before either UPDATEs | a table with one undisplayed row and two `/getTokens` requests whose SELECTs both run first: both answers contain the row | no token is delivered twice | not executed | `TokenStore.InterleavedClaimsDeliverTwice` | `TokenStore.DeliveriesAreFresh` |

The corrected behaviour is an atomic claim, with the SELECT and the UPDATE in one transaction. The model uses it everywhere else. `TokenTable.GetTokens` runs both steps with nothing in between. `Deliveries` treats each `/getTokens` as one step. For that semantics, `DeliveriesAreFresh` proves at-most-once delivery. `PendingTokenDelivered` and `StoredTokenDelivered` prove at-least-once delivery, for tokens pending at the start and for tokens stored during the run. `InTurnIsDeliveries` shows that the two-statement handler gives the same result when nothing runs between its statements.
