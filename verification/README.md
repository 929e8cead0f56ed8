# FastChat auth: credentials and account verification, in Dafny

This project models the credential and account-verification logic of the
FastChat authentication service and proves properties of it.  The service
registers members, logs them in with HTTP Basic credentials, confirms their
email with a signed ten-minute token and lets them change or set their
password.  Every handler ends in at most one reply (some paths send none or
throw) and at most two writes to the `members` table.

What is modelled:

- **Input checks** (`Validation`): `isStringProvided` on a field that is
  either absent or a string, and `isValidPassword` as the exact semantics of
  its unanchored regular expression `(?=.*[a-z])(?=.*[A-Z])(?=.*[0-9])(?=.*[^A-Za-z0-9])(?=.{8,})`.
  `.` does not match the four JavaScript line terminators, so the lookaheads
  cannot cross a line break.  `[^A-Za-z0-9]` does match a line terminator, so
  a line followed by a newline needs no other symbol.
- **The member table** (`Members`): a class holding `rows: map<int, Member>`
  and the next `memberid`.  Its invariant is that usernames and emails are
  unique and every key is below the next id.  Its methods are the SQL
  statements the handlers issue: insert with unique-constraint reporting,
  delete, set `verification = 1`, and write password and salt together.
- **Tokens** (`Tokens`): signed claim sets with issue time and expiry in
  seconds.  Registration tokens last 600 s; session tokens last 1 209 600 s
  (14 days).  The library's own expiry check rejects from `exp` on.  The
  lenient handler's check `exp < now/1000` is proved equal to
  `exp * 1000 < nowMs`.
- **Handlers**: registration, login, the two verification routes and the two
  password routes.  The ones that write are methods that modify the table and
  state the whole new table on every path.  Login only reads, so it is a
  function of a snapshot of the rows.

Collaborators are parameters:

- `hash: (string, string) -> string` stands for `generateHash`.  Being a
  function, it is deterministic.
- `salt` is the value `generateSalt(32)` returned.
- `decode` is the base64-to-ASCII conversion.
- `validUsername` is the username check the registration handler calls.
- `SignatureCheck` is what `jwt.verify` made of the token string.
- `Notification` is how the mail callback turned out.
- Boolean or `Option` parameters say whether a given query failed.

A handler ends in a `Reply`, which is one of:

- `Send(status, body)`: a normal response.
- `Threw`: an exception escaped the handler synchronously, and the web
  framework answers it.
- `Silent`: no reply is ever sent.  Two kinds of path end this way.  One
  leaves a promise rejection nobody handles: the `catch` that throws in
  routes/auth/verify.js:81 and the update without `catch` in
  routes/auth/password.js:63.  Node 15 and later end the process on an
  unhandled rejection by default; that is outside this model.  The other is
  routes/register.js:121, whose callback utilities/email.js never calls.

Behaviour of the code worth knowing, all modelled as written:

- In routes/auth/verify.js, a live token is accepted again for a member who
  is already verified: the update runs again and the reply is 200.  Nothing
  answers "already verified" on that path.
- In routes/auth/verify.js, a token with a bad signature leaves `decoded`
  undefined.  Reading `decoded.memberid` throws before any query, so nothing
  is purged.
- In routes/auth/verify.js, when the select of the expired branch fails, the
  `catch` reads `req.decoded.memberid`.  That field is never set on this
  path, so the `catch` throws in turn.  No row is removed and no reply is
  sent.
- In routes/register.js, the reply is sent from the callback handed to
  `sendVerificationEmail`, which utilities/email.js:10-28 never calls.  A
  notifier that never calls back sends no reply and keeps the new row.
- In routes/auth/password.js, the final update's promise has no `catch`, so
  a failed update sends no reply.
- In routes/verify.js and routes/password.js, the update's row count is never
  read.  A token or session for a member with no row still gets 200.
- In routes/login.js, only the first two `:`-separated pieces are used, so a
  password containing `:` is cut at the first one.

## Model

| member | source | states |
|---|---|---|
| `Validation.IsStringProvided` | utilities/validation.js:1-7 | false exactly for `undefined` and for the empty string |
| `Validation.JsAnd` | routes/auth/password.js:35 | `old && new` is one of the two operands, and it passes `isStringProvided` exactly when both operands do |
| `Validation.IsValidPassword` | utilities/validation.js:9-11 | an accepted password has at least 8 characters and contains a lowercase letter, an uppercase letter, a digit and a character outside `[A-Za-z0-9]` |
| `Validation.SingleLineCharacterisation` | utilities/validation.js:10 | on a password with no line terminator, acceptance holds exactly when all five conditions hold |
| `Validation.CheckIsPerLine` | utilities/validation.js:10 | the check is applied per line: `x + t + y`, with `t` a line terminator, is accepted exactly when `x + t` or `y` is |
| `Validation.TerminatedLine` | utilities/validation.js:10 | a line followed by its terminator is accepted exactly when the line has at least 8 characters, a lower-case letter, an upper-case letter and a digit: the terminator is the symbol |
| `Validation.DocumentedPasswordIsValid` | routes/register.js:36-42 | the documented example password `FastChatPass1!` is accepted |
| `Validation.NineCharacterPasswordIsValid` | utilities/validation.js:10 | `Abc12345!` is accepted |
| `Validation.WeakPasswordExamples` | utilities/validation.js:10 | `abc12345` (no uppercase letter, no symbol) and `Ab1!` (too short) are rejected |
| `Validation.ClassesMustShareALine` | utilities/validation.js:10 | `abcdefgh\nABCD123!` has every class and enough length but is rejected, because its lowercase and uppercase letters are on different lines |
| `Validation.TerminatorCountsAsSymbol` | utilities/validation.js:10 | `Abcdefg1\n` is accepted: the trailing newline serves as the symbol |
| `JsStrings.Split` | routes/login.js:58-62 | `split` with one separator gives at least one piece, no piece holds the separator, and joining the pieces gives back the input |
| `JsStrings.StartsWith` | routes/login.js:49 | `startsWith`: the prefix is no longer than the string and equals its first characters |
| `JsStrings.LeadingPieceUnique` | routes/login.js:58-62 | a string has one leading piece for a separator: the separator-free text up to the first separator or the end |
| `JsStrings.SplitLeadingPieces` | routes/login.js:58-62 | the first piece of `split` is the leading piece, there is one piece exactly when the separator is absent, and the second piece is the leading piece of what follows the first separator |
| `JsStrings.SplitJoin` | routes/login.js:62 | splitting undoes joining when no piece holds the separator |
| `JsStrings.SplitAtFirst` | routes/login.js:58 | a separator-free prefix followed by the separator splits off as the first piece |
| `Tokens.Sign` | routes/register.js:109-119 | a minted token keeps the claims; its expiry is exactly ttl seconds after its issue second, which is the second of the current time |
| `Tokens.VerifyStrict` | routes/verify.js:25-30 | the library accepts exactly a well-signed token checked before `exp * 1000` ms; a bad signature is reported as such |
| `Tokens.PastExpiry` | routes/auth/verify.js:55-56 | defined as the handler's test `decoded.exp < now / 1000`, with the division taken as exact on reals |
| `Tokens.PastExpiryInMillis` | routes/auth/verify.js:55-56 | `exp < now / 1000` holds exactly when `exp * 1000 < nowMs`, so a token checked at exactly `exp` seconds is not expired |
| `Tokens.LenientAndStrictExpiry` | routes/auth/verify.js:53-56 | every token the handler calls expired, the library also rejects as expired; the two checks disagree only at `nowMs == exp * 1000` |
| `Tokens.TokenLifetime` | routes/register.js:116-118 | a token with lifetime ttl passes the library's check until one second before ttl has elapsed, and fails once ttl has elapsed |
| `Members.SetVerified` | routes/auth/verify.js:94 | defined as the table after `update members set verification = 1 where memberid = $1`: that row, if present, becomes verified; a missing id leaves the table as it was (used by routes/verify.js:38 too) |
| `Members.SetVerifiedEffect` | routes/auth/verify.js:94-95 | setting `verification = 1` keeps the keys, touches no other row, changes no name or email, never unverifies, and leaves a missing member missing |
| `Members.SetCredentials` | routes/password.js:45-47 | defined as the table after `update members set password = $1, salt = $2 where memberid = $3`: both columns of that row, if present, are replaced together (used by routes/auth/password.js:60 too) |
| `Members.SetCredentialsEffect` | routes/auth/password.js:57-61 | writing a fresh salt with the hash of a password under that salt leaves a row that authenticates that password; its names, email and verification and all other rows are unchanged |
| `Members.RemoveInserted` | routes/register.js:121-127 | deleting the row just inserted under a fresh id restores the table exactly |
| `Members.EvolvesTransitive` | routes/auth/verify.js:94 | the rule "names and email fixed, verification never goes back" composes across two successive requests, for rows kept throughout |
| `Members.MemberTable.Insert` | routes/register.js:103-107 | the insert fails with `members_username_key` on a taken username, then with `members_email_key` on a taken email, and adds nothing then; otherwise it adds one row under a fresh id with `verification = 0`; uniqueness is kept |
| `Members.MemberTable.Delete` | routes/register.js:17-23 | `remove` deletes exactly the row with that `memberid` |
| `Members.MemberTable.MarkVerified` | routes/auth/verify.js:94-98 | the update sets `verification` to 1 for that member only; a missing member is a no-op |
| `Members.MemberTable.WriteCredentials` | routes/auth/password.js:60-63 | password hash and salt of that member are replaced in one statement, and nothing else changes |
| `Registration.ChosenUsername` | routes/register.js:73 | the stored username is the given one or the email, the given one whenever it is provided, and it is provided exactly when the username or the email is |
| `Registration.InsertFailureReply` | routes/register.js:137-153 | a unique violation on `members_username_key` gives "Username Already Exists", one on `members_email_key` gives "Email Already Exists", and anything else gives "Other Error, See Detail" with the detail; all are 400 |
| `Registration.Register` | routes/register.js:70-160 | checks in order: missing field, weak password, bad username, then insert failures, each answered 400 with the table unchanged; `username` defaults to the email; the stored row holds `hash(password, salt)` and the salt, unverified; a mail goes out exactly when the insert succeeds, with a 600-second token naming the new id, the first name and the email; a rejected mail deletes the new row again (net table unchanged, 400 "Invalid Email"); a delivered one gives 201 with the email; a notifier that never calls back sends no reply and keeps the new row; existing members are never touched |
| `Authentication.EncodedCredentials` | routes/login.js:58 | `split(" ")[1]` of a `Basic ` header is the text after the scheme up to the next space or the end (a leading piece, which `JsStrings.LeadingPieceUnique` shows is unique) |
| `Authentication.SplitCredentials` | routes/login.js:62 | the email is the text before the first colon (all of it when there is none); the password is `undefined` exactly when there is no colon, and otherwise the text from the first colon up to the next one or the end |
| `Authentication.ReadAuthorization` | routes/login.js:44-76 | the reply is 400 "Missing Authorization Header" exactly when the header is absent, empty or not `Basic `; every failure is a 400; a pass yields a non-empty, colon-free email and password |
| `Authentication.FindByEmail` | routes/login.js:78-82 | the select finds a row exactly when some member has that email, and then the one with that email |
| `Authentication.CheckCredentials` | routes/login.js:82-134 | the reply is 201 exactly when the select succeeds and a verified member with that email has a stored hash equal to the hash of the supplied password under the stored salt |
| `Authentication.Login` | routes/login.js:44-136 | login always replies and only reads the table; it issues a token exactly when the header parses, the select succeeds, and a verified member with the header's email authenticates the header's password |
| `Authentication.MalformedWithoutColon` | routes/login.js:62-75 | a `Basic` header whose decoded credentials hold no colon is answered 400 "Malformed Authorization Header" |
| `Authentication.OnlySecondFieldIsDecoded` | routes/login.js:58 | `Basic b extra` is read exactly as `Basic b`: only the second space-separated field is decoded |
| `Authentication.BasicHeaderParsing` | routes/login.js:58-75 | for a header `Basic b` where `b` decodes to `email:password`, login uses the password only up to its first colon (all of it when it has none), and rejects as malformed when either part is empty |
| `Authentication.UnknownEmailIsNotFound` | routes/login.js:84-89 | an email with no row gives 404 "User Not Found" |
| `Authentication.UnverifiedIsRefused` | routes/login.js:91-96 | an unverified member gets 401 "Email Not Verified" whatever the password |
| `Authentication.TokenIffPasswordMatches` | routes/login.js:99-126 | for a verified member, a 14-day token with `memberid`, `username` and the supplied email is issued exactly when the password hashes to the stored hash; otherwise 400 "Credentials Did Not Match" |
| `Authentication.StoredPasswordLogsIn` | routes/login.js:99-104 | after salt and hash are written for a colon-free password, a Basic header carrying that email and password logs a verified member in |
| `EmailVerification.ConsumeToken` | routes/auth/verify.js:48-115 | a bad signature throws with no change. An expired token deletes the member and gives 403, unless a verified row exists (400, no change). A failed select gives no reply and no change. A live token sets `verification = 1` whatever its state and gives 200 with the token's email. A failed update deletes the member and gives 400. No row is added, no other row changes, and verification never goes back |
| `EmailVerification.ReplayIsIdempotent` | routes/auth/verify.js:94-105 | consuming a live token twice leaves the table as once did; for an already verified member it changes nothing |
| `StrictVerification.VerifiedMessage` | routes/verify.js:45 | defined as the success message `successfully verified <email>` |
| `StrictVerification.ConfirmEmail` | routes/verify.js:20-54 | a token with a bad signature, or checked from `exp` on, gives 403 with no change. A failed update gives 400 with no change. Otherwise `verification` becomes 1 for the token's member, and the reply is 200 naming the email, even when no row matches. No row is ever deleted or unverified |
| `PasswordChange.ChangePassword` | routes/auth/password.js:31-81 | the checks run in order: `old && new` provided, then the row found, then the old password matching, then the new password strong. Each failure is a 400 with its own message and no change. A failed final update sends no reply. On success a fresh salt and the new hash are written together to that member only, the row then authenticates the new password, and names, email and verification stay |
| `PasswordSet.SetPassword` | routes/password.js:30-67 | a missing password, a weak password or a failed update each give 400 with no change. Otherwise a fresh salt and the new hash are written together for that member, with no old-password proof, and the reply is 200. Only those two columns of that row change |

## Left out

- The database itself is not part of this model.  Each query's failure is a parameter, and the table's methods stand for the statements.  Three things about the database are assumptions, because the schema is not part of this model:
  - an insert sets `verification` to 0 by column default;
  - when both the username and the email are taken, the username constraint is reported;
  - ids are opaque: only their freshness is modelled, not the sequence that hands them out.
- `remove` is fire-and-forget in the source.  A failing delete is not modelled; deletes always succeed here.
- `generateHash`, `generateSalt`, JWT signing and signature checking, and base64 decoding are abstract.  Nothing is claimed about collisions or about different salts giving different hashes.  The salt's length of 32 is not modelled.
- utilities/email.js is not part of this model.  The mail transport is I/O.  `sendVerificationEmail` in utilities/email.js (lines 10-28) takes no callback, so it never calls the one that routes/register.js:121 passes it, which the `NeverCalledBack` outcome covers; `Delivered` and `Rejected` model a notifier that does call back.
- `isValidUsername` is a parameter.  utilities/validation.js exports no `isValidUsername`, although routes/register.js:9 and :93 use it.
- Request fields are modelled as absent or string.  Numbers, arrays and objects in a JSON body, whose `length` and truthiness differ, are not modelled.
- A `char` stands for one UTF-16 code unit.  A character outside the Basic Multilingual Plane counts as two units for `.{8,}` in JavaScript but as one `char` here.
- Time is integer milliseconds.  The handler's floating-point division by 1000 is taken as exact.
- The `success` flag of the JSON bodies is not modelled.  The framework's answer to a thrown exception is not modelled; a handler that throws ends in `Threw`.
- The mounting of routes in index.js is not modelled: it mounts routes/verify.js only, not routes/auth/verify.js or either password route.  The static HTML routes of routes/auth/verify.js are not modelled either.
- Concurrent requests on the same member, promise scheduling and logging are not modelled.
