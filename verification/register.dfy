/**
 * `POST /auth` (routes/register.js): check the fields, salt and hash the
 * password, insert the member, mint a ten-minute verification token and hand
 * it to the notifier; a notifier that reports an error undoes the insert.
 */
module Registration {
  import opened Wrappers
  import opened Validation
  import opened Tokens
  import opened Replies
  import opened Members

  const MissingInformation: string := "Missing Required Information"
  const WeakPassword: string := "Password Does Not Meet Minimum Requirements"
  const WeakUsername: string := "Username Does Not Meet Minimum Requirements"
  const UsernameExists: string := "Username Already Exists"
  const EmailExists: string := "Email Already Exists"
  const OtherError: string := "Other Error, See Detail"
  const InvalidEmail: string := "Invalid Email"
  const Registered: string := "User Registered Successfully!"

  datatype RegisterBody = RegisterBody(first: Field, last: Field, username: Field, email: Field, password: Field)

  /** How the notifier's callback turned out. */
  datatype Notification = Delivered | Rejected | NeverCalledBack

  /** The verification mail handed to the notifier. */
  datatype Mail = Mail(recipient: string, token: Jwt)

  /** The username stored: the one given when provided, the email otherwise. */
  function ChosenUsername(body: RegisterBody): (username: Field)
    ensures username == body.username || username == body.email
    ensures IsStringProvided(body.username) ==> username == body.username
    ensures IsStringProvided(username) <==> IsStringProvided(body.username) || IsStringProvided(body.email)
  {
    if IsStringProvided(body.username) then body.username else body.email
  }

  predicate AllProvided(body: RegisterBody) {
    && IsStringProvided(body.first)
    && IsStringProvided(body.last)
    && IsStringProvided(ChosenUsername(body))
    && IsStringProvided(body.email)
    && IsStringProvided(body.password)
  }

  /** The request passes every check made before the insert. */
  predicate PassesChecks(body: RegisterBody, validUsername: string -> bool) {
    && AllProvided(body)
    && IsValidPassword(body.password.value)
    && validUsername(ChosenUsername(body).value)
  }

  /** The row the insert asks for. */
  function NewRow(body: RegisterBody, hash: (string, string) -> string, salt: string): Member
    requires AllProvided(body)
  {
    Member(body.first.value, body.last.value, ChosenUsername(body).value, body.email.value,
           hash(body.password.value, salt), salt, Unverified)
  }

  /** The `catch` of the insert: the violated constraint decides the message. */
  function InsertFailureReply(e: DbError): (reply: Reply)
    ensures reply.Send? && reply.status == 400
    ensures reply == Send(400, Plain(UsernameExists)) <==> e.constraint == Some(UsernameKey)
    ensures reply == Send(400, Plain(EmailExists)) <==> e.constraint == Some(EmailKey)
    ensures e.constraint != Some(UsernameKey) && e.constraint != Some(EmailKey) ==>
              reply == Send(400, Detailed(OtherError, e.detail))
  {
    if e.constraint == Some(UsernameKey) then Send(400, Plain(UsernameExists))
    else if e.constraint == Some(EmailKey) then Send(400, Plain(EmailExists))
    else Send(400, Detailed(OtherError, e.detail))
  }

  /**
   * The handler.  `validUsername` is the username check the handler calls,
   * `salt` the value `generateSalt(32)` returned, `insertFault` the detail of
   * an insert that fails for a reason other than a unique constraint, and
   * `notification` what the notifier's callback reported.  Besides the reply,
   * the method returns the mail it handed to the notifier, if any.
   */
  method Register(table: MemberTable, body: RegisterBody, validUsername: string -> bool,
                  hash: (string, string) -> string, salt: string, insertFault: Option<string>,
                  nowMs: nat, notification: Notification)
    returns (reply: Reply, mailed: Option<Mail>)
    requires table.Valid()
    modifies table
    ensures table.Valid()
    // existing members are never touched
    ensures forall id :: id in old(table.rows) ==> id in table.rows && table.rows[id] == old(table.rows)[id]
    // the checks, in order, each failing with the table unchanged
    ensures !AllProvided(body) ==>
              reply == Send(400, Plain(MissingInformation)) && mailed == None && table.rows == old(table.rows)
    ensures AllProvided(body) && !IsValidPassword(body.password.value) ==>
              reply == Send(400, Plain(WeakPassword)) && mailed == None && table.rows == old(table.rows)
    ensures AllProvided(body) && IsValidPassword(body.password.value) && !validUsername(ChosenUsername(body).value) ==>
              reply == Send(400, Plain(WeakUsername)) && mailed == None && table.rows == old(table.rows)
    // a failed insert adds nothing and is reported by constraint
    ensures PassesChecks(body, validUsername) && insertFault.Some? ==>
              reply == Send(400, Detailed(OtherError, insertFault.value)) && mailed == None && table.rows == old(table.rows)
    ensures PassesChecks(body, validUsername) && insertFault.None? && UsernameTaken(old(table.rows), ChosenUsername(body).value) ==>
              reply == Send(400, Plain(UsernameExists)) && mailed == None && table.rows == old(table.rows)
    ensures PassesChecks(body, validUsername) && insertFault.None? && !UsernameTaken(old(table.rows), ChosenUsername(body).value)
              && EmailTaken(old(table.rows), body.email.value) ==>
              reply == Send(400, Plain(EmailExists)) && mailed == None && table.rows == old(table.rows)
    // a mail goes out exactly when the insert succeeded, carrying a ten-minute token for the new row
    ensures mailed.Some? <==>
              && PassesChecks(body, validUsername) && insertFault.None?
              && !UsernameTaken(old(table.rows), ChosenUsername(body).value)
              && !EmailTaken(old(table.rows), body.email.value)
    ensures mailed.Some? ==>
              var id := mailed.value.token.claims.memberid;
              && id !in old(table.rows)
              && mailed.value == Mail(body.email.value,
                                      Sign(VerificationClaims(id, body.first.value, body.email.value), nowMs, VerificationTtl))
              && match notification
                 case Delivered =>
                   reply == Send(201, WithEmail(Registered, body.email.value))
                   && table.rows == old(table.rows)[id := NewRow(body, hash, salt)]
                 case Rejected =>
                   reply == Send(400, Plain(InvalidEmail)) && table.rows == old(table.rows)
                 case NeverCalledBack =>
                   reply == Silent && table.rows == old(table.rows)[id := NewRow(body, hash, salt)]
  {
    mailed := None;
    var username := ChosenUsername(body);
    if !(IsStringProvided(body.first) && IsStringProvided(body.last) && IsStringProvided(username)
         && IsStringProvided(body.email) && IsStringProvided(body.password)) {
      reply := Send(400, Plain(MissingInformation));
      return;
    }
    var password := body.password.value;
    if !IsValidPassword(password) {
      reply := Send(400, Plain(WeakPassword));
      return;
    }
    if !validUsername(username.value) {
      reply := Send(400, Plain(WeakUsername));
      return;
    }
    var hashed := hash(password, salt);
    var inserted := table.Insert(body.first.value, body.last.value, username.value, body.email.value,
                                 hashed, salt, insertFault);
    if inserted.Failure? {
      reply := InsertFailureReply(inserted.error);
      return;
    }
    var id := inserted.value;
    var token := Sign(VerificationClaims(id, body.first.value, body.email.value), nowMs, VerificationTtl);
    mailed := Some(Mail(body.email.value, token));
    match notification {
      case Rejected =>
        reply := Send(400, Plain(InvalidEmail));
        table.Delete(id);
        RemoveInserted(old(table.rows), id, NewRow(body, hash, salt));
      case Delivered =>
        reply := Send(201, WithEmail(Registered, body.email.value));
      case NeverCalledBack =>
        reply := Silent;
    }
  }
}
