/**
 * `GET /auth` (routes/login.js): three stages.  The Authorization header must
 * be a Basic one; its second space-separated field is decoded and split on
 * `:` into email and password; then the member is looked up by email and, in
 * this order, must exist, be verified and have a stored hash equal to the hash
 * of the supplied password under the stored salt.  Only then is a fourteen-day
 * session token issued.  The handler reads the table and never writes it, so
 * it is a function of a snapshot of the rows.
 */
module Authentication {
  import opened Wrappers
  import opened Validation
  import opened JsStrings
  import opened Tokens
  import opened Replies
  import opened Members

  const MissingHeader: string := "Missing Authorization Header"
  const MalformedHeader: string := "Malformed Authorization Header"
  const UserNotFound: string := "User Not Found"
  const EmailNotVerified: string := "Email Not Verified"
  const CredentialsMismatch: string := "Credentials Did Not Match"
  const Authenticated: string := "Authentication Successful"

  const BasicScheme: string := "Basic"

  /** Email and password as the second stage hands them on in `req.auth`. */
  datatype LoginRequest = LoginRequest(email: string, password: string)

  /**
   * `authorization.split(" ")[1]` of a header that starts with `"Basic "`:
   * the text after the scheme up to the next space or the end.
   */
  function EncodedCredentials(header: string): (encoded: string)
    requires StartsWith(header, BasicScheme + " ")
    ensures IsLeadingPiece(header[|BasicScheme| + 1..], ' ', encoded)
    ensures StartsWith(header, BasicScheme + " " + encoded)
  {
    var rest := header[|BasicScheme| + 1..];
    assert header == BasicScheme + [' '] + rest;
    SplitAtFirst(BasicScheme, ' ', rest);
    SplitLeadingPieces(rest, ' ');
    var encoded := Split(header, ' ')[1];
    assert encoded == Split(rest, ' ')[0];
    assert (BasicScheme + " " + encoded) == header[..|BasicScheme| + 1 + |encoded|];
    encoded
  }

  /**
   * `const [email, password] = credentials.split(":")`: the email is the text
   * before the first colon, the password the text between the first colon and
   * the next one (or the end); the password is `undefined` when there is no
   * colon.
   */
  function SplitCredentials(credentials: string): (pair: (Field, Field))
    ensures pair.0.Str? && IsLeadingPiece(credentials, ':', pair.0.value)
    ensures pair.1 == Undefined <==> ':' !in credentials
    ensures pair.1.Str? ==>
              |pair.0.value| < |credentials| &&
              IsLeadingPiece(credentials[|pair.0.value| + 1..], ':', pair.1.value)
  {
    var parts := Split(credentials, ':');
    SplitLeadingPieces(credentials, ':');
    if |parts| == 1 then (Str(parts[0]), Undefined)
    else (Str(parts[0]), Str(parts[1]))
  }

  /** The first two middleware stages: the header check and the credential split. */
  function ReadAuthorization(header: Field, decode: string -> string): (r: Result<LoginRequest, Reply>)
    ensures r.Failure? ==> r.error.Send? && r.error.status == 400
    ensures r == Failure(Send(400, Plain(MissingHeader))) <==>
              !(IsStringProvided(header) && StartsWith(header.value, BasicScheme + " "))
    ensures r.Success? ==> r.value.email != "" && r.value.password != ""
    ensures r.Success? ==> ':' !in r.value.email && ':' !in r.value.password
  {
    if !(IsStringProvided(header) && StartsWith(header.value, BasicScheme + " ")) then
      Failure(Send(400, Plain(MissingHeader)))
    else
      var credentials := decode(EncodedCredentials(header.value));
      var (email, password) := SplitCredentials(credentials);
      if IsStringProvided(email) && IsStringProvided(password) then
        Success(LoginRequest(email.value, password.value))
      else
        Failure(Send(400, Plain(MalformedHeader)))
  }

  /** `select ... from members where email = $1`, first row: the member with that email, if any. */
  function FindByEmail(rows: map<int, Member>, email: string): (found: Option<int>)
    requires UniqueEmails(rows)
    ensures found.Some? <==> EmailTaken(rows, email)
    ensures found.Some? ==> found.value in rows && rows[found.value].email == email
  {
    if EmailTaken(rows, email) then
      var id :| id in rows && rows[id].email == email;
      Some(id)
    else
      None
  }

  /** The third stage: the ordered checks on the member row. */
  function CheckCredentials(request: LoginRequest, rows: map<int, Member>, lookupFault: Option<string>,
                            hash: (string, string) -> string, nowMs: nat): (reply: Reply)
    requires UniqueEmails(rows)
    ensures reply.Send?
    ensures reply.status == 201 <==>
              lookupFault.None? &&
              exists id :: id in rows && rows[id].email == request.email && rows[id].verification == Verified
                           && Authenticates(rows[id], request.password, hash)
  {
    if lookupFault.Some? then
      Send(400, Plain(lookupFault.value))
    else
      match FindByEmail(rows, request.email)
      case None => Send(404, Plain(UserNotFound))
      case Some(id) =>
        var row := rows[id];
        assert forall other :: other in rows && rows[other].email == request.email ==> other == id;
        if row.verification == Unverified then
          Send(401, Plain(EmailNotVerified))
        else if row.password == hash(request.password, row.salt) then
          assert id in rows && rows[id].email == request.email && rows[id].verification == Verified
                 && Authenticates(rows[id], request.password, hash);
          Send(201, WithToken(Authenticated,
                              Sign(SessionClaims(id, row.username, request.email), nowMs, SessionTtl)))
        else
          Send(400, Plain(CredentialsMismatch))
  }

  /**
   * The whole handler.  `decode` stands for the base64-to-ASCII conversion,
   * `lookupFault` for the detail of a failed select.
   */
  function Login(header: Field, decode: string -> string, rows: map<int, Member>, lookupFault: Option<string>,
                 hash: (string, string) -> string, nowMs: nat): (reply: Reply)
    requires UniqueEmails(rows)
    ensures reply.Send?
    ensures reply.status == 201 <==>
              && ReadAuthorization(header, decode).Success?
              && lookupFault.None?
              && var request := ReadAuthorization(header, decode).value;
                 exists id :: id in rows && rows[id].email == request.email && rows[id].verification == Verified
                              && Authenticates(rows[id], request.password, hash)
  {
    match ReadAuthorization(header, decode)
    case Failure(rejection) => rejection
    case Success(request) => CheckCredentials(request, rows, lookupFault, hash, nowMs)
  }

  /**
   * A Basic header carrying `email:password`: the email is the text before the
   * first colon and the password only the text up to the next one, so a
   * password containing a colon is cut short.
   */
  lemma {:induction false} BasicHeaderParsing(encoded: string, decode: string -> string,
                                              email: string, password: string)
    requires ' ' !in encoded && ':' !in email
    requires decode(encoded) == email + ":" + password
    ensures var truncated := Split(password, ':')[0];
      && (':' !in password ==> truncated == password)
      && ReadAuthorization(Str(BasicScheme + " " + encoded), decode) ==
           if email != "" && truncated != "" then Success(LoginRequest(email, truncated))
           else Failure(Send(400, Plain(MalformedHeader)))
  {
    var header := BasicScheme + " " + encoded;
    assert header == BasicScheme + [' '] + encoded;
    SplitAtFirst(BasicScheme, ' ', encoded);
    SplitWithoutSeparator(encoded, ' ');
    assert EncodedCredentials(header) == encoded;
    SplitAtFirst(email, ':', password);
    assert email + ":" + password == email + [':'] + password;
    if ':' !in password {
      SplitWithoutSeparator(password, ':');
    }
  }

  /** Decoded credentials without a colon are refused as malformed, whatever they hold. */
  lemma MalformedWithoutColon(header: string, decode: string -> string)
    requires StartsWith(header, BasicScheme + " ")
    requires ':' !in decode(EncodedCredentials(header))
    ensures ReadAuthorization(Str(header), decode) == Failure(Send(400, Plain(MalformedHeader)))
  {
  }

  /** Only the second space-separated field is decoded: anything after it is ignored. */
  lemma OnlySecondFieldIsDecoded(encoded: string, extra: string, decode: string -> string)
    requires ' ' !in encoded
    ensures ReadAuthorization(Str(BasicScheme + " " + encoded + " " + extra), decode) ==
            ReadAuthorization(Str(BasicScheme + " " + encoded), decode)
  {
    var long := BasicScheme + " " + encoded + " " + extra;
    var short := BasicScheme + " " + encoded;
    assert long[..|BasicScheme| + 1] == BasicScheme + " ";
    assert short[..|BasicScheme| + 1] == BasicScheme + " ";
    assert long[|BasicScheme| + 1..] == encoded + " " + extra;
    assert short[|BasicScheme| + 1..] == encoded;
    assert IsLeadingPiece(encoded + " " + extra, ' ', encoded);
    LeadingPieceUnique(encoded + " " + extra, ' ', encoded, EncodedCredentials(long));
    LeadingPieceUnique(encoded, ' ', encoded, EncodedCredentials(short));
  }

  /** Whatever the password, an unverified member is refused before it is compared. */
  lemma UnverifiedIsRefused(request: LoginRequest, rows: map<int, Member>, id: int,
                            hash: (string, string) -> string, nowMs: nat)
    requires UniqueEmails(rows)
    requires id in rows && rows[id].email == request.email && rows[id].verification == Unverified
    ensures CheckCredentials(request, rows, None, hash, nowMs) == Send(401, Plain(EmailNotVerified))
  {
  }

  /** An email with no row gives 404, whatever else holds. */
  lemma UnknownEmailIsNotFound(request: LoginRequest, rows: map<int, Member>,
                               hash: (string, string) -> string, nowMs: nat)
    requires UniqueEmails(rows) && !EmailTaken(rows, request.email)
    ensures CheckCredentials(request, rows, None, hash, nowMs) == Send(404, Plain(UserNotFound))
  {
  }

  /**
   * For a verified member the session token is issued exactly when the
   * password hashes to the stored hash under the stored salt; it names the
   * member, the username and the supplied email, and lasts fourteen days.
   */
  lemma TokenIffPasswordMatches(request: LoginRequest, rows: map<int, Member>, id: int,
                                hash: (string, string) -> string, nowMs: nat)
    requires UniqueEmails(rows)
    requires id in rows && rows[id].email == request.email && rows[id].verification == Verified
    ensures var reply := CheckCredentials(request, rows, None, hash, nowMs);
      && (Authenticates(rows[id], request.password, hash) ==>
            reply == Send(201, WithToken(Authenticated,
                                         Sign(SessionClaims(id, rows[id].username, request.email), nowMs, SessionTtl))))
      && (!Authenticates(rows[id], request.password, hash) ==> reply == Send(400, Plain(CredentialsMismatch)))
  {
    assert FindByEmail(rows, request.email) == Some(id);
  }

  /**
   * Round trip with the stored credentials: once a verified member's salt and
   * hash were written for a colon-free password, a Basic header carrying
   * that email and password logs in.
   */
  lemma StoredPasswordLogsIn(rows: map<int, Member>, id: int, password: string, salt: string,
                             encoded: string, decode: string -> string,
                             hash: (string, string) -> string, nowMs: nat)
    requires UniqueEmails(rows) && id in rows && rows[id].verification == Verified
    requires rows[id].email != "" && ':' !in rows[id].email
    requires password != "" && ':' !in password
    requires ' ' !in encoded && decode(encoded) == rows[id].email + ":" + password
    ensures var after := SetCredentials(rows, id, hash(password, salt), salt);
      Login(Str(BasicScheme + " " + encoded), decode, after, None, hash, nowMs).status == 201
  {
    var after := SetCredentials(rows, id, hash(password, salt), salt);
    SetCredentialsEffect(rows, id, password, salt, hash);
    assert UniqueEmails(after);
    BasicHeaderParsing(encoded, decode, rows[id].email, password);
    TokenIffPasswordMatches(LoginRequest(rows[id].email, password), after, id, hash, nowMs);
  }
}
