/**
 * `GET /auth/verify/:token` in routes/verify.js: the library checks signature
 * and expiry together, and a good token sets `verification` to 1 for its
 * member.  This handler never deletes.
 */
module StrictVerification {
  import opened Wrappers
  import opened Tokens
  import opened Replies
  import opened Members

  const TokenNotValid: string := "token is not valid"
  const VerifyRetry: string := "error verifying email, please try again"

  /** The success message names the email from the token. */
  function VerifiedMessage(email: string): string {
    "successfully verified " + email
  }

  /**
   * The handler.  The update's row count is not looked at: a token whose
   * member has no row still gets 200.
   */
  method ConfirmEmail(table: MemberTable, check: SignatureCheck, nowMs: nat, updateFails: bool)
    returns (reply: Reply)
    requires table.Valid()
    modifies table
    ensures table.Valid()
    ensures Evolves(old(table.rows), table.rows)
    ensures table.rows.Keys == old(table.rows).Keys
    ensures VerifyStrict(check, nowMs).Failure? ==>
              reply == Send(403, Plain(TokenNotValid)) && table.rows == old(table.rows)
    ensures VerifyStrict(check, nowMs).Success? && updateFails ==>
              reply == Send(400, Plain(VerifyRetry)) && table.rows == old(table.rows)
    ensures VerifyStrict(check, nowMs).Success? && !updateFails ==>
              var claims := check.payload.claims;
              reply == Send(200, Plain(VerifiedMessage(claims.email)))
              && table.rows == SetVerified(old(table.rows), claims.memberid)
  {
    var verified := VerifyStrict(check, nowMs);
    if verified.Failure? {
      return Send(403, Plain(TokenNotValid));
    }
    var decoded := verified.value;
    if updateFails {
      return Send(400, Plain(VerifyRetry));
    }
    SetVerifiedEffect(table.rows, decoded.claims.memberid);
    table.MarkVerified(decoded.claims.memberid);
    reply := Send(200, Plain(VerifiedMessage(decoded.claims.email)));
  }
}
