/**
 * `GET /auth/verify/:token` in routes/auth/verify.js: the token's signature is
 * checked with expiry ignored and the handler applies its own expiry test.
 * An expired token purges the member unless that member is already verified;
 * a live token sets the member's `verification` to 1, and a failed update
 * deletes the member instead.
 */
module EmailVerification {
  import opened Tokens
  import opened Replies
  import opened Members

  const JwtInvalid: string := "JWT Invalid or Expired"
  const AlreadyVerified: string := "Email Already Verified"
  const VerifyError: string := "Error Verifying Email"
  const VerifiedEmail: string := "Successfully Verified Email!"

  /**
   * The handler.  `check` is what the signature check made of the token,
   * `selectFails` and `updateFails` say whether the select of the expired
   * branch or the update of the live branch is rejected by the database.
   *
   * A bad signature leaves `decoded` undefined, and reading its `memberid`
   * throws before any query.  A failed select is caught by a handler that
   * reads `req.decoded.memberid`, which is never set on this path, so that
   * handler throws in turn: nothing is deleted and no reply is sent.
   */
  method ConsumeToken(table: MemberTable, check: SignatureCheck, nowMs: nat, selectFails: bool, updateFails: bool)
    returns (reply: Reply)
    requires table.Valid()
    modifies table
    ensures table.Valid()
    ensures Evolves(old(table.rows), table.rows)
    // no row is ever added, and at most the token's member disappears
    ensures table.rows.Keys <= old(table.rows).Keys
    ensures check.GoodSignature? ==>
              forall id :: id in old(table.rows) && id != check.payload.claims.memberid ==>
                id in table.rows && table.rows[id] == old(table.rows)[id]
    ensures check.BadSignature? ==> reply == Threw && table.rows == old(table.rows)
    ensures check.GoodSignature? && PastExpiry(check.payload, nowMs) ==>
              var id := check.payload.claims.memberid;
              if selectFails then
                reply == Silent && table.rows == old(table.rows)
              else if IsVerifiedRow(old(table.rows), id) then
                reply == Send(400, Plain(AlreadyVerified)) && table.rows == old(table.rows)
              else
                reply == Send(403, Plain(JwtInvalid)) && table.rows == old(table.rows) - {id}
    ensures check.GoodSignature? && !PastExpiry(check.payload, nowMs) ==>
              var id := check.payload.claims.memberid;
              if updateFails then
                reply == Send(400, Plain(VerifyError)) && table.rows == old(table.rows) - {id}
              else
                reply == Send(200, WithEmail(VerifiedEmail, check.payload.claims.email))
                && table.rows == SetVerified(old(table.rows), id)
  {
    if check.BadSignature? {
      return Threw;
    }
    var decoded := check.payload;
    var id := decoded.claims.memberid;
    SetVerifiedEffect(table.rows, id);
    if PastExpiry(decoded, nowMs) {
      if selectFails {
        reply := Silent;
      } else if IsVerifiedRow(table.rows, id) {
        reply := Send(400, Plain(AlreadyVerified));
      } else {
        table.Delete(id);
        reply := Send(403, Plain(JwtInvalid));
      }
    } else if updateFails {
      table.Delete(id);
      reply := Send(400, Plain(VerifyError));
    } else {
      table.MarkVerified(id);
      reply := Send(200, WithEmail(VerifiedEmail, decoded.claims.email));
    }
  }

  /**
   * Presenting the same live token twice succeeds twice and leaves the table
   * as the first time did; replay is harmless.
   */
  lemma ReplayIsIdempotent(rows: map<int, Member>, id: int)
    ensures SetVerified(SetVerified(rows, id), id) == SetVerified(rows, id)
    ensures IsVerifiedRow(rows, id) ==> SetVerified(rows, id) == rows
  {
    SetVerifiedEffect(rows, id);
    if IsVerifiedRow(rows, id) {
      assert rows[id].(verification := Verified) == rows[id];
    }
  }
}
