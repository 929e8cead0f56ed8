/**
 * `PUT /auth/password` in routes/password.js: set a new password for the
 * member named by the token, with no proof of the old one.  A fresh salt and
 * the new hash are written in one update.
 */
module PasswordSet {
  import opened Validation
  import opened Replies
  import opened Members

  const MissingInformation: string := "Missing Required Information"
  const WeakPassword: string := "Password Does Not Meet Minimum Requirements"
  const ChangeError: string := "Error Changing Password"
  const Changed: string := "Password Successfully Changed!"

  /**
   * The handler.  `memberid` is `req.decoded.memberid`, `salt` what
   * `generateSalt(32)` returned, `updateFails` whether the database rejects
   * the update.  The update's row count is not looked at.
   */
  method SetPassword(table: MemberTable, memberid: int, password: Field,
                     hash: (string, string) -> string, salt: string, updateFails: bool)
    returns (reply: Reply)
    requires table.Valid()
    modifies table
    ensures table.Valid()
    ensures Evolves(old(table.rows), table.rows)
    ensures table.rows.Keys == old(table.rows).Keys
    ensures !IsStringProvided(password) ==>
              reply == Send(400, Plain(MissingInformation)) && table.rows == old(table.rows)
    ensures IsStringProvided(password) && !IsValidPassword(password.value) ==>
              reply == Send(400, Plain(WeakPassword)) && table.rows == old(table.rows)
    ensures IsStringProvided(password) && IsValidPassword(password.value) && updateFails ==>
              reply == Send(400, Plain(ChangeError)) && table.rows == old(table.rows)
    ensures IsStringProvided(password) && IsValidPassword(password.value) && !updateFails ==>
              && reply == Send(200, Plain(Changed))
              && table.rows == SetCredentials(old(table.rows), memberid, hash(password.value, salt), salt)
              && (memberid in table.rows ==> Authenticates(table.rows[memberid], password.value, hash))
  {
    if !IsStringProvided(password) {
      return Send(400, Plain(MissingInformation));
    }
    if !IsValidPassword(password.value) {
      return Send(400, Plain(WeakPassword));
    }
    var hashed := hash(password.value, salt);
    if updateFails {
      return Send(400, Plain(ChangeError));
    }
    SetCredentialsEffect(table.rows, memberid, password.value, salt, hash);
    table.WriteCredentials(memberid, hashed, salt);
    reply := Send(200, Plain(Changed));
  }
}
