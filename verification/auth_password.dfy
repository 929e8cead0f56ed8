/**
 * `POST /auth/password` in routes/auth/password.js: change the password of
 * the member named by the session token, given the old password.  The old
 * password is checked before the new one's strength; a fresh salt and the
 * new hash are then written in one update.
 */
module PasswordChange {
  import opened Validation
  import opened Replies
  import opened Members

  const MissingInformation: string := "Missing Required Information"
  const OldPasswordMismatch: string := "Old Password Does Not Match"
  const WeakPassword: string := "Password Does Not Meet Minimum Requirements"
  const ChangeError: string := "Error Changing Password"
  const Changed: string := "Password Successfully Changed!"

  /**
   * The handler.  `memberid` comes from the session token, `salt` is what
   * `generateSalt(32)` returned, `selectFails` and `updateFails` say whether
   * the database rejects the select or the update.
   *
   * A missing row leaves `rows[0]` undefined; reading its salt throws inside
   * the promise chain and lands in the same `catch` as a failed select.  The
   * update's promise has no `catch` of its own, so a failed update sends no
   * reply at all.
   */
  method ChangePassword(table: MemberTable, memberid: int, oldPassword: Field, newPassword: Field,
                        hash: (string, string) -> string, salt: string, selectFails: bool, updateFails: bool)
    returns (reply: Reply)
    requires table.Valid()
    modifies table
    ensures table.Valid()
    ensures Evolves(old(table.rows), table.rows)
    ensures table.rows.Keys == old(table.rows).Keys
    ensures !IsStringProvided(JsAnd(oldPassword, newPassword)) ==>
              reply == Send(400, Plain(MissingInformation)) && table.rows == old(table.rows)
    ensures IsStringProvided(JsAnd(oldPassword, newPassword)) && (selectFails || memberid !in old(table.rows)) ==>
              reply == Send(400, Plain(ChangeError)) && table.rows == old(table.rows)
    ensures IsStringProvided(JsAnd(oldPassword, newPassword)) && !selectFails && memberid in old(table.rows) ==>
              var row := old(table.rows)[memberid];
              if !Authenticates(row, oldPassword.value, hash) then
                reply == Send(400, Plain(OldPasswordMismatch)) && table.rows == old(table.rows)
              else if !IsValidPassword(newPassword.value) then
                reply == Send(400, Plain(WeakPassword)) && table.rows == old(table.rows)
              else if updateFails then
                reply == Silent && table.rows == old(table.rows)
              else
                && reply == Send(200, Plain(Changed))
                && table.rows == SetCredentials(old(table.rows), memberid, hash(newPassword.value, salt), salt)
                && table.rows[memberid].salt == salt
                && Authenticates(table.rows[memberid], newPassword.value, hash)
  {
    if !IsStringProvided(JsAnd(oldPassword, newPassword)) {
      return Send(400, Plain(MissingInformation));
    }
    if selectFails || memberid !in table.rows {
      return Send(400, Plain(ChangeError));
    }
    var row := table.rows[memberid];
    if hash(oldPassword.value, row.salt) != row.password {
      return Send(400, Plain(OldPasswordMismatch));
    }
    if !IsValidPassword(newPassword.value) {
      return Send(400, Plain(WeakPassword));
    }
    var hashed := hash(newPassword.value, salt);
    if updateFails {
      return Silent;
    }
    SetCredentialsEffect(table.rows, memberid, newPassword.value, salt, hash);
    table.WriteCredentials(memberid, hashed, salt);
    reply := Send(200, Plain(Changed));
  }
}
