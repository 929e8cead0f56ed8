/**
 * The `members` table as the handlers see it: rows keyed by `memberid`, with
 * unique `username` and `email`, the salted password hash, its salt and the
 * `verification` flag.  The table stands for the database: its methods are
 * the SQL statements the handlers issue, and a statement that fails leaves it
 * as it was.
 */
module Members {
  import opened Wrappers

  /** The `verification` column: 0 until the email is confirmed, then 1. */
  datatype Verification = Unverified | Verified

  /** A row; `password` holds the salted hash, never the plaintext. */
  datatype Member = Member(
    first: string,
    last: string,
    username: string,
    email: string,
    password: string,
    salt: string,
    verification: Verification)

  /** The names of the two unique constraints. */
  const UsernameKey: string := "members_username_key"
  const EmailKey: string := "members_email_key"

  /** A failed statement: the violated constraint, if any, and the detail text. */
  datatype DbError = DbError(constraint: Option<string>, detail: string)

  predicate UniqueUsernames(rows: map<int, Member>) {
    forall a, b :: a in rows && b in rows && rows[a].username == rows[b].username ==> a == b
  }

  predicate UniqueEmails(rows: map<int, Member>) {
    forall a, b :: a in rows && b in rows && rows[a].email == rows[b].email ==> a == b
  }

  predicate UsernameTaken(rows: map<int, Member>, username: string) {
    exists id :: id in rows && rows[id].username == username
  }

  predicate EmailTaken(rows: map<int, Member>, email: string) {
    exists id :: id in rows && rows[id].email == email
  }

  /** The stored salt and hash authenticate `password` under `hash`. */
  predicate Authenticates(m: Member, password: string, hash: (string, string) -> string) {
    hash(password, m.salt) == m.password
  }

  /** A row that is there and whose email is confirmed. */
  predicate IsVerifiedRow(rows: map<int, Member>, id: int) {
    id in rows && rows[id].verification == Verified
  }

  /** The table after `update members set verification = 1 where memberid = id`. */
  function SetVerified(rows: map<int, Member>, id: int): map<int, Member> {
    if id in rows then rows[id := rows[id].(verification := Verified)] else rows
  }

  /** The table after `update members set password = hashed, salt = salt where memberid = id`. */
  function SetCredentials(rows: map<int, Member>, id: int, hashed: string, salt: string): map<int, Member> {
    if id in rows then rows[id := rows[id].(password := hashed, salt := salt)] else rows
  }

  /**
   * What may happen to a row that is still there afterwards: its names and
   * email stay, and a confirmed email stays confirmed.
   */
  predicate Persists(before: Member, after: Member) {
    && after.first == before.first
    && after.last == before.last
    && after.username == before.username
    && after.email == before.email
    && (before.verification == Verified ==> after.verification == Verified)
  }

  ghost predicate Evolves(before: map<int, Member>, after: map<int, Member>) {
    forall id :: id in before && id in after ==> Persists(before[id], after[id])
  }

  /** Confirming an email touches only that row's flag, and only upwards. */
  lemma SetVerifiedEffect(rows: map<int, Member>, id: int)
    ensures SetVerified(rows, id).Keys == rows.Keys
    ensures Evolves(rows, SetVerified(rows, id))
    ensures IsVerifiedRow(SetVerified(rows, id), id) <==> id in rows
    ensures id !in rows ==> SetVerified(rows, id) == rows
    ensures forall other :: other in rows && other != id ==> SetVerified(rows, id)[other] == rows[other]
  {
  }

  /**
   * Writing a salt together with the hash of a password under that salt
   * leaves a row that authenticates that password; nothing else in the table
   * changes.
   */
  lemma SetCredentialsEffect(rows: map<int, Member>, id: int, password: string, salt: string,
                             hash: (string, string) -> string)
    ensures var after := SetCredentials(rows, id, hash(password, salt), salt);
      && after.Keys == rows.Keys
      && Evolves(rows, after)
      && (id in rows ==> after[id].salt == salt && Authenticates(after[id], password, hash)
                         && after[id].verification == rows[id].verification)
      && (forall other :: other in rows && other != id ==> after[other] == rows[other])
  {
  }

  /** Deleting a row just inserted under a fresh key restores the table. */
  lemma {:induction false} RemoveInserted(rows: map<int, Member>, id: int, m: Member)
    requires id !in rows
    ensures rows[id := m] - {id} == rows
  {
    assert (rows[id := m] - {id}).Keys == rows.Keys;
  }

  /** Successive steps that each respect `Evolves` respect it together, for rows kept throughout. */
  lemma EvolvesTransitive(a: map<int, Member>, b: map<int, Member>, c: map<int, Member>)
    requires Evolves(a, b) && Evolves(b, c)
    ensures forall id :: id in a && id in b && id in c ==> Persists(a[id], c[id])
  {
  }

  class MemberTable {
    var rows: map<int, Member>
    /** The next value of the `memberid` sequence. */
    var nextId: int

    ghost predicate Valid()
      reads this
    {
      && UniqueUsernames(rows)
      && UniqueEmails(rows)
      && (forall id :: id in rows ==> id < nextId)
    }

    constructor ()
      ensures Valid() && rows == map[]
    {
      rows := map[];
      nextId := 1;
    }

    /**
     * `insert into members(firstname, lastname, username, email, password,
     * salt) ... returning memberid`: the new row gets a fresh `memberid` and
     * the column default `verification = 0`.  A unique violation names the
     * constraint; any other failure carries only its detail.
     */
    method Insert(first: string, last: string, username: string, email: string,
                  password: string, salt: string, fault: Option<string>)
      returns (r: Result<int, DbError>)
      requires Valid()
      modifies this
      ensures Valid()
      ensures fault.Some? ==> r == Failure(DbError(None, fault.value))
      ensures fault.None? && UsernameTaken(old(rows), username) ==>
                r.Failure? && r.error.constraint == Some(UsernameKey)
      ensures fault.None? && !UsernameTaken(old(rows), username) && EmailTaken(old(rows), email) ==>
                r.Failure? && r.error.constraint == Some(EmailKey)
      ensures r.Success? <==> fault.None? && !UsernameTaken(old(rows), username) && !EmailTaken(old(rows), email)
      ensures r.Failure? ==> rows == old(rows)
      ensures r.Success? ==> r.value !in old(rows)
      ensures r.Success? ==>
                rows == old(rows)[r.value := Member(first, last, username, email, password, salt, Unverified)]
    {
      if fault.Some? {
        return Failure(DbError(None, fault.value));
      }
      if UsernameTaken(rows, username) {
        return Failure(DbError(Some(UsernameKey), "Key (username)=(" + username + ") already exists."));
      }
      if EmailTaken(rows, email) {
        return Failure(DbError(Some(EmailKey), "Key (email)=(" + email + ") already exists."));
      }
      var id := nextId;
      rows := rows[id := Member(first, last, username, email, password, salt, Unverified)];
      nextId := nextId + 1;
      r := Success(id);
    }

    /** `delete from members where memberid = id` (the `remove` helper). */
    method Delete(id: int)
      requires Valid()
      modifies this
      ensures Valid() && nextId == old(nextId)
      ensures rows == old(rows) - {id}
    {
      rows := rows - {id};
    }

    /** `update members set verification = 1 where memberid = id`. */
    method MarkVerified(id: int)
      requires Valid()
      modifies this
      ensures Valid() && nextId == old(nextId)
      ensures rows == SetVerified(old(rows), id)
    {
      if id in rows {
        rows := rows[id := rows[id].(verification := Verified)];
      }
    }

    /** `update members set password = hashed, salt = salt where memberid = id`. */
    method WriteCredentials(id: int, hashed: string, salt: string)
      requires Valid()
      modifies this
      ensures Valid() && nextId == old(nextId)
      ensures rows == SetCredentials(old(rows), id, hashed, salt)
    {
      if id in rows {
        rows := rows[id := rows[id].(password := hashed, salt := salt)];
      }
    }
  }
}
