/** The `users` table of the login backend (Backend_login/models/User.js): one
    row per stored challenge, holding an email address, the pending one-time
    code and its expiry instant in milliseconds. The table's schema is not part
    of the source, so no uniqueness constraint on `email` is assumed: the table
    is a sequence of rows, and keeping one row per email is a property of the
    way the send-OTP handler uses it (see OtpAuth). */
module UserModel {

  datatype UserRow = UserRow(email: string, otp: string, otpExpiry: int)

  /** `SELECT * FROM users WHERE email = ?`: rows of the table with that email,
      and every such row. */
  function FindUserByEmail(rows: seq<UserRow>, email: string): (r: seq<UserRow>)
    ensures |r| <= |rows|
    ensures forall u | u in r :: u in rows && u.email == email
    ensures forall i | 0 <= i < |rows| && rows[i].email == email :: rows[i] in r
  {
    if rows == [] then []
    else
      assert rows == [rows[0]] + rows[1..];
      (if rows[0].email == email then [rows[0]] else []) + FindUserByEmail(rows[1..], email)
  }

  /** `UPDATE users SET otp = ?, otp_expiry = ? WHERE email = ?`: every row with
      that email gets the new code and expiry, in place; every other row and the
      row count stay as they were. */
  function WithOtp(rows: seq<UserRow>, email: string, otp: string, expiry: int): (r: seq<UserRow>)
    ensures |r| == |rows|
    ensures forall i | 0 <= i < |rows| ::
              r[i] == if rows[i].email == email then rows[i].(otp := otp, otpExpiry := expiry) else rows[i]
  {
    if rows == [] then []
    else
      [if rows[0].email == email then rows[0].(otp := otp, otpExpiry := expiry) else rows[0]]
      + WithOtp(rows[1..], email, otp, expiry)
  }

  /** At most one row per email. */
  predicate UniqueEmails(rows: seq<UserRow>) {
    forall i, j | 0 <= i < j < |rows| :: rows[i].email != rows[j].email
  }

  class UsersTable {
    var rows: seq<UserRow>

    constructor ()
      ensures rows == []
    {
      rows := [];
    }

    /** `insertUser`: `INSERT INTO users (email, otp, otp_expiry) VALUES (?, ?, ?)`. */
    method InsertUser(email: string, otp: string, expiry: int)
      modifies this
      ensures rows == old(rows) + [UserRow(email, otp, expiry)]
    {
      rows := rows + [UserRow(email, otp, expiry)];
    }

    /** `updateUserOTP`: the UPDATE statement, applied to the table in place. */
    method UpdateUserOtp(email: string, otp: string, expiry: int)
      modifies this
      ensures rows == WithOtp(old(rows), email, otp, expiry)
    {
      rows := WithOtp(rows, email, otp, expiry);
    }
  }

  /** A table holds no row for an email exactly when the query for it is empty. */
  lemma FindEmptyIff(rows: seq<UserRow>, email: string)
    ensures FindUserByEmail(rows, email) == [] <==> forall i | 0 <= i < |rows| :: rows[i].email != email
  {
    var r := FindUserByEmail(rows, email);
    if r != [] {
      assert r[0] in r;
    }
  }

  /** The query returns each row with that email as often as the table holds it. */
  lemma {:induction false} FindMultiplicity(rows: seq<UserRow>, email: string, u: UserRow)
    ensures multiset(FindUserByEmail(rows, email))[u] == if u.email == email then multiset(rows)[u] else 0
  {
    if rows != [] {
      assert rows == [rows[0]] + rows[1..];
      FindMultiplicity(rows[1..], email, u);
    }
  }

  /** An inserted row shows up at the end of the query for its email and in no
      other query. */
  lemma {:induction false} FindAfterInsert(rows: seq<UserRow>, row: UserRow, email: string)
    ensures FindUserByEmail(rows + [row], email)
         == FindUserByEmail(rows, email) + (if row.email == email then [row] else [])
  {
    var tail := if row.email == email then [row] else [];
    if rows == [] {
      assert rows + [row] == [row];
      assert [row][1..] == [];
    } else {
      var head := if rows[0].email == email then [rows[0]] else [];
      assert (rows + [row])[0] == rows[0];
      assert (rows + [row])[1..] == rows[1..] + [row];
      FindAfterInsert(rows[1..], row, email);
      calc {
        FindUserByEmail(rows + [row], email);
        head + FindUserByEmail(rows[1..] + [row], email);
        head + (FindUserByEmail(rows[1..], email) + tail);
        (head + FindUserByEmail(rows[1..], email)) + tail;
        FindUserByEmail(rows, email) + tail;
      }
    }
  }

  /** After the update, the query for that email finds as many rows as before,
      each holding exactly the new code and expiry. */
  lemma {:induction false} FindAfterUpdate(rows: seq<UserRow>, email: string, otp: string, expiry: int)
    ensures |FindUserByEmail(WithOtp(rows, email, otp, expiry), email)| == |FindUserByEmail(rows, email)|
    ensures forall u | u in FindUserByEmail(WithOtp(rows, email, otp, expiry), email) ::
              u == UserRow(email, otp, expiry)
  {
    if rows != [] {
      var w := WithOtp(rows, email, otp, expiry);
      assert w[1..] == WithOtp(rows[1..], email, otp, expiry);
      FindAfterUpdate(rows[1..], email, otp, expiry);
    }
  }

  /** The update does not change what the query finds for any other email. */
  lemma {:induction false} UpdateLeavesOtherEmails(rows: seq<UserRow>, email: string, otp: string, expiry: int,
                                                   other: string)
    requires other != email
    ensures FindUserByEmail(WithOtp(rows, email, otp, expiry), other) == FindUserByEmail(rows, other)
  {
    if rows != [] {
      var w := WithOtp(rows, email, otp, expiry);
      assert w[1..] == WithOtp(rows[1..], email, otp, expiry);
      UpdateLeavesOtherEmails(rows[1..], email, otp, expiry, other);
    }
  }

  /** Updating an email that has no row leaves the whole table as it was. */
  lemma UpdateMissingEmailIsNoop(rows: seq<UserRow>, email: string, otp: string, expiry: int)
    requires FindUserByEmail(rows, email) == []
    ensures WithOtp(rows, email, otp, expiry) == rows
  {
    FindEmptyIff(rows, email);
  }

  /** Inserting a row for an email the table does not hold keeps emails unique. */
  lemma InsertKeepsEmailsUnique(rows: seq<UserRow>, row: UserRow)
    requires UniqueEmails(rows)
    requires FindUserByEmail(rows, row.email) == []
    ensures UniqueEmails(rows + [row])
  {
    FindEmptyIff(rows, row.email);
  }
}
