/** The one-time-code login backend (Backend_login/controllers/authController.js,
    whose handlers Backend_login/server.js repeats inline with the same logic):
    sending a code draws a six-digit number, stores it with an expiry five
    minutes ahead (inserting a row for a new email, updating the rows of a known
    one) and mails it; verifying is a read-only query for a row with that email,
    that code and an expiry still in the future. Instants are integers in
    milliseconds and the current time is a parameter. */
module OtpAuth {
  import opened JsText
  import opened UserModel

  /** `5 * 60000` milliseconds: a code's lifetime. */
  const OtpLifetimeMs: int := 5 * 60000

  /** A string `generateOTP` can return: the decimal form of a whole number from
      100000 to 999999. */
  predicate IsOtpCode(code: string) {
    && |code| == 6 && AllDigits(code) && code[0] != '0'
    && 100000 <= DecimalValue(code) <= 999999
  }

  /** Every number `Math.floor(100000 + Math.random() * 900000)` can yield is
      written with six digits, the first of them not zero. */
  lemma SixDigitCode(n: nat)
    requires 100000 <= n <= 999999
    ensures IsOtpCode(DecimalString(n))
  {
    assert Pow10(5) == 100000 && Pow10(6) == 1000000;
    DecimalStringLength(n, 5);
  }

  /** `generateOTP`: the random draw is a nondeterministic choice in its range. */
  method GenerateOtp() returns (code: string)
    ensures IsOtpCode(code)
  {
    var n: nat :| 100000 <= n <= 999999;
    SixDigitCode(n);
    code := DecimalString(n);
  }

  /** The table after the send-OTP handler, having drawn `code` at instant `now`,
      ran its insert-or-update for `email`. */
  function AfterSendOtp(rows: seq<UserRow>, email: string, code: string, now: int): (r: seq<UserRow>)
    ensures |r| == |rows| + (if FindUserByEmail(rows, email) == [] then 1 else 0)
    ensures forall i | 0 <= i < |rows| && rows[i].email != email :: r[i] == rows[i]
  {
    if FindUserByEmail(rows, email) == [] then rows + [UserRow(email, code, now + OtpLifetimeMs)]
    else WithOtp(rows, email, code, now + OtpLifetimeMs)
  }

  /** `sendOTP`: look the email up, insert a row when there is none, otherwise
      update its rows; the mail is sent and `{ message: "OTP sent!" }` answered
      in every case. Returns the code that was mailed. */
  method SendOtp(users: UsersTable, email: string, now: int) returns (code: string)
    modifies users
    ensures IsOtpCode(code)
    ensures users.rows == AfterSendOtp(old(users.rows), email, code, now)
  {
    code := GenerateOtp();
    var otpExpiry := now + OtpLifetimeMs;
    var result := FindUserByEmail(users.rows, email);
    if |result| == 0 {
      users.InsertUser(email, code, otpExpiry);
    } else {
      users.UpdateUserOtp(email, code, otpExpiry);
    }
  }

  /** The two answers of the verify handler. */
  datatype VerifyResponse = Verified | InvalidOrExpired {
    function Status(): int {
      if Verified? then 200 else 400
    }
  }

  /** `verifyOTP`: `SELECT * FROM users WHERE email = ? AND otp = ? AND
      otp_expiry > NOW()`, answering 400 when no row matches. */
  function VerifyOtp(rows: seq<UserRow>, email: string, otp: string, now: int): (r: VerifyResponse)
    ensures r == Verified <==> exists u | u in FindUserByEmail(rows, email) :: u.otp == otp && u.otpExpiry > now
  {
    if exists i | 0 <= i < |rows| :: Matches(rows[i], email, otp, now) then Verified else InvalidOrExpired
  }

  /** The WHERE clause of the verify query. */
  predicate Matches(row: UserRow, email: string, otp: string, now: int) {
    row.email == email && row.otp == otp && row.otpExpiry > now
  }

  /** Right after a send, verification for that email succeeds exactly for the
      code just sent and exactly before `now + 300000`: an earlier, different
      code no longer verifies, the new one verifies as often as it is tried
      until it expires, and at the expiry instant itself it fails. */
  lemma VerifyAfterSend(rows: seq<UserRow>, email: string, code: string, now: int, otp: string, t: int)
    ensures VerifyOtp(AfterSendOtp(rows, email, code, now), email, otp, t) == Verified
            <==> otp == code && t < now + OtpLifetimeMs
  {
    var after := AfterSendOtp(rows, email, code, now);
    var expiry := now + OtpLifetimeMs;
    var good := otp == code && t < expiry;
    FindEmptyIff(rows, email);
    if FindUserByEmail(rows, email) == [] {
      assert after[|rows|] == UserRow(email, code, expiry);
      if good {
        assert Matches(after[|rows|], email, otp, t);
      }
      if VerifyOtp(after, email, otp, t) == Verified {
        var i :| 0 <= i < |after| && Matches(after[i], email, otp, t);
        assert i == |rows|;
      }
    } else {
      var k :| 0 <= k < |rows| && rows[k].email == email;
      assert after[k] == UserRow(email, code, expiry);
      if good {
        assert Matches(after[k], email, otp, t);
      }
      if VerifyOtp(after, email, otp, t) == Verified {
        var i :| 0 <= i < |after| && Matches(after[i], email, otp, t);
        assert rows[i].email == email;
        assert after[i] == UserRow(email, code, expiry);
      }
    }
  }

  /** A send leaves every other email's rows, and so its verification, as they were. */
  lemma SendOtpLeavesOtherEmails(rows: seq<UserRow>, email: string, code: string, now: int,
                                 other: string, otp: string, t: int)
    requires other != email
    ensures FindUserByEmail(AfterSendOtp(rows, email, code, now), other) == FindUserByEmail(rows, other)
    ensures VerifyOtp(AfterSendOtp(rows, email, code, now), other, otp, t) == VerifyOtp(rows, other, otp, t)
  {
    var after := AfterSendOtp(rows, email, code, now);
    if FindUserByEmail(rows, email) == [] {
      FindAfterInsert(rows, UserRow(email, code, now + OtpLifetimeMs), other);
      assert forall i | 0 <= i < |rows| :: after[i] == rows[i];
    } else {
      UpdateLeavesOtherEmails(rows, email, code, now + OtpLifetimeMs, other);
    }
  }

  /** Started from a table with one row per email, a send leaves exactly one row
      for the email, holding the new code and its expiry, and still one row per email. */
  lemma SendOtpKeepsOneRowPerEmail(rows: seq<UserRow>, email: string, code: string, now: int)
    requires UniqueEmails(rows)
    ensures UniqueEmails(AfterSendOtp(rows, email, code, now))
    ensures FindUserByEmail(AfterSendOtp(rows, email, code, now), email) == [UserRow(email, code, now + OtpLifetimeMs)]
  {
    var row := UserRow(email, code, now + OtpLifetimeMs);
    var after := AfterSendOtp(rows, email, code, now);
    if FindUserByEmail(rows, email) == [] {
      assert after == rows + [row];
      InsertKeepsEmailsUnique(rows, row);
      FindAfterInsert(rows, row, email);
      assert [] + [row] == [row];
    } else {
      FindEmptyIff(rows, email);
      var i :| 0 <= i < |rows| && rows[i].email == email;
      assert after == WithOtp(rows, email, code, now + OtpLifetimeMs);
      assert UniqueEmails(after) by {
        forall j, k | 0 <= j < k < |after| ensures after[j].email != after[k].email {
          assert after[j].email == rows[j].email && after[k].email == rows[k].email;
        }
      }
      assert after[i] == row;
      OnlyRowForEmail(after, i);
    }
  }

  /** With one row per email, the query for the email of row `i` finds just that row. */
  lemma {:induction false} OnlyRowForEmail(rows: seq<UserRow>, i: nat)
    requires UniqueEmails(rows) && i < |rows|
    ensures FindUserByEmail(rows, rows[i].email) == [rows[i]]
  {
    var email := rows[i].email;
    if i == 0 {
      assert FindUserByEmail(rows[1..], email) == [] by {
        FindEmptyIff(rows[1..], email);
      }
    } else {
      assert rows[0].email != email;
      assert rows[1..][i - 1] == rows[i];
      OnlyRowForEmail(rows[1..], i - 1);
    }
  }

  /** An email with no row never verifies: the handler answers 400. */
  lemma VerifyUnknownEmailFails(rows: seq<UserRow>, email: string, otp: string, now: int)
    requires FindUserByEmail(rows, email) == []
    ensures VerifyOtp(rows, email, otp, now).Status() == 400
  {
    FindEmptyIff(rows, email);
  }

  /** Verification changes nothing, so a code that verifies at `t` also verifies
      at every earlier instant, and one that fails at `t` fails at every later one. */
  lemma VerifiedEarlierToo(rows: seq<UserRow>, email: string, otp: string, t: int, earlier: int)
    requires earlier <= t
    requires VerifyOtp(rows, email, otp, t) == Verified
    ensures VerifyOtp(rows, email, otp, earlier) == Verified
  {
  }
}
