/** The input checks of the consumer app's login screen
    (ConsumerApp/src/screens/LoginScreen.tsx): the contact must be a well-formed
    email address or a ten-digit phone number, a name must be at least two
    UTF-16 code units long once trimmed, and the two buttons run these checks in
    a fixed order before any request leaves the device. Alerts and the
    `setLoginType` state update are user-interface effects and are not modelled;
    the contact kind the screen would remember is returned instead. */
module LoginValidation {
  import opened JsText
  import opened Wrappers

  datatype Mode = Login | Register

  datatype LoginType = Email | Phone

  datatype ContactError = BlankContact | InvalidEmail | InvalidPhone

  datatype NameError = BlankName | NameTooShort

  /** Why pressing "Send OTP" sent nothing. */
  datatype SendOtpRefusal = ContactRefused(contactError: ContactError) | NameRefused(nameError: NameError)

  /** One character of the class `[^\s@]`. */
  predicate IsEmailPartChar(c: char) {
    !IsWhitespace(c) && c != '@'
  }

  /** The sub-pattern `[^\s@]+`. */
  predicate IsEmailPart(s: string) {
    |s| > 0 && forall i | 0 <= i < |s| :: IsEmailPartChar(s[i])
  }

  /** The language of the regular expression `^[^\s@]+@[^\s@]+\.[^\s@]+$`:
      three non-empty parts joined by '@' and '.'. */
  ghost predicate InEmailLanguage(s: string) {
    exists user, host, suffix ::
      && IsEmailPart(user) && IsEmailPart(host) && IsEmailPart(suffix)
      && s == user + ['@'] + host + ['.'] + suffix
  }

  /** The decision `emailRegex.test(s)` makes, read off the shape of `s`: no
      whitespace anywhere, exactly one '@' and not at the start, and after it a
      '.' that is neither the first nor the last character of the domain. */
  predicate MatchesEmailPattern(s: string) {
    && (forall i | 0 <= i < |s| :: !IsWhitespace(s[i]))
    && exists k | 0 < k < |s| ::
         && s[k] == '@'
         && (forall i | 0 <= i < |s| && i != k :: s[i] != '@')
         && exists j | k + 1 < j < |s| - 1 :: s[j] == '.'
  }

  /** The regular expression `^\d{10}$`. Such a contact has no '@', so it reaches
      the phone test, and nothing for `trim` to strip. */
  predicate IsTenDigitPhone(s: string)
    ensures IsTenDigitPhone(s) ==> '@' !in s && Trim(s) == s
  {
    |s| == 10 && AllDigits(s)
  }

  /** `validateContact`: blank first, then the email pattern when the contact
      contains '@', the phone pattern otherwise. Both patterns are tested on the
      untrimmed contact. */
  function ValidateContact(contact: string): (r: Result<LoginType, ContactError>)
    ensures r == Failure(BlankContact) <==> AllWhitespace(contact)
    ensures r == Failure(InvalidEmail) <==>
              !AllWhitespace(contact) && '@' in contact && !MatchesEmailPattern(contact)
    ensures r == Failure(InvalidPhone) <==>
              !AllWhitespace(contact) && '@' !in contact && !IsTenDigitPhone(contact)
  {
    if IsBlank(contact) then Failure(BlankContact)
    else if '@' in contact then
      (if MatchesEmailPattern(contact) then Success(Email) else Failure(InvalidEmail))
    else if IsTenDigitPhone(contact) then Success(Phone)
    else Failure(InvalidPhone)
  }

  /** `validateName`: rejects a blank name, then a trimmed name shorter than
      two UTF-16 code units. */
  function ValidateName(name: string): (r: Result<(), NameError>)
    ensures r == Failure(BlankName) <==> AllWhitespace(name)
  {
    if IsBlank(name) then Failure(BlankName)
    else if Utf16Length(Trim(name)) < 2 then Failure(NameTooShort)
    else Success(())
  }

  /** The guards at the top of `handleSendOTP`: the contact is checked first and
      its error wins; the name is checked only when registering. */
  function SendOtpGuard(mode: Mode, contact: string, name: string): (r: Result<LoginType, SendOtpRefusal>)
    ensures ValidateContact(contact).Failure? ==> r == Failure(ContactRefused(ValidateContact(contact).error))
    ensures r.Failure? && r.error.NameRefused? ==> mode == Register && ValidateContact(contact).Success?
    ensures mode == Register && ValidateContact(contact).Success? && ValidateName(name).Failure? ==>
              r == Failure(NameRefused(ValidateName(name).error))
    ensures r.Success? ==> ValidateContact(contact) == Success(r.value)
  {
    match ValidateContact(contact)
    case Failure(e) => Failure(ContactRefused(e))
    case Success(kind) =>
      if mode == Register then
        (match ValidateName(name)
         case Failure(e) => Failure(NameRefused(e))
         case Success(_) => Success(kind))
      else Success(kind)
  }

  /** The guard at the top of `handleVerifyOTP`: true when the verification
      request is sent, which happens exactly when the code holds a character
      other than whitespace. */
  function VerifyOtpGuard(otp: string): (send: bool)
    ensures send <==> exists i | 0 <= i < |otp| :: !IsWhitespace(otp[i])
  {
    !IsBlank(otp)
  }

  /** The shape test and the regular expression accept the same strings. */
  lemma EmailPatternIsRegex(s: string)
    ensures MatchesEmailPattern(s) <==> InEmailLanguage(s)
  {
    if InEmailLanguage(s) {
      var user, host, suffix :|
        && IsEmailPart(user) && IsEmailPart(host) && IsEmailPart(suffix)
        && s == user + ['@'] + host + ['.'] + suffix;
      RegexMatchHasShape(user, host, suffix);
    }
    if MatchesEmailPattern(s) {
      var k :| 0 < k < |s| && s[k] == '@' && (forall i | 0 <= i < |s| && i != k :: s[i] != '@')
               && exists j | k + 1 < j < |s| - 1 :: s[j] == '.';
      var j :| k + 1 < j < |s| - 1 && s[j] == '.';
      ShapeSplitsIntoParts(s, k, j);
    }
  }

  lemma RegexMatchHasShape(user: string, host: string, suffix: string)
    requires IsEmailPart(user) && IsEmailPart(host) && IsEmailPart(suffix)
    ensures MatchesEmailPattern(user + ['@'] + host + ['.'] + suffix)
  {
    var s := user + ['@'] + host + ['.'] + suffix;
    var k := |user|;
    var j := k + 1 + |host|;
    assert s[k] == '@' && s[j] == '.';
    forall i | 0 <= i < |s| ensures !IsWhitespace(s[i]) && (i != k ==> s[i] != '@') {
      if i < k { assert s[i] == user[i]; }
      else if k < i < j { assert s[i] == host[i - k - 1]; }
      else if j < i { assert s[i] == suffix[i - j - 1]; }
    }
    assert k + 1 < j < |s| - 1;
  }

  lemma ShapeSplitsIntoParts(s: string, k: nat, j: nat)
    requires forall i | 0 <= i < |s| :: !IsWhitespace(s[i])
    requires 0 < k && k + 1 < j < |s| - 1
    requires s[k] == '@' && s[j] == '.'
    requires forall i | 0 <= i < |s| && i != k :: s[i] != '@'
    ensures InEmailLanguage(s)
  {
    var user, host, suffix := s[..k], s[k + 1..j], s[j + 1..];
    assert s == user + ['@'] + host + ['.'] + suffix;
    assert IsEmailPart(user) by {
      forall i | 0 <= i < |user| ensures IsEmailPartChar(user[i]) { assert user[i] == s[i]; }
    }
    assert IsEmailPart(host) by {
      forall i | 0 <= i < |host| ensures IsEmailPartChar(host[i]) { assert host[i] == s[k + 1 + i]; }
    }
    assert IsEmailPart(suffix) by {
      forall i | 0 <= i < |suffix| ensures IsEmailPartChar(suffix[i]) { assert suffix[i] == s[j + 1 + i]; }
    }
  }

  /** A contact is accepted as an email address exactly when it is in the
      language of the email regular expression, and as a phone number exactly
      when it is ten ASCII digits; everything else is rejected. */
  lemma ContactAcceptedIff(contact: string)
    ensures ValidateContact(contact) == Success(Email) <==> InEmailLanguage(contact)
    ensures ValidateContact(contact) == Success(Phone) <==> IsTenDigitPhone(contact)
    ensures ValidateContact(contact).Failure? <==> !InEmailLanguage(contact) && !IsTenDigitPhone(contact)
  {
    EmailPatternIsRegex(contact);
    if MatchesEmailPattern(contact) {
      var k :| 0 < k < |contact| && contact[k] == '@';
      assert !IsWhitespace(contact[k]);
      assert '@' in contact;
    }
    if IsTenDigitPhone(contact) {
      assert !IsWhitespace(contact[0]);
      assert '@' !in contact;
    }
  }

  /** The patterns are tested on the untrimmed contact, so a contact that starts
      or ends with whitespace is rejected whatever it holds. */
  lemma PaddedContactRejected(contact: string)
    requires contact != []
    requires IsWhitespace(contact[0]) || IsWhitespace(contact[|contact| - 1])
    ensures ValidateContact(contact).Failure?
  {
    ContactAcceptedIff(contact);
    EmailPatternIsRegex(contact);
  }

  /** A name has enough text when it holds two characters other than whitespace,
      or one that takes two UTF-16 code units. */
  ghost predicate HasTwoCodeUnitsOfText(name: string) {
    exists i, j | 0 <= i <= j < |name| ::
      !IsWhitespace(name[i]) && !IsWhitespace(name[j]) && (i < j || IsAstral(name[i]))
  }

  /** `validateName` accepts exactly the names with two code units of text
      between their first and last non-whitespace characters. */
  lemma NameAcceptedIff(name: string)
    ensures ValidateName(name).Success? <==> HasTwoCodeUnitsOfText(name)
  {
    if ValidateName(name).Success? {
      AcceptedNameHasText(name);
    }
    if HasTwoCodeUnitsOfText(name) {
      var i, j :| 0 <= i <= j < |name| && !IsWhitespace(name[i]) && !IsWhitespace(name[j])
                  && (i < j || IsAstral(name[i]));
      NameWithTextAccepted(name, i, j);
    }
  }

  lemma AcceptedNameHasText(name: string)
    requires ValidateName(name).Success?
    ensures HasTwoCodeUnitsOfText(name)
  {
    var t := Trim(name);
    var a := TrimIsSlice(name);
    var b := a + |t|;
    assert t != [] && Utf16Length(t) >= 2;
    assert name[a] == t[0] && name[b - 1] == t[|t| - 1];
    if |t| == 1 {
      assert !(forall i | 0 <= i < |t| :: !IsAstral(t[i]));
      assert IsAstral(name[a]);
    }
    assert a <= b - 1 && (a < b - 1 || IsAstral(name[a]));
  }

  lemma NameWithTextAccepted(name: string, i: nat, j: nat)
    requires i <= j < |name| && !IsWhitespace(name[i]) && !IsWhitespace(name[j])
    requires i < j || IsAstral(name[i])
    ensures ValidateName(name).Success?
  {
    var t := Trim(name);
    var a := TrimIsSlice(name);
    var b := a + |t|;
    assert a <= i && j < b;
    assert t[i - a] == name[i];
    if i == j {
      assert !(forall m | 0 <= m < |t| :: !IsAstral(t[m]));
    }
  }

  /** Sending a code is attempted exactly when the contact is a valid email or
      phone number and, when registering, the name has enough text; the name is
      never looked at in login mode. */
  lemma SendOtpAcceptedIff(mode: Mode, contact: string, name: string)
    ensures SendOtpGuard(mode, contact, name).Success? <==>
              && (InEmailLanguage(contact) || IsTenDigitPhone(contact))
              && (mode == Register ==> HasTwoCodeUnitsOfText(name))
  {
    ContactAcceptedIff(contact);
    NameAcceptedIff(name);
  }
}
