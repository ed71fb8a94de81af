/**
 * The login / sign-up form: its three validators, the change handler that
 * derives the username from the email, and the mode toggle. The form is a
 * value; each handler maps the old record to the new one.
 */
module LoginPage {

  datatype FormData = FormData(username: string, email: string, password: string)

  const EmptyForm := FormData("", "", "")

  /** The `name` attribute of the input that fired the change event. */
  datatype Field = UsernameField | EmailField | PasswordField

  datatype LoginState = LoginState(isLogin: bool, form: FormData)

  // ---------------------------------------------------------------------
  // Email
  // ---------------------------------------------------------------------

  const GmailSuffix: string := "@gmail.com"

  /** String.prototype.endsWith with its default end position. */
  predicate EndsWith(s: string, suffix: string) {
    |suffix| <= |s| && s[|s| - |suffix|..] == suffix
  }

  predicate IsEmailValid(email: string) {
    EndsWith(email, GmailSuffix)
  }

  /** An email is accepted exactly when it is some local part followed by "@gmail.com". */
  lemma EmailValidIff(email: string)
    ensures IsEmailValid(email) <==> exists local: string :: email == local + GmailSuffix
  {
    if IsEmailValid(email) {
      var local := email[..|email| - |GmailSuffix|];
      assert email == local + GmailSuffix;
    }
    if exists local: string :: email == local + GmailSuffix {
      var local: string :| email == local + GmailSuffix;
      assert email[|email| - |GmailSuffix|..] == GmailSuffix;
    }
  }

  // ---------------------------------------------------------------------
  // Password: /^(?=.*[0-9])(?=.*[!@#$%^&*])[A-Za-z0-9!@#$%^&*]{8,}$/
  // ---------------------------------------------------------------------

  /** The three bracket classes of the pattern. */
  datatype CharClass = Digit | Special | Allowed

  predicate IsDigitChar(c: char) {
    '0' <= c <= '9'
  }

  predicate IsSpecialChar(c: char) {
    c in "!@#$%^&*"
  }

  predicate IsLetter(c: char) {
    'A' <= c <= 'Z' || 'a' <= c <= 'z'
  }

  predicate Matches(k: CharClass, c: char) {
    match k
    case Digit => IsDigitChar(c)
    case Special => IsSpecialChar(c)
    case Allowed => IsLetter(c) || IsDigitChar(c) || IsSpecialChar(c)
  }

  /** The characters `.` does not match without the `s` flag. */
  predicate IsLineTerminator(c: char) {
    c == '\n' || c == '\r' || c == '\U{2028}' || c == '\U{2029}'
  }

  /** The lookahead body `.*[k]` matched from the start of `s`. */
  predicate DotStarThen(s: string, k: CharClass) {
    |s| > 0 && (Matches(k, s[0]) || (!IsLineTerminator(s[0]) && DotStarThen(s[1..], k)))
  }

  /** `[k]{min,}$` matched from the start of `s`. */
  predicate RepeatToEnd(s: string, k: CharClass, min: nat) {
    if |s| == 0 then min == 0
    else Matches(k, s[0]) && RepeatToEnd(s[1..], k, if min == 0 then 0 else min - 1)
  }

  const MinPasswordLength: nat := 8

  /** The anchored pattern tested on the whole password. */
  predicate IsPasswordValid(password: string) {
    && DotStarThen(password, Digit)
    && DotStarThen(password, Special)
    && RepeatToEnd(password, Allowed, MinPasswordLength)
  }

  /** The rule the error message states, as four independent conditions. */
  predicate PasswordRules(password: string) {
    && |password| >= MinPasswordLength
    && (exists i :: 0 <= i < |password| && IsDigitChar(password[i]))
    && (exists i :: 0 <= i < |password| && IsSpecialChar(password[i]))
    && (forall i :: 0 <= i < |password| ==> Matches(Allowed, password[i]))
  }

  /** `.*[k]` matches exactly when some character of class k comes before any line terminator. */
  lemma {:induction false} DotStarThenIff(s: string, k: CharClass)
    ensures DotStarThen(s, k) <==>
      exists i :: 0 <= i < |s| && Matches(k, s[i]) && forall j :: 0 <= j < i ==> !IsLineTerminator(s[j])
  {
    if |s| > 0 {
      DotStarThenIff(s[1..], k);
      if DotStarThen(s, k) && !Matches(k, s[0]) {
        var i :| 0 <= i < |s[1..]| && Matches(k, s[1..][i]) && forall j :: 0 <= j < i ==> !IsLineTerminator(s[1..][j]);
        assert Matches(k, s[i + 1]);
        assert forall j :: 0 <= j < i + 1 ==> !IsLineTerminator(s[j]) by {
          forall j | 0 <= j < i + 1
            ensures !IsLineTerminator(s[j])
          {
            if j > 0 {
              assert s[j] == s[1..][j - 1];
            }
          }
        }
      }
      if exists i :: 0 <= i < |s| && Matches(k, s[i]) && forall j :: 0 <= j < i ==> !IsLineTerminator(s[j]) {
        var i :| 0 <= i < |s| && Matches(k, s[i]) && forall j :: 0 <= j < i ==> !IsLineTerminator(s[j]);
        if i > 0 {
          assert Matches(k, s[1..][i - 1]);
          assert forall j :: 0 <= j < i - 1 ==> !IsLineTerminator(s[1..][j]) by {
            forall j | 0 <= j < i - 1
              ensures !IsLineTerminator(s[1..][j])
            {
              assert s[1..][j] == s[j + 1];
            }
          }
        }
      }
    }
  }

  /** `[k]{min,}$` matches exactly when there are at least min characters and all are of class k. */
  lemma {:induction false} RepeatToEndIff(s: string, k: CharClass, min: nat)
    ensures RepeatToEnd(s, k, min) <==> |s| >= min && forall i :: 0 <= i < |s| ==> Matches(k, s[i])
  {
    if |s| > 0 {
      RepeatToEndIff(s[1..], k, if min == 0 then 0 else min - 1);
      if forall i :: 0 <= i < |s| ==> Matches(k, s[i]) {
        assert forall i :: 0 <= i < |s[1..]| ==> Matches(k, s[1..][i]) by {
          forall i | 0 <= i < |s[1..]|
            ensures Matches(k, s[1..][i])
          {
            assert s[1..][i] == s[i + 1];
          }
        }
      }
      if RepeatToEnd(s, k, min) {
        forall i | 0 <= i < |s|
          ensures Matches(k, s[i])
        {
          if i > 0 {
            assert s[i] == s[1..][i - 1];
          }
        }
      }
    }
  }

  /** No allowed character is a line terminator, so the lookaheads reduce to "contains". */
  lemma ContainsBeforeTerminator(s: string, k: CharClass)
    requires forall i :: 0 <= i < |s| ==> Matches(Allowed, s[i])
    ensures DotStarThen(s, k) <==> exists i :: 0 <= i < |s| && Matches(k, s[i])
  {
    DotStarThenIff(s, k);
    if exists i :: 0 <= i < |s| && Matches(k, s[i]) {
      var i :| 0 <= i < |s| && Matches(k, s[i]);
      assert forall j :: 0 <= j < i ==> !IsLineTerminator(s[j]) by {
        forall j | 0 <= j < i
          ensures !IsLineTerminator(s[j])
        {
          AllowedIsNoTerminator(s[j]);
        }
      }
    }
  }

  lemma AllowedIsNoTerminator(c: char)
    requires Matches(Allowed, c)
    ensures !IsLineTerminator(c)
  {
  }

  /** The pattern accepts a password exactly when the four stated rules hold. */
  lemma PasswordValidIff(password: string)
    ensures IsPasswordValid(password) <==> PasswordRules(password)
  {
    RepeatToEndIff(password, Allowed, MinPasswordLength);
    if forall i :: 0 <= i < |password| ==> Matches(Allowed, password[i]) {
      ContainsBeforeTerminator(password, Digit);
      ContainsBeforeTerminator(password, Special);
    }
  }

  /** An accepted password has at least eight characters, a digit and a special character. */
  lemma PasswordValidImplies(password: string)
    requires IsPasswordValid(password)
    ensures |password| >= 8
    ensures exists i :: 0 <= i < |password| && '0' <= password[i] <= '9'
    ensures exists i :: 0 <= i < |password| && password[i] in "!@#$%^&*"
  {
    PasswordValidIff(password);
  }

  // ---------------------------------------------------------------------
  // The form
  // ---------------------------------------------------------------------

  /** Submission is enabled exactly when both fields pass. */
  predicate IsFormValid(form: FormData) {
    IsEmailValid(form.email) && IsPasswordValid(form.password)
  }

  lemma FormValidIff(form: FormData)
    ensures IsFormValid(form) <==>
      (exists local: string :: form.email == local + GmailSuffix) && PasswordRules(form.password)
  {
    EmailValidIff(form.email);
    PasswordValidIff(form.password);
  }

  /** The first element of `value.split("@")`: everything before the first '@'. */
  function UsernamePart(value: string): (u: string)
    ensures u <= value && '@' !in u
    ensures |u| == |value| || value[|u|] == '@'
  {
    if |value| == 0 || value[0] == '@' then ""
    else [value[0]] + UsernamePart(value[1..])
  }

  /** The three properties of UsernamePart determine it. */
  lemma {:induction false} UsernamePartUnique(value: string, p: string)
    requires p <= value && '@' !in p
    requires |p| == |value| || value[|p|] == '@'
    ensures UsernamePart(value) == p
  {
    if |value| > 0 && value[0] != '@' {
      assert |p| > 0 && p[0] == value[0];
      UsernamePartUnique(value[1..], p[1..]);
    }
  }

  /** The change handler of every input. */
  function HandleChange(form: FormData, name: Field, value: string): (r: FormData)
    ensures name == EmailField ==>
      && r.email == value && r.password == form.password
      && r.username <= value && '@' !in r.username
      && (|r.username| == |value| || value[|r.username|] == '@')
    ensures name == UsernameField ==>
      r.username == value && r.email == form.email && r.password == form.password
    ensures name == PasswordField ==>
      r.password == value && r.username == form.username && r.email == form.email
  {
    match name
    case EmailField => form.(email := value, username := UsernamePart(value))
    case UsernameField => form.(username := value)
    case PasswordField => form.(password := value)
  }

  /** Typing a valid address whose local part has no '@' sets the username to that local part. */
  lemma GmailUsername(form: FormData, local: string)
    requires '@' !in local
    ensures IsEmailValid(local + GmailSuffix)
    ensures HandleChange(form, EmailField, local + GmailSuffix).username == local
  {
    EmailValidIff(local + GmailSuffix);
    var value := local + GmailSuffix;
    assert value[..|local|] == local;
    assert value[|local|] == '@';
    UsernamePartUnique(value, local);
  }

  /** The link below the form: flip between log-in and sign-up and clear every field. */
  function ToggleMode(st: LoginState): (r: LoginState)
    ensures r.isLogin == !st.isLogin
    ensures r.form.username == "" && r.form.email == "" && r.form.password == ""
    ensures !IsFormValid(r.form)
  {
    LoginState(!st.isLogin, EmptyForm)
  }
}
