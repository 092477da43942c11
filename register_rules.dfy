/** The registration form's field rules: a required user name, an email and a password
    that must match their patterns, and a required role chosen from a select whose
    first option is an empty placeholder. */
module RegisterRules {

  import opened Options
  import opened JsText
  import opened FormRules

  predicate IsLower(c: char) { 'a' <= c <= 'z' }
  predicate IsUpper(c: char) { 'A' <= c <= 'Z' }
  predicate IsLetter(c: char) { IsLower(c) || IsUpper(c) }

  /** `[a-zA-Z0-9._%+-]`, the characters before the '@'. */
  predicate LocalChar(c: char)
  {
    IsLetter(c) || IsDigit(c) || c == '.' || c == '_' || c == '%' || c == '+' || c == '-'
  }

  /** `[a-zA-Z0-9.-]`, the characters of the domain before its last '.'. */
  predicate DomainChar(c: char)
  {
    IsLetter(c) || IsDigit(c) || c == '.' || c == '-'
  }

  /** `[a-zA-Z\d!@#$%^&*]`, the characters a password may use. */
  predicate PasswordChar(c: char)
  {
    IsLetter(c) || IsDigit(c)
    || c == '!' || c == '@' || c == '#' || c == '$' || c == '%' || c == '^' || c == '&' || c == '*'
  }

  // ---------------------------------------------------------------- email

  const EmailMessage := "Please enter a valid email address"

  /** `^[a-zA-Z0-9._%+-]+@[a-zA-Z0-9.-]+\.[a-zA-Z]{2,}$` matched with the '@' at i and the
      '.' before the top-level part at j: s = L "@" D "." T with L non-empty over the
      local characters, D non-empty over the domain characters and T two or more
      letters. */
  predicate EmailSplit(s: string, i: int, j: int)
  {
    && 0 < i && i + 1 < j && j + 2 < |s|
    && s[i] == '@' && s[j] == '.'
    && (forall k :: 0 <= k < i ==> LocalChar(s[k]))
    && (forall k :: i < k < j ==> DomainChar(s[k]))
    && (forall k :: j < k < |s| ==> IsLetter(s[k]))
  }

  /** The email pattern: some split of s matches it. */
  ghost predicate EmailPattern(s: string)
  {
    exists i, j :: EmailSplit(s, i, j)
  }

  /** How the pattern is decided: no local, domain or letter character is an '@' and no
      letter is a '.', so the only split to try is at the first '@' and the last '.'. */
  predicate ValidEmail(s: string)
  {
    match (IndexOf(s, '@'), LastIndexOf(s, '.'))
    case (Some(i), Some(j)) => EmailSplit(s, i, j)
    case _ => false
  }

  /** The decision agrees with the pattern, in both directions. */
  lemma ValidEmailIsPattern(s: string)
    ensures ValidEmail(s) <==> EmailPattern(s)
  {
    if EmailPattern(s) {
      var i, j :| EmailSplit(s, i, j);
      assert IndexOf(s, '@').Some? by { assert s[i] == '@'; }
      assert LastIndexOf(s, '.').Some? by { assert s[j] == '.'; }
    }
  }

  /** Every accepted email holds exactly one '@'. */
  lemma AcceptedEmailOneAt(s: string)
    requires ValidEmail(s)
    ensures multiset(s)['@'] == 1
  {
    var i := IndexOf(s, '@').value;
    var j := LastIndexOf(s, '.').value;
    assert EmailSplit(s, i, j);
    var front, back := s[..i], s[i + 1..];
    assert '@' !in front;
    assert '@' !in back by {
      forall k | 0 <= k < |back| ensures back[k] != '@' {
        assert back[k] == s[i + 1 + k];
      }
    }
    assert multiset(front)['@'] == 0 && multiset(back)['@'] == 0;
    assert s == front + [s[i]] + back;
    assert multiset(s) == multiset(front) + multiset([s[i]]) + multiset(back);
  }

  /** In every accepted email the text after the last '.' is two or more letters. */
  lemma AcceptedEmailTopLevel(s: string)
    requires ValidEmail(s)
    ensures LastIndexOf(s, '.').Some?
    ensures var j := LastIndexOf(s, '.').value;
      |s| - (j + 1) >= 2 && forall k :: j < k < |s| ==> IsLetter(s[k])
  {
    var i := IndexOf(s, '@').value;
    var j := LastIndexOf(s, '.').value;
    assert EmailSplit(s, i, j);
  }

  /** The `email` rule: required, then the pattern. */
  function EmailRule(value: string): (v: Verdict)
    ensures v == Accepted <==> EmailPattern(value)
    ensures value == "" ==> v == Missing
    ensures value != "" && v != Accepted ==> v == Rejected(EmailMessage)
  {
    ValidEmailIsPattern(value);
    if value == "" then Missing
    else if ValidEmail(value) then Accepted
    else Rejected(EmailMessage)
  }

  // ---------------------------------------------------------------- password

  const PasswordMessage := "The password must include numbers, upper and lower case letters."

  /** `^(?=.*[a-z])(?=.*[A-Z])(?=.*\d)[a-zA-Z\d!@#$%^&*]+$`: the three look-aheads ask for
      a lower-case letter, an upper-case letter and a digit somewhere, and the body asks
      for one or more characters, all from the class. */
  predicate PasswordPattern(s: string)
  {
    && (exists k :: 0 <= k < |s| && IsLower(s[k]))
    && (exists k :: 0 <= k < |s| && IsUpper(s[k]))
    && (exists k :: 0 <= k < |s| && IsDigit(s[k]))
    && |s| > 0
    && (forall k :: 0 <= k < |s| ==> PasswordChar(s[k]))
  }

  /** An accepted password is at least three characters long: the lower-case letter,
      the upper-case letter and the digit sit at three different places. */
  lemma AcceptedPasswordLength(s: string)
    requires PasswordPattern(s)
    ensures |s| >= 3
  {
    var a :| 0 <= a < |s| && IsLower(s[a]);
    var b :| 0 <= b < |s| && IsUpper(s[b]);
    var c :| 0 <= c < |s| && IsDigit(s[c]);
    assert a != b && b != c && a != c;
  }

  /** A password made of letters only is rejected. */
  lemma LettersOnlyRejected(s: string)
    requires forall k :: 0 <= k < |s| ==> IsLetter(s[k])
    ensures !PasswordPattern(s)
  {
  }

  /** A password made of digits only is rejected. */
  lemma DigitsOnlyRejected(s: string)
    requires AllDigits(s)
    ensures !PasswordPattern(s)
  {
  }

  /** Adding allowed characters on either side keeps a password accepted. */
  lemma PasswordExtends(s: string, left: string, right: string)
    requires PasswordPattern(s)
    requires forall k :: 0 <= k < |left| ==> PasswordChar(left[k])
    requires forall k :: 0 <= k < |right| ==> PasswordChar(right[k])
    ensures PasswordPattern(left + s + right)
  {
    var t := left + s + right;
    var a :| 0 <= a < |s| && IsLower(s[a]);
    var b :| 0 <= b < |s| && IsUpper(s[b]);
    var c :| 0 <= c < |s| && IsDigit(s[c]);
    assert t[|left| + a] == s[a] && t[|left| + b] == s[b] && t[|left| + c] == s[c];
    forall k | 0 <= k < |t| ensures PasswordChar(t[k]) {
      if k < |left| { assert t[k] == left[k]; }
      else if k < |left| + |s| { assert t[k] == s[k - |left|]; }
      else { assert t[k] == right[k - |left| - |s|]; }
    }
  }

  /** The `password` rule: required, then the pattern. */
  function PasswordRule(value: string): (v: Verdict)
    ensures v == Accepted <==> PasswordPattern(value)
    ensures value == "" ==> v == Missing
    ensures value != "" && v != Accepted ==> v == Rejected(PasswordMessage)
  {
    if value == "" then Missing
    else if PasswordPattern(value) then Accepted
    else Rejected(PasswordMessage)
  }

  // ---------------------------------------------------------------- user name and role

  /** The `userName` rule: required and nothing else, so white space alone passes. */
  function UserNameRule(value: string): (v: Verdict)
    ensures v == Accepted <==> |value| > 0
    ensures v != Accepted ==> v == Missing
  {
    RequiredField(value)
  }

  /** The options of the role select: the placeholder "---" with the empty value, then
      Admin and Client. */
  datatype RoleOption = Placeholder | Admin | Client
  {
    function Value(): string
    {
      match this
      case Placeholder => ""
      case Admin => "admin"
      case Client => "client"
    }
  }

  /** The `role` rule: required. */
  function RoleRule(choice: RoleOption): Verdict
  {
    RequiredField(choice.Value())
  }

  /** The placeholder fails the role rule and each real option passes, with the value
      "admin" or "client". */
  lemma RoleRuleChoices(choice: RoleOption)
    ensures RoleRule(choice) == Accepted <==> choice != Placeholder
    ensures RoleRule(choice) == Accepted ==> choice.Value() in {"admin", "client"}
    ensures choice == Placeholder ==> RoleRule(choice) == Missing
  {
  }

  // ---------------------------------------------------------------- the form

  datatype Registration = Registration(userName: string, email: string, password: string, role: RoleOption)

  /** The verdict of each field of the registration form. */
  datatype RegistrationErrors = RegistrationErrors(userName: Verdict, email: Verdict, password: Verdict, role: Verdict)
  {
    predicate Clean()
    {
      userName == Accepted && email == Accepted && password == Accepted && role == Accepted
    }
  }

  function CheckRegistration(form: Registration): (e: RegistrationErrors)
    ensures e.Clean() <==>
      form.userName != "" && EmailPattern(form.email) && PasswordPattern(form.password)
      && form.role != Placeholder
  {
    RoleRuleChoices(form.role);
    RegistrationErrors(UserNameRule(form.userName), EmailRule(form.email),
                       PasswordRule(form.password), RoleRule(form.role))
  }

  /** What a form that passes every rule guarantees about its values. */
  lemma CleanRegistration(form: Registration)
    requires CheckRegistration(form).Clean()
    ensures |form.userName| > 0
    ensures multiset(form.email)['@'] == 1
    ensures |form.password| >= 3
    ensures form.role.Value() == "admin" || form.role.Value() == "client"
  {
    ValidEmailIsPattern(form.email);
    AcceptedEmailOneAt(form.email);
    AcceptedPasswordLength(form.password);
  }

}
