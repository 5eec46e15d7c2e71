/** Registration input checks: the username, email and password validators of
    the registration form, and the username and password fields that run them
    after the string-field checks. */
module Registration {
  import opened Results
  import opened Text
  import opened FormFields

  const UsernameMinLength: nat := 4
  /** From the `username` column, `max_length=150`. */
  const UsernameMaxLength: nat := 150
  const PasswordMinLength: nat := 8

  /** `re.match(r'...$', v)`: `$` matches at the end of the string or just before
      a final line feed. */
  predicate AnchoredMatch(v: string, body: string -> bool) {
    body(v) || (|v| > 0 && v[|v| - 1] == '\n' && body(v[..|v| - 1]))
  }

  predicate LettersAndSpaces(v: string) {
    forall i :: 0 <= i < |v| ==> IsLetter(v[i]) || IsSpace(v[i])
  }

  /** `^[a-zA-Z\s]+` up to the anchor. */
  predicate UsernameBody(v: string) {
    |v| > 0 && LettersAndSpaces(v)
  }

  const UsernameMessage := "Username must contain only letters and spaces"

  /** Strips the username and accepts it when it is non-empty and made only of
      letters and whitespace. */
  function ValidateUsername(value: string): (r: Result<string, string>)
    ensures r.Ok? <==> Strip(value) != [] && LettersAndSpaces(Strip(value))
    ensures r.Ok? ==> r.value == Strip(value)
    ensures r.Ok? ==> IsLetter(r.value[0]) && IsLetter(r.value[|r.value| - 1])
    ensures r.Err? ==> r.error == UsernameMessage
  {
    var v := Strip(value);
    StripEnds(value);
    if !AnchoredMatch(v, UsernameBody) then Err(UsernameMessage)
    else Ok(v)
  }

  /** `[\w\.-]`: a word character, a dot or a hyphen. */
  predicate IsEmailChar(c: char) {
    IsWord(c) || c == '.' || c == '-'
  }

  /** `[\w\.-]+@[\w\.-]+\.\w+` matches all of `s`: some split puts the `@` at `i`
      and the final dot at `j`. */
  ghost predicate EmailBody(s: string) {
    exists i, j ::
      && 0 < i && i + 1 < j && j + 1 < |s|
      && s[i] == '@' && s[j] == '.'
      && (forall k :: 0 <= k < i ==> IsEmailChar(s[k]))
      && (forall k :: i < k < j ==> IsEmailChar(s[k]))
      && (forall k :: j < k < |s| ==> IsWord(s[k]))
  }

  /** The email pattern with its `^` and `$` anchors, as `re.match` applies it. */
  ghost predicate EmailPattern(s: string) {
    EmailBody(s) || (|s| > 0 && s[|s| - 1] == '\n' && EmailBody(s[..|s| - 1]))
  }

  /** A direct check of the pattern body: the first `@` and the last dot split
      the string into the three parts. */
  predicate ScanEmailBody(s: string) {
    match FindFirst(s, '@')
    case None => false
    case Some(i) =>
      match FindLast(s, '.')
      case None => false
      case Some(j) =>
        && 0 < i && i + 1 < j && j + 1 < |s|
        && (forall k :: 0 <= k < j && k != i ==> IsEmailChar(s[k]))
        && (forall k :: j < k < |s| ==> IsWord(s[k]))
  }

  lemma ScanEmailBodyIff(s: string)
    ensures ScanEmailBody(s) <==> EmailBody(s)
  {
    if EmailBody(s) {
      EmailBodyScans(s);
    }
    if ScanEmailBody(s) {
      var i := FindFirst(s, '@').value;
      var j := FindLast(s, '.').value;
      assert forall k :: i < k < j ==> IsEmailChar(s[k]);
    }
  }

  lemma EmailBodyScans(s: string)
    requires EmailBody(s)
    ensures ScanEmailBody(s)
  {
    var i, j :| && 0 < i && i + 1 < j && j + 1 < |s|
      && s[i] == '@' && s[j] == '.'
      && (forall k :: 0 <= k < i ==> IsEmailChar(s[k]))
      && (forall k :: i < k < j ==> IsEmailChar(s[k]))
      && (forall k :: j < k < |s| ==> IsWord(s[k]));
    FirstAtIs(s, i);
    LastDotIs(s, j);
  }

  lemma FirstAtIs(s: string, i: nat)
    requires i < |s| && s[i] == '@'
    requires forall k :: 0 <= k < i ==> IsEmailChar(s[k])
    ensures FindFirst(s, '@') == Some(i)
  {
    assert '@' in s;
  }

  lemma LastDotIs(s: string, j: nat)
    requires j < |s| && s[j] == '.'
    requires forall k :: j < k < |s| ==> IsWord(s[k])
    ensures FindLast(s, '.') == Some(j)
  {
    assert '.' in s;
  }

  const EmailMessage := "Invalid email format"

  /** Accepts the email, unchanged, when the whole of it matches the pattern. */
  function ValidateEmail(value: string): (r: Result<string, string>)
    ensures r.Ok? <==> EmailPattern(value)
    ensures r.Ok? ==> r.value == value
    ensures r.Err? ==> r.error == EmailMessage
  {
    ScanEmailPatternIff(value);
    if !ScanEmailPattern(value) then Err(EmailMessage) else Ok(value)
  }

  predicate ScanEmailPattern(s: string) {
    ScanEmailBody(s) || (|s| > 0 && s[|s| - 1] == '\n' && ScanEmailBody(s[..|s| - 1]))
  }

  lemma ScanEmailPatternIff(s: string)
    ensures ScanEmailPattern(s) <==> EmailPattern(s)
  {
    ScanEmailBodyIff(s);
    if |s| > 0 {
      ScanEmailBodyIff(s[..|s| - 1]);
    }
  }

  /** The characters of `[!@#$%^&*()_+\-=\[\]{};:"\\|,.<>\/?]`. */
  const SpecialChars: string := "!@#$%^&*()_+-=[]{};:\"\\|,.<>/?"

  predicate IsSpecial(c: char) {
    c in SpecialChars
  }

  /** The character classes the password policy asks for. */
  datatype CharClass = Uppercase | Lowercase | Special | Digit

  /** The order in which the policy checks the classes. */
  const PasswordPolicy: seq<CharClass> := [Uppercase, Lowercase, Special, Digit]

  predicate InClass(c: char, k: CharClass) {
    match k
    case Uppercase => IsUpper(c)
    case Lowercase => IsLower(c)
    case Special => IsSpecial(c)
    case Digit => IsDigit(c)
  }

  /** `re.search` for the class succeeds. */
  predicate Has(v: string, k: CharClass) {
    exists i :: 0 <= i < |v| && InClass(v[i], k)
  }

  function MissingMessage(k: CharClass): string {
    match k
    case Uppercase => "Password must contain at least one uppercase letter"
    case Lowercase => "Password must contain at least one lowercase letter"
    case Special => "Password must contain at least one special character"
    case Digit => "Password must contain at least one number"
  }

  /** The first class of `classes` that `v` lacks. */
  function FirstMissing(v: string, classes: seq<CharClass>): (r: Option<nat>)
    ensures r.None? <==> forall i :: 0 <= i < |classes| ==> Has(v, classes[i])
    ensures r.Some? ==> r.value < |classes| && !Has(v, classes[r.value])
    ensures r.Some? ==> forall i :: 0 <= i < r.value ==> Has(v, classes[i])
  {
    if classes == [] then None
    else if !Has(v, classes[0]) then Some(0)
    else
      match FirstMissing(v, classes[1..])
      case None => None
      case Some(i) => Some(i + 1)
  }

  /** Strips the password and checks the classes in policy order; the first
      class it lacks names the error. */
  function ValidatePassword(value: string): (r: Result<string, string>)
    ensures r.Ok? <==> forall i :: 0 <= i < |PasswordPolicy| ==> Has(Strip(value), PasswordPolicy[i])
    ensures r.Ok? ==> r.value == Strip(value)
    ensures r.Err? ==>
      exists i :: (
        && 0 <= i < |PasswordPolicy|
        && r.error == MissingMessage(PasswordPolicy[i])
        && !Has(Strip(value), PasswordPolicy[i])
        && forall j :: 0 <= j < i ==> Has(Strip(value), PasswordPolicy[j]))
  {
    var v := Strip(value);
    match FirstMissing(v, PasswordPolicy)
    case None => Ok(v)
    case Some(i) => Err(MissingMessage(PasswordPolicy[i]))
  }

  /** Letters, digits and whitespace never count as special characters. */
  lemma SpecialExcludesLettersDigitsSpaces(c: char)
    requires IsLetter(c) || IsDigit(c) || IsSpace(c)
    ensures !IsSpecial(c)
  {
  }

  /** The username field: required, 4 to 150 characters, not already taken,
      then `validate_username` on the trimmed value. */
  function RegisterUsername(raw: string, usernames: set<string>): (r: Result<string, seq<FieldError>>)
    ensures r.Ok? <==>
      && !AllSpace(raw)
      && Strip(raw) !in usernames
      && UsernameMinLength <= |Strip(raw)| <= UsernameMaxLength
      && LettersAndSpaces(Strip(raw))
    ensures r.Ok? ==> r.value == Strip(raw) && IsLetter(r.value[0]) && IsLetter(r.value[|r.value| - 1])
  {
    StripIdempotent(raw);
    StripEmptyIff(raw);
    LettersHaveNoNull(Strip(raw));
    CharField(raw, UsernameMinLength, Some(UsernameMaxLength), Some(usernames), ValidateUsername)
  }

  /** A string of letters and whitespace holds no null character. */
  lemma LettersHaveNoNull(v: string)
    ensures LettersAndSpaces(v) ==> '\0' !in v
  {
    if LettersAndSpaces(v) {
      forall k | 0 <= k < |v| ensures v[k] != '\0' {
        assert IsLetter(v[k]) || IsSpace(v[k]);
      }
    }
  }

  /** The password field: required, at least 8 characters, no null character,
      then `validate_password` on the trimmed value. */
  function RegisterPassword(raw: string): (r: Result<string, seq<FieldError>>)
    ensures r.Ok? <==>
      && !AllSpace(raw)
      && |Strip(raw)| >= PasswordMinLength
      && '\0' !in Strip(raw)
      && Has(Strip(raw), Uppercase) && Has(Strip(raw), Lowercase)
      && Has(Strip(raw), Special) && Has(Strip(raw), Digit)
    ensures r.Ok? ==> r.value == Strip(raw)
    ensures '\0' in Strip(raw) ==> r.Err? && NullCharacter in r.error
  {
    StripIdempotent(raw);
    StripEmptyIff(raw);
    assert PasswordPolicy[0] == Uppercase && PasswordPolicy[1] == Lowercase;
    assert PasswordPolicy[2] == Special && PasswordPolicy[3] == Digit;
    CharField(raw, PasswordMinLength, None, None, ValidatePassword)
  }

  /** A password that meets every class but ends in a null character is
      refused by the field before the policy sees it. */
  lemma NullPasswordRefused()
    ensures RegisterPassword("Abcdef1!\0") == Err([NullCharacter])
  {
    var s := "Abcdef1!\0";
    assert StripBounds(s, 0, |s|);
    assert s[0..|s|] == s;
    StripUnique(s, s);
    assert s[8] == '\0';
    assert FieldChecks(s, PasswordMinLength, None, None) == [NullCharacter];
  }
}
