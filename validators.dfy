/**
 * The field validators: upload size bound, and the e-mail and phone
 * regular expressions, each written out as a predicate over strings.
 */
module Validators {
  import opened Wrappers
  import opened Strings

  /** Largest accepted upload, in bytes (5 MiB). */
  const MAX_UPLOAD_SIZE: nat := 5242880

  datatype ValidationError = FileTooBig | InvalidEmailFormat | InvalidPhoneFormat

  datatype UploadedFile = UploadedFile(name: string, size: nat)

  /** `validate_file_size`. */
  function ValidateFileSize(value: UploadedFile): (r: Result<UploadedFile, ValidationError>)
    ensures r.Failure? <==> value.size > MAX_UPLOAD_SIZE
    ensures r.Failure? ==> r.error == FileTooBig
    ensures r.Success? ==> r.value == value
  {
    if value.size > MAX_UPLOAD_SIZE then Failure(FileTooBig) else Success(value)
  }

  // ------------------------------------------------------- character classes

  /** The bracketed classes of the two patterns; `\d` is taken as ASCII digits. */
  datatype CharClass =
    | LocalClass   // [a-zA-Z0-9_.+-]
    | LabelClass   // [a-zA-Z0-9-]
    | TailClass    // [a-zA-Z0-9-.]
    | DigitClass   // \d

  predicate Member(cls: CharClass, c: char) {
    var alnum := IsAsciiLetter(c) || IsDigit(c);
    match cls
    case LocalClass => alnum || c == '_' || c == '.' || c == '+' || c == '-'
    case LabelClass => alnum || c == '-'
    case TailClass => alnum || c == '-' || c == '.'
    case DigitClass => IsDigit(c)
  }

  /** `s` is a non-empty run of `cls`, as `[...]+` matches. */
  predicate Run(s: string, cls: CharClass) {
    |s| > 0 && forall i :: 0 <= i < |s| ==> Member(cls, s[i])
  }

  predicate AllIn(s: string, cls: CharClass) {
    forall i :: 0 <= i < |s| ==> Member(cls, s[i])
  }

  /** With `$` and no MULTILINE, a match may end before one final newline. */
  function WithoutFinalNewline(s: string): string {
    if |s| > 0 && s[|s| - 1] == '\n' then s[..|s| - 1] else s
  }

  // ----------------------------------------------------------------- e-mail

  /** `s` splits as local `@` label `.` tail, with '@' at `i` and '.' at `j`. */
  ghost predicate EmailSplitAt(s: string, i: nat, j: nat) {
    && i < j < |s|
    && s[i] == '@' && s[j] == '.'
    && Run(s[..i], LocalClass)
    && Run(s[i + 1..j], LabelClass)
    && Run(s[j + 1..], TailClass)
  }

  /** The pattern `[a-zA-Z0-9_.+-]+@[a-zA-Z0-9-]+\.[a-zA-Z0-9-.]+`, matched in full. */
  ghost predicate EmailPattern(s: string) {
    exists i: nat, j: nat :: EmailSplitAt(s, i, j)
  }

  /** `re.match(r'^...$', s)` for the e-mail pattern. */
  ghost predicate EmailRegexMatches(s: string) {
    EmailPattern(s) || (|s| > 0 && s[|s| - 1] == '\n' && EmailPattern(s[..|s| - 1]))
  }

  /** Scans for the first '@' and the first '.' after it. */
  predicate ScanEmail(s: string) {
    match IndexOf(s, '@')
    case None => false
    case Some(i) =>
      Run(s[..i], LocalClass) &&
      var rest := s[i + 1..];
      match IndexOf(rest, '.')
      case None => false
      case Some(j) => Run(rest[..j], LabelClass) && Run(rest[j + 1..], TailClass)
  }

  lemma ScanEmailMatchesPattern(s: string)
    ensures ScanEmail(s) <==> EmailPattern(s)
  {
    if ScanEmail(s) {
      ScanEmailGivesSplit(s);
    }
    if EmailPattern(s) {
      var i: nat, j: nat :| EmailSplitAt(s, i, j);
      SplitGivesScanEmail(s, i, j);
    }
  }

  lemma ScanEmailGivesSplit(s: string)
    requires ScanEmail(s)
    ensures EmailPattern(s)
  {
    var i := IndexOf(s, '@').value;
    var rest := s[i + 1..];
    var j := IndexOf(rest, '.').value;
    assert rest[..j] == s[i + 1..i + 1 + j];
    assert rest[j + 1..] == s[i + 1 + j + 1..];
    assert EmailSplitAt(s, i, i + 1 + j);
  }

  /** A character outside a class does not occur in a run of it. */
  lemma NotInRun(t: string, cls: CharClass, c: char)
    requires Run(t, cls) && !Member(cls, c)
    ensures c !in t
  {
    forall k | 0 <= k < |t| ensures t[k] != c {
      assert Member(cls, t[k]);
    }
  }

  lemma SplitGivesScanEmail(s: string, i: nat, j: nat)
    requires EmailSplitAt(s, i, j)
    ensures ScanEmail(s)
  {
    NotInRun(s[..i], LocalClass, '@');
    IndexOfIsFirst(s, '@', i);
    var rest := s[i + 1..];
    var d := j - i - 1;
    assert rest[..d] == s[i + 1..j];
    NotInRun(s[i + 1..j], LabelClass, '.');
    IndexOfIsFirst(rest, '.', d);
    assert rest[d + 1..] == s[j + 1..];
    assert Run(rest[..d], LabelClass) && Run(rest[d + 1..], TailClass);
  }

  /** A full e-mail match never ends in a newline, which no class admits. */
  lemma EmailPatternNoFinalNewline(s: string)
    requires EmailPattern(s)
    ensures s[|s| - 1] != '\n'
  {
    var i: nat, j: nat :| EmailSplitAt(s, i, j);
    assert s[j + 1..][|s| - j - 2] == s[|s| - 1];
  }

  /** `email_validator`: the value itself, or `InvalidEmailFormat`. */
  function EmailValidator(value: string): (r: Result<string, ValidationError>)
    ensures r.Success? <==> EmailRegexMatches(value)
    ensures r.Success? ==> r.value == value
    ensures r.Failure? ==> r.error == InvalidEmailFormat
  {
    EmailRegexIsScan(value);
    if ScanEmail(WithoutFinalNewline(value)) then Success(value) else Failure(InvalidEmailFormat)
  }

  /** The `$`-anchored match is the scan of the value without one final newline. */
  lemma EmailRegexIsScan(value: string)
    ensures EmailRegexMatches(value) <==> ScanEmail(WithoutFinalNewline(value))
  {
    ScanEmailMatchesPattern(WithoutFinalNewline(value));
    if EmailPattern(value) {
      EmailPatternNoFinalNewline(value);
    }
  }

  /** An accepted address has exactly one '@', a non-empty local part, and a '.' in its domain. */
  lemma EmailShape(s: string)
    requires EmailPattern(s)
    ensures exists i :: 0 < i < |s| && s[i] == '@' && '@' !in s[..i] && '@' !in s[i + 1..] && '.' in s[i + 1..]
  {
    var i: nat, j: nat :| EmailSplitAt(s, i, j);
    assert forall k :: 0 <= k < i ==> Member(LocalClass, s[..i][k]);
    assert '@' !in s[..i];
    var rest := s[i + 1..];
    assert rest[j - i - 1] == '.';
    forall k | 0 <= k < |rest| ensures rest[k] != '@' {
      if k < j - i - 1 {
        assert rest[k] == s[i + 1..j][k];
      } else if k > j - i - 1 {
        assert rest[k] == s[j + 1..][k - (j - i)];
      }
    }
  }

  /** One trailing newline after an accepted address is accepted too. */
  lemma EmailTrailingNewline(s: string)
    requires EmailRegexMatches(s) && s[|s| - 1] != '\n'
    ensures EmailRegexMatches(s + "\n")
  {
    assert (s + "\n")[..|s|] == s;
  }

  // ------------------------------------------------------------------ phone

  /** `s` is `plus` '+' signs, then `one` '1's, then 9 to 15 digits. */
  ghost predicate PhoneSplitAt(s: string, plus: nat, one: nat) {
    && plus <= 1 && one <= 1 && plus + one <= |s|
    && (plus == 1 ==> s[0] == '+')
    && (one == 1 ==> s[plus] == '1')
    && AllIn(s[plus + one..], DigitClass)
    && 9 <= |s| - plus - one <= 15
  }

  /** The pattern `\+?1?\d{9,15}`, matched in full. */
  ghost predicate PhonePattern(s: string) {
    exists plus: nat, one: nat :: PhoneSplitAt(s, plus, one)
  }

  /** `re.match(r'^\+?1?\d{9,15}$', s)`. */
  ghost predicate PhoneRegexMatches(s: string) {
    PhonePattern(s) || (|s| > 0 && s[|s| - 1] == '\n' && PhonePattern(s[..|s| - 1]))
  }

  function WithoutPlus(s: string): string {
    if |s| > 0 && s[0] == '+' then s[1..] else s
  }

  /** After an optional '+': 9 to 15 digits, or 16 digits starting with '1'. */
  predicate ScanPhone(s: string) {
    var t := WithoutPlus(s);
    AllIn(t, DigitClass) && (9 <= |t| <= 15 || (|t| == 16 && t[0] == '1'))
  }

  lemma ScanPhoneMatchesPattern(s: string)
    ensures ScanPhone(s) <==> PhonePattern(s)
  {
    var plus: nat := if |s| > 0 && s[0] == '+' then 1 else 0;
    var t := WithoutPlus(s);
    assert t == s[plus..];
    if ScanPhone(s) {
      if |t| <= 15 {
        assert PhoneSplitAt(s, plus, 0);
      } else {
        assert s[plus + 1..] == t[1..];
        assert PhoneSplitAt(s, plus, 1);
      }
    }
    if PhonePattern(s) {
      var p: nat, o: nat :| PhoneSplitAt(s, p, o);
      assert s[p + o..][0] == s[p + o];
      if p == 0 {
        assert s[0] != '+';
      }
      assert p == plus;
      forall k | 0 <= k < |t| ensures Member(DigitClass, t[k]) {
        if o == 1 && k == 0 {
          assert t[0] == '1';
        } else {
          assert t[k] == s[p + o..][k - o];
        }
      }
    }
  }

  /** `phone_validator`: the value itself, or `InvalidPhoneFormat`. */
  function PhoneValidator(value: string): (r: Result<string, ValidationError>)
    ensures r.Success? <==> PhoneRegexMatches(value)
    ensures r.Success? ==> r.value == value
    ensures r.Failure? ==> r.error == InvalidPhoneFormat
  {
    PhoneRegexIsScan(value);
    if ScanPhone(WithoutFinalNewline(value)) then Success(value) else Failure(InvalidPhoneFormat)
  }

  /** The `$`-anchored match is the scan of the value without one final newline. */
  lemma PhoneRegexIsScan(value: string)
    ensures PhoneRegexMatches(value) <==> ScanPhone(WithoutFinalNewline(value))
  {
    ScanPhoneMatchesPattern(WithoutFinalNewline(value));
    if |value| > 0 && value[|value| - 1] == '\n' {
      ScanPhoneMatchesPattern(value);
      var t := WithoutPlus(value);
      if |t| > 0 {
        assert t[|t| - 1] == '\n';
      }
    }
  }

  /** An all-digit number of `n` digits is accepted iff 9 <= n <= 15, or n = 16 and it starts with '1'. */
  lemma PhoneDigitsOnly(s: string)
    requires AllDigits(s)
    ensures PhoneValidator(s).Success? <==> 9 <= |s| <= 15 || (|s| == 16 && s[0] == '1')
  {
    ScanPhoneMatchesPattern(s);
    if |s| > 0 {
      assert IsDigit(s[0]) && IsDigit(s[|s| - 1]);
    }
  }

  /** An accepted number is an optional '+' followed by digits only. */
  lemma PhoneCharacters(s: string)
    requires PhonePattern(s)
    ensures forall k :: 0 <= k < |s| ==> IsDigit(s[k]) || (k == 0 && s[k] == '+')
  {
    ScanPhoneMatchesPattern(s);
    var t := WithoutPlus(s);
    forall k | 0 <= k < |s| ensures IsDigit(s[k]) || (k == 0 && s[k] == '+') {
      if |s| > 0 && s[0] == '+' {
        if k > 0 {
          assert s[k] == t[k - 1];
        }
      } else {
        assert s[k] == t[k];
      }
    }
  }
}
