/**
 * The password rule and the verification-code helpers: code generation,
 * the `"<purpose>:<code>"` key, and issuing, reading and deleting codes in
 * the shared store.
 */
module Utils {
  import opened Wrappers
  import opened Strings
  import opened Enums
  import opened Redis

  /** Seconds a verification code stays in the store. */
  const RESET_CODE_EXPIRE: nat := 3600

  const DEFAULT_CODE_SIZE: nat := 6

  const ASCII_UPPERCASE: string := "ABCDEFGHIJKLMNOPQRSTUVWXYZ"

  const DIGITS: string := "0123456789"

  /** The default alphabet of `generate_verification_code`. */
  const CODE_CHARS: string := ASCII_UPPERCASE + DIGITS

  // ---------------------------------------------------------------- password

  datatype PasswordError = TooShort | NoDigit | NoLetter

  /** A regular-expression character range `[lo-hi]`. */
  datatype CharRange = CharRange(lo: char, hi: char) {
    predicate Contains(c: char) { lo <= c <= hi }
  }

  /** `re.search('[lo-hi]', s)`: the position of the first match, if any. */
  function Search(s: string, cls: CharRange): (r: Option<nat>)
    ensures r.Some? ==> r.value < |s| && cls.Contains(s[r.value])
    ensures r.Some? ==> forall j :: 0 <= j < r.value ==> !cls.Contains(s[j])
    ensures r.None? <==> forall j :: 0 <= j < |s| ==> !cls.Contains(s[j])
  {
    if |s| == 0 then None
    else if cls.Contains(s[0]) then Some(0)
    else
      match Search(s[1..], cls)
      case None => None
      case Some(i) => Some(i + 1)
  }

  predicate HasDigit(s: string) { exists i :: 0 <= i < |s| && IsDigit(s[i]) }

  predicate HasLetter(s: string) { exists i :: 0 <= i < |s| && IsAsciiLetter(s[i]) }

  /**
   * `is_valid_password`: `Success(true)` for an acceptable password; the
   * first rule broken (length, then digit, then letter) names the error.
   * It never answers `Success(false)`.
   */
  function IsValidPassword(candidate: string): (r: Result<bool, PasswordError>)
    ensures r.Success? <==> |candidate| >= 8 && HasDigit(candidate) && HasLetter(candidate)
    ensures r.Success? ==> r.value
    ensures r == Failure(TooShort) <==> |candidate| < 8
    ensures r == Failure(NoDigit) <==> |candidate| >= 8 && !HasDigit(candidate)
    ensures r == Failure(NoLetter) <==> |candidate| >= 8 && HasDigit(candidate) && !HasLetter(candidate)
  {
    if |candidate| < 8 then Failure(TooShort)
    else if Search(candidate, CharRange('0', '9')).None? then Failure(NoDigit)
    else if Search(candidate, CharRange('a', 'z')).None? && Search(candidate, CharRange('A', 'Z')).None?
    then Failure(NoLetter)
    else Success(true)
  }

  // ------------------------------------------------------------ code values

  /** `draws` stands for the successive results of `random.choice(chars)`, as indices. */
  predicate ValidDraws(draws: seq<nat>, size: nat, chars: string) {
    |draws| == size && forall i :: 0 <= i < size ==> draws[i] < |chars|
  }

  /** `generate_verification_code(size, chars)` with the random choices given by `draws`. */
  function GenerateVerificationCode(size: nat, chars: string, draws: seq<nat>): (code: string)
    requires ValidDraws(draws, size, chars)
    ensures |code| == size
    ensures forall i :: 0 <= i < |code| ==> code[i] in chars
  {
    seq(size, i requires 0 <= i < size => chars[draws[i]])
  }

  /** Every string of `size` characters from `chars` is a possible code. */
  lemma EveryCodeIsReachable(size: nat, chars: string, code: string)
    requires |code| == size && forall i :: 0 <= i < size ==> code[i] in chars
    ensures exists draws :: ValidDraws(draws, size, chars) && GenerateVerificationCode(size, chars, draws) == code
  {
    var draws := seq(size, i requires 0 <= i < size => IndexOf(chars, code[i]).value);
    assert ValidDraws(draws, size, chars);
    assert GenerateVerificationCode(size, chars, draws) == code;
  }

  lemma UppercaseAt(i: nat)
    requires i < |ASCII_UPPERCASE|
    ensures 'A' <= ASCII_UPPERCASE[i] <= 'Z'
  {
  }

  lemma DigitAt(i: nat)
    requires i < |DIGITS|
    ensures '0' <= DIGITS[i] <= '9'
  {
  }

  /** The default alphabet is exactly `A-Z` and `0-9`: 36 symbols. */
  lemma CodeCharsAlphabet(c: char)
    ensures |CODE_CHARS| == 36
    ensures c in CODE_CHARS <==> 'A' <= c <= 'Z' || '0' <= c <= '9'
  {
    if 'A' <= c <= 'Z' {
      assert CODE_CHARS[c as int - 'A' as int] == c;
    } else if '0' <= c <= '9' {
      assert CODE_CHARS[26 + c as int - '0' as int] == c;
    } else if c in CODE_CHARS {
      var i :| 0 <= i < 36 && CODE_CHARS[i] == c;
      if i < 26 { UppercaseAt(i); } else { DigitAt(i - 26); }
    }
  }

  /** A default code: 6 characters, each an uppercase letter or a digit. */
  lemma DefaultCodeShape(draws: seq<nat>)
    requires ValidDraws(draws, DEFAULT_CODE_SIZE, CODE_CHARS)
    ensures var code := GenerateVerificationCode(DEFAULT_CODE_SIZE, CODE_CHARS, draws);
      |code| == 6 && forall i :: 0 <= i < 6 ==> 'A' <= code[i] <= 'Z' || '0' <= code[i] <= '9'
  {
    var code := GenerateVerificationCode(DEFAULT_CODE_SIZE, CODE_CHARS, draws);
    forall i | 0 <= i < 6 ensures 'A' <= code[i] <= 'Z' || '0' <= code[i] <= '9' {
      CodeCharsAlphabet(code[i]);
    }
  }

  // -------------------------------------------------------------------- keys

  /** `f"{code_type}:{code}"`. */
  function CodeKey(t: UserSecurityCode, code: string): (key: string)
    ensures |key| == |Value(t)| + 1 + |code|
    ensures key[..|Value(t)|] == Value(t) && key[|Value(t)|] == ':' && key[|Value(t)| + 1..] == code
    ensures IndexOf(key, ':') == Some(|Value(t)|)
  {
    var k := Value(t) + ":" + code;
    assert k[..|Value(t)|] == Value(t);
    IndexOfIsFirst(k, ':', |Value(t)|);
    k
  }

  /** Splits a key at its first ':' into purpose and code. */
  function ParseCodeKey(key: string): Option<(UserSecurityCode, string)> {
    match IndexOf(key, ':')
    case None => None
    case Some(i) =>
      match FromValue(key[..i])
      case None => None
      case Some(t) => Some((t, key[i + 1..]))
  }

  /** A key determines the purpose and the code it was built from. */
  lemma {:induction false} ParseCodeKeyOfCodeKey(t: UserSecurityCode, code: string)
    ensures ParseCodeKey(CodeKey(t, code)) == Some((t, code))
  {
    var key := CodeKey(t, code);
    var n := |Value(t)|;
    assert key[..n] == Value(t);
    IndexOfIsFirst(key, ':', n);
    FromValueOfValue(t);
    assert key[n + 1..] == code;
  }

  /** Key construction is injective: different (purpose, code) pairs never share a key. */
  lemma CodeKeyInjective(t1: UserSecurityCode, c1: string, t2: UserSecurityCode, c2: string)
    requires CodeKey(t1, c1) == CodeKey(t2, c2)
    ensures t1 == t2 && c1 == c2
  {
    ParseCodeKeyOfCodeKey(t1, c1);
    ParseCodeKeyOfCodeKey(t2, c2);
  }

  // ------------------------------------------------------------------ store

  /** `code.decode() if code else None` applied to a `GET` reply (empty bytes are falsy). */
  function Decoded(reply: Option<string>): (r: Option<string>)
    ensures r.Some? <==> reply.Some? && reply.value != ""
    ensures r.Some? ==> r.value == reply.value
  {
    if reply.Some? && reply.value != "" then reply else None
  }

  /** What `get_verification_code(code, t)` answers for a store content at time `now`. */
  function CodeReading(entries: map<string, Entry>, now: int, t: UserSecurityCode, code: string): Option<string> {
    Decoded(Read(entries, now, CodeKey(t, code)))
  }

  function StoredCode(store: Store, t: UserSecurityCode, code: string): Option<string>
    reads store
  {
    CodeReading(store.entries, store.now, t, code)
  }

  /** The store content after `set_verification_code(code, t, userId)` at time `now`. */
  function Issued(entries: map<string, Entry>, now: int, t: UserSecurityCode, code: string, userId: nat): map<string, Entry> {
    entries[CodeKey(t, code) := Entry(DecimalString(userId), now + RESET_CODE_EXPIRE)]
  }

  /**
   * An issued code reads back as the user id, in decimal, for
   * `RESET_CODE_EXPIRE` seconds and as absent from then on.
   */
  lemma IssuedCodeReadsBack(entries: map<string, Entry>, t0: int, t: UserSecurityCode, code: string, userId: nat, now: int)
    ensures CodeReading(Issued(entries, t0, t, code, userId), now, t, code)
         == (if now < t0 + RESET_CODE_EXPIRE then Some(DecimalString(userId)) else None)
    ensures now < t0 + RESET_CODE_EXPIRE ==>
      ParseDecimal(CodeReading(Issued(entries, t0, t, code, userId), now, t, code).value) == Some(userId)
  {
    ParseDecimalString(userId);
  }

  /** Issuing a code changes the reading of no other (purpose, code) pair. */
  lemma IssueLeavesOtherCodes(entries: map<string, Entry>, t0: int, t: UserSecurityCode, code: string, userId: nat,
                              now: int, t': UserSecurityCode, code': string)
    requires (t', code') != (t, code)
    ensures CodeReading(Issued(entries, t0, t, code, userId), now, t', code') == CodeReading(entries, now, t', code')
  {
    if CodeKey(t', code') == CodeKey(t, code) {
      CodeKeyInjective(t', code', t, code);
    }
  }

  /**
   * After `delete_used_code(code, t)` that pair reads as absent and every
   * other pair reads as before; deleting a key that is not live changes no
   * reading at all.
   */
  lemma DeleteReadings(entries: map<string, Entry>, now: int, t: UserSecurityCode, code: string,
                       t': UserSecurityCode, code': string)
    ensures CodeReading(entries - {CodeKey(t, code)}, now, t, code) == None
    ensures (t', code') != (t, code) ==>
      CodeReading(entries - {CodeKey(t, code)}, now, t', code') == CodeReading(entries, now, t', code')
    ensures !Live(entries, now, CodeKey(t, code)) ==>
      CodeReading(entries - {CodeKey(t, code)}, now, t', code') == CodeReading(entries, now, t', code')
  {
    if (t', code') != (t, code) && CodeKey(t', code') == CodeKey(t, code) {
      CodeKeyInjective(t', code', t, code);
    }
  }

  /** `set_verification_code`: stores the decimal user id under the key, for `RESET_CODE_EXPIRE` seconds. */
  method SetVerificationCode(store: Store, code: string, t: UserSecurityCode, userId: nat) returns (key: string)
    modifies store`entries
    ensures key == CodeKey(t, code)
    ensures store.entries == Issued(old(store.entries), store.now, t, code, userId)
  {
    key := CodeKey(t, code);
    store.Set(key, DecimalString(userId), RESET_CODE_EXPIRE);
  }

  /** `compare_verification_code`: reads the stored user id without consuming the code. */
  method CompareVerificationCode(store: Store, code: string, t: UserSecurityCode) returns (r: Option<string>)
    ensures r == StoredCode(store, t, code)
  {
    var reply := store.Get(CodeKey(t, code));
    r := Decoded(reply);
  }

  /** `get_verification_code`: reads the stored user id without consuming the code. */
  method GetVerificationCode(store: Store, code: string, t: UserSecurityCode) returns (r: Option<string>)
    ensures r == StoredCode(store, t, code)
  {
    var reply := store.Get(CodeKey(t, code));
    r := Decoded(reply);
  }

  /** `delete_used_code`: removes only this key; answers 1 if it was live, else 0. */
  method DeleteUsedCode(store: Store, code: string, t: UserSecurityCode) returns (deleted: nat)
    modifies store`entries
    ensures deleted == (if Live(old(store.entries), store.now, CodeKey(t, code)) then 1 else 0)
    ensures store.entries == old(store.entries) - {CodeKey(t, code)}
  {
    deleted := store.Delete(CodeKey(t, code));
  }

  /** Issue, peek, redeem, and a second redeem, for user 42; then expiry of a fresh code. */
  method IssuePeekRedeemScenario(code: string, other: string)
    requires code != other
  {
    var store := new Store(0);
    var key := SetVerificationCode(store, code, VERIFY_EMAIL, 42);
    assert DecimalString(42) == "42";
    var peeked := GetVerificationCode(store, code, VERIFY_EMAIL);
    assert peeked == Some("42");
    var redeemed := CompareVerificationCode(store, code, VERIFY_EMAIL);
    assert redeemed == Some("42");
    var n := DeleteUsedCode(store, code, VERIFY_EMAIL);
    assert n == 1;
    var again := GetVerificationCode(store, code, VERIFY_EMAIL);
    assert again == None;
    var n' := DeleteUsedCode(store, code, VERIFY_EMAIL);
    assert n' == 0;

    key := SetVerificationCode(store, other, RESET_PASSWORD, 42);
    store.Advance(RESET_CODE_EXPIRE - 1);
    var live := GetVerificationCode(store, other, RESET_PASSWORD);
    assert live == Some("42");
    store.Advance(1);
    var expired := GetVerificationCode(store, other, RESET_PASSWORD);
    assert expired == None;
  }
}
