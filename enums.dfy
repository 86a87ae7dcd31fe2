/** `UserSecurityCode`: the closed set of purposes a verification code is issued for. */
module Enums {
  import opened Wrappers

  datatype UserSecurityCode = REFRESH_PASSWORD | VERIFY_EMAIL | RESET_PASSWORD

  const AllCodes: seq<UserSecurityCode> := [REFRESH_PASSWORD, VERIFY_EMAIL, RESET_PASSWORD]

  /** The member's name (`.name`). */
  function Name(c: UserSecurityCode): string
  {
    match c
    case REFRESH_PASSWORD => "REFRESH_PASSWORD"
    case VERIFY_EMAIL => "VERIFY_EMAIL"
    case RESET_PASSWORD => "RESET_PASSWORD"
  }

  /**
   * The member's value (`.value`), declared equal to its name; the enum
   * mixes in `str`, so this is also the string the member compares equal to.
   */
  function Value(c: UserSecurityCode): (v: string)
    ensures |v| > 0 && ':' !in v
  {
    Name(c)
  }

  /** `UserSecurityCode(s)`: the member with value `s`, if any. */
  function FromValue(s: string): (r: Option<UserSecurityCode>)
    ensures r.Some? ==> Value(r.value) == s
    ensures r.None? ==> forall c :: Value(c) != s
  {
    if s == "REFRESH_PASSWORD" then Some(REFRESH_PASSWORD)
    else if s == "VERIFY_EMAIL" then Some(VERIFY_EMAIL)
    else if s == "RESET_PASSWORD" then Some(RESET_PASSWORD)
    else None
  }

  /** There are exactly three members, listed once each in declaration order. */
  lemma ExactlyThreeMembers()
    ensures forall c :: c in AllCodes
    ensures |AllCodes| == 3
    ensures forall i, j :: 0 <= i < j < |AllCodes| ==> AllCodes[i] != AllCodes[j]
  {
    forall c ensures c in AllCodes {
      match c
      case REFRESH_PASSWORD => assert AllCodes[0] == c;
      case VERIFY_EMAIL => assert AllCodes[1] == c;
      case RESET_PASSWORD => assert AllCodes[2] == c;
    }
  }

  /** Each member's value is its own name, and values are pairwise distinct. */
  lemma ValueIsNameAndDistinct(a: UserSecurityCode, b: UserSecurityCode)
    ensures Value(a) == Name(a)
    ensures Value(a) == Value(b) ==> a == b
  {
  }

  /** Looking a member up by its value gives it back. */
  lemma FromValueOfValue(c: UserSecurityCode)
    ensures FromValue(Value(c)) == Some(c)
  {
  }
}
