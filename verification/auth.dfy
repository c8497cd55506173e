/** Access codes and the login session (src/auth.py).

    An access code has the shape `G<group>C<case>W221T4FH`. The Streamlit
    session is a map from key to value; the user id (a random UUID), the
    clock and the configured admin password are parameters.
 */
module Auth {
  import opened Wrappers
  import opened Text

  // ---------------------------------------------------------------------------
  // Access codes

  const CodeSuffix: string := "W221T4FH"

  /** `parse_code`'s result dict. */
  datatype ParsedCode = ParsedCode(group: nat, caseNumber: nat, code: string)

  /** `code.strip().upper()` */
  function Normalize(code: string): string {
    Upper(Strip(code))
  }

  /** The checks `parse_code` makes on the normalised code `c`: it starts
      with 'G' and ends with the suffix, `c[1]` is the group digit 1, 2 or 3
      (`int` raising ValueError gives None), and the four characters after
      the first 'C' are digits with at least one more character after them. */
  function ParseNormalized(c: string): (r: Option<ParsedCode>)
    ensures r.Some? ==> r.value.code == c
    ensures r.Some? ==> StartsWith(c, "G") && EndsWith(c, CodeSuffix)
    ensures r.Some? ==> 1 <= r.value.group <= 3 && c[1] == DigitChar(r.value.group)
    ensures r.Some? ==> r.value.caseNumber < 10000
    ensures r.Some? ==> exists cPos :: 0 <= cPos && cPos + 5 < |c| && IndexOf(c, 'C') == Some(cPos) &&
                                      AllDigits(c[cPos + 1..cPos + 5]) &&
                                      r.value.caseNumber == DigitsValue(c[cPos + 1..cPos + 5])
    ensures StartsWith(c, "G") && EndsWith(c, CodeSuffix) && IsDigit(c[1]) && 1 <= DigitValue(c[1]) <= 3 &&
            IndexOf(c, 'C').Some? && IndexOf(c, 'C').value + 5 < |c| &&
            AllDigits(c[IndexOf(c, 'C').value + 1..IndexOf(c, 'C').value + 5]) ==>
              r.Some?
  {
    if !StartsWith(c, "G") || 'C' !in c || !EndsWith(c, CodeSuffix) then None
    else
      assert c[|c| - 8] == CodeSuffix[0] by {
        assert c[|c| - 8..][0] == CodeSuffix[0];
      }
      assert c[..1][0] == 'G';
      if !IsDigit(c[1]) then None
      else
        var group := DigitValue(c[1]);
        if group !in {1, 2, 3} then None
        else
          var cPos := IndexOf(c, 'C').value;
          if cPos + 5 >= |c| then None
          else
            var caseText := c[cPos + 1..cPos + 5];
            if !AllDigits(caseText) then None
            else
              DigitsValueBound(caseText);
              Some(ParsedCode(group, DigitsValue(caseText), c))
  }

  /** `parse_code`: the length guard looks at the raw input, every other
      check at the stripped, upper-cased code. */
  function ParseCode(code: string): (r: Option<ParsedCode>)
    ensures code == "" || |code| < 12 ==> r.None?
    ensures !(code == "" || |code| < 12) ==> r == ParseNormalized(Normalize(code))
  {
    if code == "" || |code| < 12 then None else ParseNormalized(Normalize(code))
  }

  /** `n` in `width` decimal digits with leading zeros. */
  function Pad(n: nat, width: nat): (r: string)
    requires n < Pow10(width)
    ensures |r| == width && AllDigits(r)
  {
    if width == 0 then [] else Pad(n / 10, width - 1) + [DigitChar(n % 10)]
  }

  /** Four decimal digits with leading zeros, as in `f"{n:04d}"`. */
  function Pad4(n: nat): (r: string)
    requires n < 10000
    ensures |r| == 4 && AllDigits(r)
  {
    assert Pow10(4) == 10000;
    Pad(n, 4)
  }

  /** The padded digits read back as the number. */
  lemma {:induction false} PadValue(n: nat, width: nat)
    requires n < Pow10(width)
    ensures DigitsValue(Pad(n, width)) == n
  {
    if width > 0 {
      var p := Pad(n, width);
      PadValue(n / 10, width - 1);
      assert p[..|p| - 1] == Pad(n / 10, width - 1);
    }
  }

  lemma Pad4Value(n: nat)
    requires n < 10000
    ensures DigitsValue(Pad4(n)) == n
  {
    assert Pow10(4) == 10000;
    PadValue(n, 4);
  }

  /** An access code as handed out: group digit, any digits, 'C', the case
      number in four digits, and the fixed suffix. */
  function CodeText(group: nat, filler: string, caseNumber: nat): string
    requires 1 <= group <= 3 && caseNumber < 10000
  {
    "G" + [DigitChar(group)] + filler + "C" + Pad4(caseNumber) + CodeSuffix
  }

  /** Every well-formed code parses back to its group and case number,
      whatever digits stand before the 'C'; the code is kept as given. */
  lemma {:induction false} ParseCodeText(group: nat, filler: string, caseNumber: nat)
    requires 1 <= group <= 3 && caseNumber < 10000 && AllDigits(filler)
    ensures var s := CodeText(group, filler, caseNumber);
            ParseCode(s) == Some(ParsedCode(group, caseNumber, s))
  {
    var s := CodeText(group, filler, caseNumber);
    NormalizeCodeText(group, filler, caseNumber);
    ParseNormalizedCodeText(group, filler, caseNumber);
  }

  /** A handed-out code is already stripped and upper case. */
  lemma NormalizeCodeText(group: nat, filler: string, caseNumber: nat)
    requires 1 <= group <= 3 && caseNumber < 10000 && AllDigits(filler)
    ensures var s := CodeText(group, filler, caseNumber);
            Normalize(s) == s && |s| >= 15 && s[0] == 'G' && s[|s| - 1] == 'H'
    ensures var s := CodeText(group, filler, caseNumber);
            forall i :: 0 <= i < |s| ==> !IsLowerLetter(s[i])
  {
    var s := CodeText(group, filler, caseNumber);
    var k := 2 + |filler|;
    var pad := Pad4(caseNumber);
    assert s == "G" + [DigitChar(group)] + filler + "C" + pad + CodeSuffix;
    assert |s| == k + 13;
    assert s[0] == 'G' && s[|s| - 1] == 'H';
    StripCharsNoop(s, Whitespace);
    forall i | 0 <= i < |s|
      ensures !IsLowerLetter(s[i])
    {
      if i >= k + 5 {
        assert s[i] == CodeSuffix[i - (k + 5)];
      } else if k < i {
        assert s[i] == pad[i - k - 1];
      } else if 2 <= i < k {
        assert s[i] == filler[i - 2];
      }
    }
    UpperNoop(s);
  }

  lemma ParseNormalizedCodeText(group: nat, filler: string, caseNumber: nat)
    requires 1 <= group <= 3 && caseNumber < 10000 && AllDigits(filler)
    ensures var s := CodeText(group, filler, caseNumber);
            ParseNormalized(s) == Some(ParsedCode(group, caseNumber, s))
  {
    var s := CodeText(group, filler, caseNumber);
    var k := 2 + |filler|;
    var pad := Pad4(caseNumber);
    assert s == "G" + [DigitChar(group)] + filler + "C" + pad + CodeSuffix;
    assert |s| == k + 13;
    assert s[..1] == "G";
    assert s[|s| - 8..] == CodeSuffix;
    assert s[1] == DigitChar(group);
    assert s[k] == 'C';
    assert 'C' !in s[..k] by {
      forall i | 0 <= i < k ensures s[i] != 'C' {
        if 2 <= i {
          assert s[i] == filler[i - 2];
        }
      }
    }
    assert IndexOf(s, 'C') == Some(k);
    assert s[k + 1..k + 5] == pad;
    Pad4Value(caseNumber);
  }

  /** The documented example: "G2C0001W221T4FH" is group 2, case 1. */
  lemma ParseExample(group: nat, caseNumber: nat)
    requires group == 2 && caseNumber == 1
    ensures var s := CodeText(group, "", caseNumber);
            s == "G2C0001W221T4FH" && ParseCode(s) == Some(ParsedCode(group, caseNumber, s))
  {
    ParseCodeText(group, "", caseNumber);
    ExampleText(group, caseNumber);
  }

  lemma ExampleText(group: nat, caseNumber: nat)
    requires group == 2 && caseNumber == 1
    ensures CodeText(group, "", caseNumber) == "G2C0001W221T4FH"
  {
  }

  /** Upper-casing undoes lower-casing on text without lower-case letters. */
  lemma UpperLower(s: string)
    requires forall i :: 0 <= i < |s| ==> !IsLowerLetter(s[i])
    ensures Upper(Lower(s)) == s
  {
    assert forall i :: 0 <= i < |s| ==> Upper(Lower(s))[i] == s[i];
  }

  /** Normalising a lower-cased code gives the code back when it is stripped
      and has no lower-case letters. */
  lemma NormalizeLower(s: string)
    requires s != [] && !IsSpace(s[0]) && !IsSpace(s[|s| - 1])
    requires forall i :: 0 <= i < |s| ==> !IsLowerLetter(s[i])
    ensures Normalize(Lower(s)) == s
  {
    var low := Lower(s);
    assert !IsSpace(low[0]) && !IsSpace(low[|low| - 1]);
    StripCharsNoop(low, Whitespace);
    UpperLower(s);
  }

  /** Lower-case input is accepted and normalised to upper case. */
  lemma LowerCaseAccepted(group: nat, filler: string, caseNumber: nat)
    requires 1 <= group <= 3 && caseNumber < 10000 && AllDigits(filler)
    ensures var s := CodeText(group, filler, caseNumber);
            ParseCode(Lower(s)) == Some(ParsedCode(group, caseNumber, s))
  {
    var s := CodeText(group, filler, caseNumber);
    NormalizeCodeText(group, filler, caseNumber);
    ParseNormalizedCodeText(group, filler, caseNumber);
    ParseLower(s);
  }

  lemma ParseLower(s: string)
    requires |s| >= 12 && !IsSpace(s[0]) && !IsSpace(s[|s| - 1])
    requires forall i :: 0 <= i < |s| ==> !IsLowerLetter(s[i])
    ensures ParseCode(Lower(s)) == ParseNormalized(s)
  {
    NormalizeLower(s);
  }

  /** An accepted input has at least 15 characters: the four case digits
      cannot overlap the suffix, whose 'W' and 'T' are no digits. So the
      12-character guard never rejects an input the later checks accept. */
  lemma AcceptedCodeLength(code: string)
    requires ParseCode(code).Some?
    ensures |ParseCode(code).value.code| >= 15 && |code| >= 15
  {
    var c := Normalize(code);
    AcceptedNormalizedLength(c);
    var a := StripIsPiece(code);
  }

  lemma AcceptedNormalizedLength(c: string)
    requires ParseNormalized(c).Some?
    ensures |c| >= 15
  {
    var cPos :| 0 <= cPos && cPos + 5 < |c| && IndexOf(c, 'C') == Some(cPos) && AllDigits(c[cPos + 1..cPos + 5]);
    assert c[..1][0] == 'G';
    assert cPos >= 2 by {
      assert c[0] == 'G' && IsDigit(c[1]);
    }
    var p := cPos + 1;
    assert forall j :: p <= j < p + 4 ==> IsDigit(c[j]) by {
      forall j | p <= j < p + 4 ensures IsDigit(c[j]) {
        assert c[j] == c[p..p + 4][j - p];
      }
    }
    assert c[|c| - 8] == 'W' && c[|c| - 4] == 'T' by {
      assert c[|c| - 8..] == CodeSuffix;
    }
  }

  // ---------------------------------------------------------------------------
  // Session

  /** A session value: text, a number, a flag, Python's None or a timestamp. */
  datatype Value = Text(s: string) | Number(n: int) | Flag(b: bool) | Null | Clock(t: int)

  /** Session keys: the ones `CodeAuth` names (`user_code`, `user_group`,
      `user_id`, `login_time`, `is_admin`), the two chat keys a logout also
      clears, and every other key by its name. */
  datatype Key = CodeKey | GroupKey | UserIdKey | LoginTimeKey | AdminKey | ChatHistory | Messages | Other(name: string)

  type Session = map<Key, Value>

  /** The keys a login writes. */
  const LoginKeys: set<Key> := {CodeKey, GroupKey, UserIdKey, LoginTimeKey, AdminKey}

  /** The keys a logout removes. */
  const LogoutKeys: set<Key> := LoginKeys + {ChatHistory, Messages}

  predicate Truthy(v: Value) {
    match v
    case Text(s) => s != ""
    case Number(n) => n != 0
    case Flag(b) => b
    case Null => false
    case Clock(_) => true
  }

  /** `is_authenticated`: a code is stored, is not None and is not blank
      (`strip() != ""`, see `StripBlank`). */
  predicate IsAuthenticated(s: Session) {
    CodeKey in s && s[CodeKey] != Null && s[CodeKey].Text? && !Blank(s[CodeKey].s)
  }

  /** A session is authenticated exactly when `get_code` hands back a code
      whose `strip()` is not empty; otherwise every getter gives None. */
  lemma {:induction false} AuthenticatedIffCodeShown(s: Session)
    ensures IsAuthenticated(s) <==> Get(s, CodeKey).Text? && Strip(Get(s, CodeKey).s) != []
    ensures !IsAuthenticated(s) ==> Get(s, UserIdKey) == Null && Get(s, GroupKey) == Null &&
                                    Get(s, LoginTimeKey) == Null
  {
    if CodeKey in s && s[CodeKey].Text? {
      StripBlank(s[CodeKey].s);
    }
  }

  /** `is_admin`: the stored admin flag, False when absent. */
  predicate IsAdmin(s: Session) {
    AdminKey in s && Truthy(s[AdminKey])
  }

  /** Admin rights come only from the admin password: a code login never
      grants them, the admin login grants them exactly for the right
      password (or keeps an existing flag on a wrong one), and a logout
      removes them. */
  lemma AdminOnlyByPassword(s: Session, code: string, userId: string, password: string,
                            configured: Option<string>, uuid: string, now: int)
    ensures IsAdmin(Login(s, code, userId, now).1) ==> IsAdmin(s) && ParseCode(code).None?
    ensures IsAdmin(AdminLogin(s, password, configured, uuid, now).1) <==>
              password == AdminPassword(configured) || IsAdmin(s)
    ensures !IsAdmin(Logout(s))
  {
  }

  /** `get_user_id`, `get_code`, `get_group`, `get_login_time`: the stored
      value while authenticated, None otherwise or when the key is missing. */
  function Get(s: Session, key: Key): (v: Value)
    ensures !IsAuthenticated(s) ==> v == Null
    ensures IsAuthenticated(s) && key in s ==> v == s[key]
    ensures key !in s ==> v == Null
  {
    if IsAuthenticated(s) && key in s then s[key] else Null
  }

  /** The session after an accepted code: the normalised code, the group,
      the user id and the time are stored, admin is cleared, and every other
      key is left alone. */
  function Store(s: Session, parsed: ParsedCode, userId: string, now: int): (r: Session)
    requires StartsWith(parsed.code, "G")
    ensures IsAuthenticated(r) && !IsAdmin(r)
    ensures Get(r, CodeKey) == Text(parsed.code) && Get(r, GroupKey) == Number(parsed.group)
    ensures Get(r, UserIdKey) == Text(userId) && Get(r, LoginTimeKey) == Clock(now)
    ensures forall k :: k !in LoginKeys ==> (k in r <==> k in s)
    ensures forall k :: k !in LoginKeys && k in s ==> r[k] == s[k]
  {
    StartsNonBlank(parsed.code);
    var r := s[CodeKey := Text(parsed.code)][GroupKey := Number(parsed.group)][UserIdKey := Text(userId)]
              [LoginTimeKey := Clock(now)][AdminKey := Flag(false)];
    assert r[CodeKey] == Text(parsed.code) && r[AdminKey] == Flag(false);
    assert IsAuthenticated(r);
    assert r[GroupKey] == Number(parsed.group) && r[UserIdKey] == Text(userId) && r[LoginTimeKey] == Clock(now);
    r
  }

  /** `login`: a rejected code changes nothing; an accepted one is stored. */
  function Login(s: Session, code: string, userId: string, now: int): (r: (bool, Session))
    ensures r.0 <==> ParseCode(code).Some?
    ensures !r.0 ==> r.1 == s
    ensures r.0 ==> r.1 == Store(s, ParseCode(code).value, userId, now)
  {
    var parsed := ParseCode(code);
    if parsed.None? then (false, s)
    else (true, Store(s, parsed.value, userId, now))
  }

  /** A code starting with 'G' is not blank. */
  lemma StartsNonBlank(c: string)
    requires StartsWith(c, "G")
    ensures !Blank(c)
  {
    assert c[..1][0] == 'G';
    assert !IsSpace(c[0]);
  }

  /** The admin password: the configured secret, "admin2024" when none is configured. */
  function AdminPassword(configured: Option<string>): string {
    configured.GetOr("admin2024")
  }

  /** `admin_login`: succeeds exactly for the admin password and then stores
      code "ADMIN", group 0 and the admin flag; otherwise changes nothing. */
  function AdminLogin(s: Session, password: string, configured: Option<string>, uuid: string, now: int): (r: (bool, Session))
    ensures r.0 <==> password == AdminPassword(configured)
    ensures !r.0 ==> r.1 == s
    ensures r.0 ==>
              IsAuthenticated(r.1) && IsAdmin(r.1) &&
              Get(r.1, CodeKey) == Text("ADMIN") && Get(r.1, GroupKey) == Number(0) &&
              Get(r.1, UserIdKey) == Text("admin_" + uuid) && Get(r.1, LoginTimeKey) == Clock(now)
    ensures forall k :: k !in LoginKeys ==> (k in r.1 <==> k in s)
    ensures forall k :: k !in LoginKeys && k in s ==> r.1[k] == s[k]
  {
    if password == AdminPassword(configured) then
      var s' := s[CodeKey := Text("ADMIN")][GroupKey := Number(0)][UserIdKey := Text("admin_" + uuid)]
                 [LoginTimeKey := Clock(now)][AdminKey := Flag(true)];
      assert !Blank("ADMIN") by {
        assert !IsSpace("ADMIN"[0]);
      }
      (true, s')
    else (false, s)
  }

  /** `logout`: the login keys, the chat history and the messages are removed;
      the session is then neither authenticated nor admin. */
  function Logout(s: Session): (r: Session)
    ensures !IsAuthenticated(r) && !IsAdmin(r)
    ensures forall k :: k in r <==> k in s && k !in LogoutKeys
    ensures forall k :: k in r ==> r[k] == s[k]
  {
    s - LogoutKeys
  }

  /** Storing a code and logging out leaves the session as logging out alone would. */
  lemma StoreLogout(s: Session, parsed: ParsedCode, userId: string, now: int)
    requires StartsWith(parsed.code, "G")
    ensures Logout(Store(s, parsed, userId, now)) == Logout(s)
  {
    var a := Logout(Store(s, parsed, userId, now));
    var b := Logout(s);
    assert forall k :: k in a <==> k in b;
    assert forall k :: k in a ==> a[k] == b[k];
  }

  /** Logging in and out again leaves the session as logging out alone would. */
  lemma LoginLogout(s: Session, code: string, userId: string, now: int)
    ensures Logout(Login(s, code, userId, now).1) == Logout(s)
  {
    var parsed := ParseCode(code);
    if parsed.Some? {
      StoreLogout(s, parsed.value, userId, now);
    }
  }
}
