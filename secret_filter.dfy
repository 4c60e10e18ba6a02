/** The filter the authenticator applies to its secret field on every edit
    (`on_change_totp_secret`): each typed character is upper-cased and kept
    at its own index of a zeroed 64-character buffer only when it belongs to
    the Base32 alphabet of RFC 4648 section 6 (`A`-`Z`, `2`-`7`) or is the
    padding `=`. The field then shows the buffer read as a C string. */
module SecretFilter {

  datatype Option<T> = None | Some(value: T)

  /** Size of the zero-initialised buffer the kept characters go into. */
  const SECRET_BUFFER_SIZE: nat := 64
  /** The loop leaves the last buffer slot as the terminator. */
  const MAX_SECRET_LENGTH: nat := SECRET_BUFFER_SIZE - 1

  const NUL: char := '\0'

  /** `toupper` in the "C" locale: only `a`-`z` change. */
  function ToUpper(c: char): (u: char)
    ensures 'a' <= c <= 'z' ==> 'A' <= u <= 'Z' && u as int - 'A' as int == c as int - 'a' as int
    ensures !('a' <= c <= 'z') ==> u == c
  {
    if 'a' <= c <= 'z' then (c as int - ('a' as int - 'A' as int)) as char else c
  }

  /** The characters the `switch` keeps. */
  predicate IsSecretChar(c: char)
    ensures IsSecretChar(c) ==> c != NUL && c as int < 128 && ToUpper(c) == c
  {
    ('A' <= c <= 'Z') || ('2' <= c <= '7') || c == '='
  }

  function UpperAll(s: string): (u: string)
    ensures |u| == |s|
    ensures forall i :: 0 <= i < |s| ==> u[i] == ToUpper(s[i])
  {
    seq(|s|, i requires 0 <= i < |s| => ToUpper(s[i]))
  }

  /** The C string held by `s`: its characters before the first NUL. */
  function CString(s: string): (r: string)
    ensures |r| <= |s| && r == s[..|r|]
    ensures NUL !in r
    ensures |r| < |s| ==> s[|r|] == NUL
  {
    if s == [] || s[0] == NUL then [] else [s[0]] + CString(s[1..])
  }

  function Take(s: string, n: nat): (r: string)
  {
    if |s| <= n then s else s[..n]
  }

  /** The upper-cased characters of `s` up to (not including) the first one
      whose upper-case form is outside the secret alphabet. */
  function AllowedPrefix(s: string): (r: string)
    ensures |r| <= |s|
    ensures forall i :: 0 <= i < |r| ==> r[i] == ToUpper(s[i]) && IsSecretChar(r[i])
    ensures |r| < |s| ==> !IsSecretChar(ToUpper(s[|r|]))
  {
    if s == [] || !IsSecretChar(ToUpper(s[0])) then []
    else [ToUpper(s[0])] + AllowedPrefix(s[1..])
  }

  /** The text the field holds after the filter has run on `text`
      (`None` stands for a NULL text pointer). */
  function FilteredSecret(text: Option<string>): (r: string)
    ensures |r| <= MAX_SECRET_LENGTH
    ensures forall i :: 0 <= i < |r| ==> IsSecretChar(r[i])
    ensures text.None? ==> r == []
  {
    match text
    case None => []
    case Some(s) => AllowedPrefix(Take(CString(s), MAX_SECRET_LENGTH))
  }

  /** The buffer `b` holds, at each index below `|t|`, the upper-cased
      character of `t` when it is allowed, and NUL everywhere else. */
  ghost predicate FilledBuffer(t: string, b: seq<char>)
  {
    |t| < |b| &&
    forall j :: 0 <= j < |b| ==>
      b[j] == if j < |t| && IsSecretChar(ToUpper(t[j])) then ToUpper(t[j]) else NUL
  }

  /** Reading the filled buffer as a C string stops at the first rejected
      character: later kept characters are invisible. */
  lemma {:induction false} CStringOfFilledBuffer(t: string, b: seq<char>)
    requires FilledBuffer(t, b)
    ensures CString(b) == AllowedPrefix(t)
  {
    if t == [] || !IsSecretChar(ToUpper(t[0])) {
      assert b[0] == NUL;
    } else {
      assert b[0] == ToUpper(t[0]) != NUL;
      assert FilledBuffer(t[1..], b[1..]) by {
        forall j | 0 <= j < |b[1..]|
          ensures b[1..][j] == if j < |t[1..]| && IsSecretChar(ToUpper(t[1..][j])) then ToUpper(t[1..][j]) else NUL
        {
          assert b[1..][j] == b[j + 1];
        }
      }
      CStringOfFilledBuffer(t[1..], b[1..]);
    }
  }

  /** The handler's loop: walk the typed text, stop at its terminator or
      after 63 characters, and write each allowed upper-cased character at
      its own index; then the field takes the buffer as a C string. */
  method OnChangeTotpSecret(text: Option<string>) returns (secret: string)
    ensures secret == FilteredSecret(text)
  {
    var buffer := new char[SECRET_BUFFER_SIZE](_ => NUL);
    ghost var t: string := [];
    if text.Some? {
      var s := text.value;
      ghost var cs := CString(s);
      var i := 0;
      while i < MAX_SECRET_LENGTH
        invariant 0 <= i <= MAX_SECRET_LENGTH && i <= |cs|
        invariant forall j :: 0 <= j < i ==>
          buffer[j] == if IsSecretChar(ToUpper(s[j])) then ToUpper(s[j]) else NUL
        invariant forall j :: i <= j < SECRET_BUFFER_SIZE ==> buffer[j] == NUL
        invariant i == MAX_SECRET_LENGTH || i == |cs| || (i < |s| && s[i] != NUL)
      {
        if i >= |s| || s[i] == NUL {
          break;
        }
        var append := ToUpper(s[i]);
        if IsSecretChar(append) {
          buffer[i] := append;
        }
        i := i + 1;
      }
      t := Take(cs, MAX_SECRET_LENGTH);
      assert |t| == i;
    }
    CStringOfFilledBuffer(t, buffer[..]);
    secret := CString(buffer[..]);
  }

  // ---------------------------------------------------------------------
  // An independent description of the result, and what follows from it.

  /** `r` is the longest prefix of the upper-cased `s` made only of allowed
      characters, cut at `cap` characters. */
  ghost predicate IsLongestAllowedPrefix(r: string, s: string, cap: nat)
  {
    && |r| <= cap && |r| <= |s|
    && r == UpperAll(s)[..|r|]
    && (forall i :: 0 <= i < |r| ==> IsSecretChar(r[i]))
    && (|r| == cap || |r| == |s| || !IsSecretChar(ToUpper(s[|r|])))
  }

  /** At most one string fits that description. */
  lemma LongestAllowedPrefixUnique(r1: string, r2: string, s: string, cap: nat)
    requires IsLongestAllowedPrefix(r1, s, cap) && IsLongestAllowedPrefix(r2, s, cap)
    ensures r1 == r2
  {
  }

  /** The filter keeps exactly the longest allowed prefix of the upper-cased
      input, capped at 63 characters; a NUL in the input ends it too. */
  lemma FilteredSecretIsLongestAllowedPrefix(s: string)
    ensures IsLongestAllowedPrefix(FilteredSecret(Some(s)), s, MAX_SECRET_LENGTH)
  {
    var cs := CString(s);
    var t := Take(cs, MAX_SECRET_LENGTH);
    var r := AllowedPrefix(t);
    assert |t| <= |cs| && forall i :: 0 <= i < |t| ==> t[i] == s[i];
    assert r == UpperAll(s)[..|r|];
    if |r| < MAX_SECRET_LENGTH && |r| < |s| {
      if |r| < |t| {
        assert !IsSecretChar(ToUpper(s[|r|]));
      } else {
        assert |t| == |cs| < |s| && s[|cs|] == NUL;
      }
    }
  }

  lemma UpperAllIdempotent(s: string)
    ensures UpperAll(UpperAll(s)) == UpperAll(s)
  {
  }

  /** Typing upper or lower case makes no difference to the kept secret. */
  lemma FilterIgnoresCase(s: string)
    ensures FilteredSecret(Some(UpperAll(s))) == FilteredSecret(Some(s))
  {
    var u := UpperAll(s);
    FilteredSecretIsLongestAllowedPrefix(u);
    FilteredSecretIsLongestAllowedPrefix(s);
    UpperAllIdempotent(s);
    LongestAllowedPrefixUnique(FilteredSecret(Some(u)), FilteredSecret(Some(s)), s, MAX_SECRET_LENGTH);
  }

  /** Up to 63 allowed characters, in either case, come back as their
      upper-case form. */
  lemma AllowedInputKept(s: string)
    requires |s| <= MAX_SECRET_LENGTH
    requires forall i :: 0 <= i < |s| ==> IsSecretChar(ToUpper(s[i]))
    ensures FilteredSecret(Some(s)) == UpperAll(s)
  {
    FilteredSecretIsLongestAllowedPrefix(s);
    assert IsLongestAllowedPrefix(UpperAll(s), s, MAX_SECRET_LENGTH);
    LongestAllowedPrefixUnique(FilteredSecret(Some(s)), UpperAll(s), s, MAX_SECRET_LENGTH);
  }

  /** Filtering an already filtered secret changes nothing. */
  lemma FilterIdempotent(text: Option<string>)
    ensures FilteredSecret(Some(FilteredSecret(text))) == FilteredSecret(text)
  {
    var r := FilteredSecret(text);
    assert forall i :: 0 <= i < |r| ==> ToUpper(r[i]) == r[i];
    AllowedInputKept(r);
    assert UpperAll(r) == r;
  }

  /** A typo cuts the secret short even when allowed characters follow. */
  lemma RejectedCharacterEndsSecret()
    ensures FilteredSecret(Some("jbsw1y3dp")) == "JBSW"
  {
    var s := "jbsw1y3dp";
    assert s[4] == '1' && !IsSecretChar(ToUpper(s[4]));
    assert AllowedPrefix(s[4..]) == [];
    assert AllowedPrefix(s[3..]) == "W";
    assert AllowedPrefix(s[2..]) == "SW";
    assert AllowedPrefix(s[1..]) == "BSW";
    assert AllowedPrefix(s) == "JBSW";
    assert NUL !in s;
    assert CString(s) == s;
  }
}
