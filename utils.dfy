/**
 * The string and credential helpers of the `utils` package: membership in a
 * slice or a map, three-way string comparison, the `user-id ":" password`
 * credential of section 2 of RFC 7617 carried in padded base64, and the
 * password rule.
 */
module Utils {
  import opened Wrappers
  import opened GoStrings
  import opened Base64

  // ---------------------------------------------------------------------
  // Contain
  // ---------------------------------------------------------------------

  /** The dynamic kind of `Contain`'s target: a slice or array, a map, or anything else. */
  datatype Target<K, V> = Slice(elems: seq<K>) | Dict(entries: map<K, V>) | NotCollection

  const NotInArray: string := "not in array"

  /**
   * `Contain(obj, target)`: a slice is searched element by element, a map
   * only by key. Every negative answer carries the "not in array" error.
   */
  method Contain<K(==), V>(obj: K, target: Target<K, V>) returns (found: bool, err: Option<string>)
    ensures found <==> (target.Slice? && obj in target.elems) || (target.Dict? && obj in target.entries)
    ensures found ==> err == None
    ensures !found ==> err == Some(NotInArray)
  {
    match target {
      case Slice(elems) =>
        var i := 0;
        while i < |elems|
          invariant 0 <= i <= |elems|
          invariant forall j :: 0 <= j < i ==> elems[j] != obj
        {
          if elems[i] == obj {
            return true, None;
          }
          i := i + 1;
        }
      case Dict(entries) =>
        if obj in entries {
          return true, None;
        }
      case NotCollection =>
    }
    return false, Some(NotInArray);
  }

  // ---------------------------------------------------------------------
  // Compare
  // ---------------------------------------------------------------------

  /** `Compare(a, b)`: 0 for equal strings, -1 when `a` sorts first, +1 otherwise. */
  function Compare(a: Bytes, b: Bytes): (r: int)
    ensures r == 0 <==> a == b
    ensures r == -1 <==> Less(a, b)
  {
    if a == b then LessIrreflexive(a); 0
    else if Less(a, b) then -1
    else 1
  }

  /** +1 means exactly that `b` sorts first, and swapping the arguments negates the answer. */
  lemma {:induction false} CompareSwap(a: Bytes, b: Bytes)
    ensures Compare(a, b) == 1 <==> Less(b, a)
    ensures Compare(b, a) == -Compare(a, b)
  {
    if a == b {
      LessIrreflexive(a);
    } else {
      LessTotal(a, b);
      if Less(a, b) {
        LessAsymmetric(a, b);
      } else {
        LessAsymmetric(b, a);
      }
    }
  }

  /** Comparison is a total order: it chains. */
  lemma CompareTransitive(a: Bytes, b: Bytes, c: Bytes)
    requires Compare(a, b) == -1 && Compare(b, c) == -1
    ensures Compare(a, c) == -1
  {
    LessTransitive(a, b, c);
  }

  // ---------------------------------------------------------------------
  // Basic authentication
  // ---------------------------------------------------------------------

  /** The user name and password that `DecodeBasicAuth` hands back. */
  datatype Credentials = Credentials(username: Bytes, password: Bytes)

  const InvalidAuth: string := "Invalid auth configuration file"
  const DecodeOverflow: string := "Something went wrong decoding auth config"

  /** The credential text `user ":" password`. */
  function UserPass(username: Bytes, password: Bytes): Bytes
  {
    username + [Colon] + password
  }

  /**
   * `EncodeBasicAuth(username, password)`: the padded base64 of
   * `username ":" password`, `EncodedLen` characters long, all from the
   * base64 alphabet, and decoding back to that credential text.
   */
  function EncodeBasicAuth(username: Bytes, password: Bytes): (r: Bytes)
    ensures |r| == EncodedLen(|username| + 1 + |password|)
    ensures Decode(r) == Ok(UserPass(username, password))
    ensures forall i :: 0 <= i < |r| ==> IsEncodedChar(r[i])
  {
    var text := UserPass(username, password);
    EncodedLength(text);
    DecodeEncode(text);
    EncodedChars(text);
    Encode(text)
  }

  /**
   * The second half of `DecodeBasicAuth`: decode one token into a buffer of
   * `DecodedLen` bytes (the decoded bytes followed by zero bytes), cut it at
   * the first ':' and strip NUL bytes from both ends of the password.
   * It fails exactly when the token is not base64 or its text has no ':';
   * the user name is the text before the first ':'.
   */
  function DecodeToken(token: Bytes): (r: Result<Credentials, string>)
    ensures r.Err? <==> Decode(token).Err? || Colon !in Decode(token).value
    ensures r.Err? ==> r.error == (if Decode(token).Err? then Decode(token).error else InvalidAuth)
    ensures r.Ok? ==> Colon !in r.value.username && r.value.username + [Colon] <= Decode(token).value
  {
    var decLen := DecodedLen(|token|);
    match Decode(token)
    case Err(e) => Err(e)
    case Ok(d) =>
      if |d| > decLen then Err(DecodeOverflow)
      else
        var decoded := d + Zeros(decLen - |d|);
        assert Colon in decoded <==> Colon in d;
        var arr := SplitN2(decoded, Colon);
        if |arr| != 2 then Err(InvalidAuth)
        else
          assert |arr[0]| < |d| by {
            var k :| 0 <= k < |d| && d[k] == Colon;
            assert decoded[k] == Colon;
            assert (arr[0] + [Colon] + arr[1])[k] == Colon;
          }
          assert arr[0] + [Colon] == decoded[..|arr[0]| + 1] == d[..|arr[0]| + 1];
          Ok(Credentials(arr[0], Trim(arr[1], {Nul})))
  }

  /**
   * `DecodeBasicAuth(authorization)`: split the trimmed text at spaces; with
   * fewer than two fields the answer is empty credentials and no error,
   * otherwise the second field is decoded by `DecodeToken`.
   */
  function DecodeBasicAuth(authorization: Bytes): (r: Result<Credentials, string>)
    ensures Space !in TrimSpace(authorization) ==> r == Ok(Credentials([], []))
    ensures r.Err? ==> Space in TrimSpace(authorization)
    ensures r.Ok? ==> Colon !in r.value.username
  {
    var basic := Split(TrimSpace(authorization), Space);
    SplitSingle(TrimSpace(authorization), Space);
    if |basic| <= 1 then Ok(Credentials([], []))
    else DecodeToken(basic[1])
  }

  /** Only the second space-separated field is decoded; whatever follows it is ignored. */
  lemma DecodeSecondField(authorization: Bytes, scheme: Bytes, token: Bytes, tail: Bytes)
    requires Space !in scheme && Space !in token
    requires TrimSpace(authorization) == scheme + [Space] + token + tail
    requires tail == [] || tail[0] == Space
    ensures DecodeBasicAuth(authorization) == DecodeToken(token)
  {
    SplitSecond(TrimSpace(authorization), Space, scheme, token, tail);
  }

  /** Encoded text has no white space in it or around it. */
  lemma EncodedIsOneWord(e: Bytes)
    requires forall i :: 0 <= i < |e| ==> IsEncodedChar(e[i])
    ensures |e| > 0 ==> IsWord(e)
    ensures Space !in e
    ensures TrimSpace(e) == e
  {
    TrimUntouched(e, AsciiSpace);
  }

  /** Without a scheme word in front, `EncodeBasicAuth`'s own output decodes to empty credentials. */
  lemma DecodeWithoutScheme(username: Bytes, password: Bytes)
    ensures DecodeBasicAuth(EncodeBasicAuth(username, password)) == Ok(Credentials([], []))
  {
    EncodedIsOneWord(EncodeBasicAuth(username, password));
  }

  /** A word with no white space in it. */
  predicate IsWord(w: Bytes)
  {
    |w| > 0 && forall i :: 0 <= i < |w| ==> w[i] !in AsciiSpace
  }

  lemma WordHasNoSpace(w: Bytes)
    requires IsWord(w)
    ensures Space !in w
  {
  }

  /** Two words joined by one space need no trimming. */
  lemma TwoWordsTrimmed(first: Bytes, second: Bytes)
    requires IsWord(first) && IsWord(second)
    ensures TrimSpace(first + [Space] + second) == first + [Space] + second
  {
    var s := first + [Space] + second;
    assert s[0] == first[0] && s[|s| - 1] == second[|second| - 1];
    TrimUntouched(s, AsciiSpace);
  }

  /** Two words joined by one space: the second word is the second field. */
  lemma SecondWord(first: Bytes, second: Bytes)
    requires IsWord(first) && IsWord(second)
    ensures var basic := Split(TrimSpace(first + [Space] + second), Space); |basic| >= 2 && basic[1] == second
  {
    TwoWordsTrimmed(first, second);
    WordHasNoSpace(first);
    WordHasNoSpace(second);
    var s := first + [Space] + second;
    assert s == first + [Space] + second + [];
    SplitSecond(s, Space, first, second, []);
  }

  /** Whatever the second field is, `DecodeBasicAuth` hands it to `DecodeToken`. */
  lemma DecodeOfSecondField(authorization: Bytes, token: Bytes)
    requires var basic := Split(TrimSpace(authorization), Space); |basic| >= 2 && basic[1] == token
    ensures DecodeBasicAuth(authorization) == DecodeToken(token)
  {
  }

  /** A token whose text is `username ":" rest`, with no ':' in the user name, decodes to that user name and the NUL-trimmed rest of the buffer. */
  lemma TokenOfCredential(token: Bytes, username: Bytes, rest: Bytes)
    requires Decode(token) == Ok(UserPass(username, rest))
    requires Colon !in username
    ensures DecodeToken(token) ==
      Ok(Credentials(username, Trim(rest + Zeros(DecodedLen(|token|) - |UserPass(username, rest)|), {Nul})))
  {
    var text := UserPass(username, rest);
    var zeros := Zeros(DecodedLen(|token|) - |text|);
    assert text + zeros == username + [Colon] + (rest + zeros);
    SplitN2At(username, Colon, rest + zeros);
  }

  /** A token whose text is `username ":" password` followed by NUL bytes decodes to `username` and `password`. */
  lemma TokenOfPaddedCredential(token: Bytes, username: Bytes, password: Bytes, pad: Bytes)
    requires Decode(token) == Ok(UserPass(username, password + pad))
    requires Colon !in username
    requires password == [] || (password[0] != Nul && password[|password| - 1] != Nul)
    requires forall i :: 0 <= i < |pad| ==> pad[i] == Nul
    ensures DecodeToken(token) == Ok(Credentials(username, password))
  {
    var sent := password + pad;
    TokenOfCredential(token, username, sent);
    var zeros := Zeros(DecodedLen(|token|) - |UserPass(username, sent)|);
    assert sent + zeros == password + (pad + zeros);
    TrimPadding(password, pad + zeros, {Nul});
  }

  /**
   * The decoded password loses any NUL bytes at its ends: an encoded
   * password `password + pad`, with `pad` all NUL bytes, comes back as
   * `password`.
   */
  lemma DecodeNulPadded(scheme: Bytes, username: Bytes, password: Bytes, pad: Bytes)
    requires IsWord(scheme)
    requires Colon !in username
    requires password == [] || (password[0] != Nul && password[|password| - 1] != Nul)
    requires forall i :: 0 <= i < |pad| ==> pad[i] == Nul
    ensures DecodeBasicAuth(scheme + [Space] + EncodeBasicAuth(username, password + pad))
         == Ok(Credentials(username, password))
  {
    var e := EncodeBasicAuth(username, password + pad);
    EncodedIsOneWord(e);
    SecondWord(scheme, e);
    DecodeOfSecondField(scheme + [Space] + e, e);
    TokenOfPaddedCredential(e, username, password, pad);
  }

  /** `DecodeBasicAuth(scheme + " " + EncodeBasicAuth(u, p))` gives back `u` and `p`. */
  lemma BasicAuthRoundTrip(scheme: Bytes, username: Bytes, password: Bytes)
    requires IsWord(scheme)
    requires Colon !in username
    requires password == [] || (password[0] != Nul && password[|password| - 1] != Nul)
    ensures DecodeBasicAuth(scheme + [Space] + EncodeBasicAuth(username, password))
         == Ok(Credentials(username, password))
  {
    assert password + [] == password;
    DecodeNulPadded(scheme, username, password, []);
  }

  /** The scheme word "Basic". */
  const Basic: Bytes := [66, 97, 115, 105, 99]

  /** As written: the password "x" followed by one NUL byte comes back as "x" alone. */
  lemma NulPasswordLost()
    ensures DecodeBasicAuth(Basic + [Space] + EncodeBasicAuth([117], [120, Nul]))
         == Ok(Credentials([117], [120]))
  {
    assert [120, Nul] == [120 as Byte] + [Nul];
    DecodeNulPadded(Basic, [117], [120], [Nul]);
  }

  /**
   * Corrected decoding: only the `n` bytes the decoder wrote are cut at the
   * first ':'; the password is kept exactly.
   */
  function DecodeTokenExact(token: Bytes): (r: Result<Credentials, string>)
    ensures r.Err? <==> Decode(token).Err? || Colon !in Decode(token).value
    ensures r.Ok? ==> Decode(token).value == UserPass(r.value.username, r.value.password)
    ensures r.Ok? ==> Colon !in r.value.username
  {
    match Decode(token)
    case Err(e) => Err(e)
    case Ok(d) =>
      var arr := SplitN2(d, Colon);
      if |arr| != 2 then Err(InvalidAuth)
      else Ok(Credentials(arr[0], arr[1]))
  }

  function DecodeBasicAuthExact(authorization: Bytes): (r: Result<Credentials, string>)
    ensures Space !in TrimSpace(authorization) ==> r == Ok(Credentials([], []))
  {
    var basic := Split(TrimSpace(authorization), Space);
    SplitSingle(TrimSpace(authorization), Space);
    if |basic| <= 1 then Ok(Credentials([], []))
    else DecodeTokenExact(basic[1])
  }

  /** With the corrected decoding every password survives the round trip, NUL bytes included. */
  lemma BasicAuthExactRoundTrip(scheme: Bytes, username: Bytes, password: Bytes)
    requires IsWord(scheme)
    requires Colon !in username
    ensures DecodeBasicAuthExact(scheme + [Space] + EncodeBasicAuth(username, password))
         == Ok(Credentials(username, password))
  {
    var e := EncodeBasicAuth(username, password);
    EncodedIsOneWord(e);
    SecondWord(scheme, e);
    SplitN2At(username, Colon, password);
  }

  // ---------------------------------------------------------------------
  // ValidatePassword
  // ---------------------------------------------------------------------

  const NoAlpha: string := "No alpha character in the password."
  const NoDigit: string := "No digital character in the password."
  const BadLength: string := "Password characters length should be between 5 - 30."

  /** The bracket expression `[:alpha:]`: one of ':', 'a', 'l', 'p', 'h'. */
  predicate InAlphaBracket(c: Byte)
  {
    c in {58, 97, 108, 112, 104}
  }

  /** The bracket expression `[:digit:]`: one of ':', 'd', 'i', 'g', 't'. */
  predicate InDigitBracket(c: Byte)
  {
    c in {58, 100, 105, 103, 116}
  }

  /** `regexp.MatchString` of a one-character class: does any byte of `s` belong to it? */
  function MatchesClass(s: Bytes, member: Byte -> bool): (r: bool)
    ensures r <==> exists i :: 0 <= i < |s| && member(s[i])
  {
    if |s| == 0 then false
    else if member(s[0]) then true
    else
      var rest := MatchesClass(s[1..], member);
      assert forall i :: 1 <= i < |s| ==> s[i] == s[1..][i - 1];
      rest
  }

  /**
   * `ValidatePassword(password)` as written: the first failing check names
   * the error, in the order [:alpha:], [:digit:], length 5 to 30 bytes.
   */
  function ValidatePassword(password: Bytes): (r: Option<string>)
    ensures r == Some(NoAlpha) <==> !exists i :: 0 <= i < |password| && InAlphaBracket(password[i])
    ensures r == Some(NoDigit) <==>
      (exists i :: 0 <= i < |password| && InAlphaBracket(password[i])) &&
      !exists i :: 0 <= i < |password| && InDigitBracket(password[i])
    ensures r == Some(BadLength) <==>
      (exists i :: 0 <= i < |password| && InAlphaBracket(password[i])) &&
      (exists i :: 0 <= i < |password| && InDigitBracket(password[i])) &&
      !(5 <= |password| <= 30)
    ensures r == None <==>
      (exists i :: 0 <= i < |password| && InAlphaBracket(password[i])) &&
      (exists i :: 0 <= i < |password| && InDigitBracket(password[i])) &&
      5 <= |password| <= 30
  {
    if !MatchesClass(password, InAlphaBracket) then Some(NoAlpha)
    else if !MatchesClass(password, InDigitBracket) then Some(NoDigit)
    else if |password| < 5 || |password| > 30 then Some(BadLength)
    else None
  }

  /** As written: "abc12" has a letter and a digit but is refused, while ":::::" is accepted. */
  lemma PasswordBracketQuirk()
    ensures ValidatePassword([97, 98, 99, 49, 50]) == Some(NoDigit)
    ensures ValidatePassword([58, 58, 58, 58, 58]) == None
  {
    var weak: Bytes := [58, 58, 58, 58, 58];
    assert InAlphaBracket(weak[0]) && InDigitBracket(weak[0]);
    var good: Bytes := [97, 98, 99, 49, 50];
    assert InAlphaBracket(good[0]);
  }

  predicate IsAsciiLetter(c: Byte)
  {
    65 <= c <= 90 || 97 <= c <= 122
  }

  predicate IsAsciiDigit(c: Byte)
  {
    48 <= c <= 57
  }

  /** Corrected rule: the classes `[[:alpha:]]` and `[[:digit:]]` that the messages describe. */
  function ValidatePasswordIntended(password: Bytes): (r: Option<string>)
    ensures r == None <==>
      (exists i :: 0 <= i < |password| && IsAsciiLetter(password[i])) &&
      (exists i :: 0 <= i < |password| && IsAsciiDigit(password[i])) &&
      5 <= |password| <= 30
    ensures r == Some(NoAlpha) <==> !exists i :: 0 <= i < |password| && IsAsciiLetter(password[i])
  {
    if !MatchesClass(password, IsAsciiLetter) then Some(NoAlpha)
    else if !MatchesClass(password, IsAsciiDigit) then Some(NoDigit)
    else if |password| < 5 || |password| > 30 then Some(BadLength)
    else None
  }

  /** With the corrected classes "abc12" is accepted and ":::::" refused. */
  lemma PasswordIntendedExamples()
    ensures ValidatePasswordIntended([97, 98, 99, 49, 50]) == None
    ensures ValidatePasswordIntended([58, 58, 58, 58, 58]) == Some(NoAlpha)
  {
    var good: Bytes := [97, 98, 99, 49, 50];
    assert IsAsciiLetter(good[0]) && IsAsciiDigit(good[3]);
  }
}
