/**
 * Go's `base64.StdEncoding`: the padded alphabet of section 4 of RFC 4648.
 * Decoding follows Go's decoder: carriage returns and line feeds are skipped
 * wherever they occur, the input must then be whole four-character quanta
 * with padding only in the last one, and the unused low bits of a padded
 * quantum are ignored (the encoding is not in strict mode).
 */
module Base64 {
  import opened Wrappers
  import opened GoStrings

  type Sextet = v: int | 0 <= v < 64

  const Pad: Byte := 61

  /** The message Go gives for input that is not base64. */
  const CorruptInput: string := "illegal base64 data at input byte"

  /** The base64 character of a six-bit value: A-Z, a-z, 0-9, '+', '/'. */
  function EncodeSextet(v: Sextet): Byte
  {
    if v < 26 then ('A' as int + v) as Byte
    else if v < 52 then ('a' as int + (v - 26)) as Byte
    else if v < 62 then ('0' as int + (v - 52)) as Byte
    else if v == 62 then '+' as int as Byte
    else '/' as int as Byte
  }

  /** The six-bit value of a base64 character; `None` for every other byte, the padding included. */
  function DecodeSextet(c: Byte): Option<Sextet>
  {
    var x := c as int;
    if 'A' as int <= x <= 'Z' as int then Some(x - 'A' as int)
    else if 'a' as int <= x <= 'z' as int then Some(x - 'a' as int + 26)
    else if '0' as int <= x <= '9' as int then Some(x - '0' as int + 52)
    else if x == '+' as int then Some(62)
    else if x == '/' as int then Some(63)
    else None
  }

  /** Each character names exactly one six-bit value; none of them is the padding or white space. */
  lemma SextetRoundTrip(v: Sextet)
    ensures DecodeSextet(EncodeSextet(v)) == Some(v)
    ensures EncodeSextet(v) != Pad && EncodeSextet(v) !in AsciiSpace
  {
  }

  /** A byte that can appear in encoded output. */
  predicate IsEncodedChar(c: Byte)
  {
    DecodeSextet(c).Some? || c == Pad
  }

  /** `EncodedLen`: four characters for every started group of three bytes. */
  function EncodedLen(n: nat): nat
  {
    (n + 2) / 3 * 4
  }

  lemma EncodedLenStep(n: nat)
    ensures EncodedLen(n + 3) == EncodedLen(n) + 4
  {
    assert (n + 3 + 2) / 3 == (n + 2) / 3 + 1;
  }

  /** `DecodedLen`: the room Go reserves for decoding `n` characters. */
  function DecodedLen(n: nat): nat
  {
    n / 4 * 3
  }

  lemma DecodedLenStep(n: nat)
    requires n >= 4
    ensures DecodedLen(n) == DecodedLen(n - 4) + 3
  {
    assert n / 4 == (n - 4) / 4 + 1;
  }

  lemma DecodedLenMonotone(m: nat, n: nat)
    requires m <= n
    ensures DecodedLen(m) <= DecodedLen(n)
  {
    assert m / 4 <= n / 4;
  }

  /** The four characters of three bytes, six bits each, most significant first. */
  function EncodeQuantum(b0: Byte, b1: Byte, b2: Byte): seq<Byte>
  {
    var x0, x1, x2 := b0 as int, b1 as int, b2 as int;
    [EncodeSextet(x0 / 4), EncodeSextet(x0 % 4 * 16 + x1 / 16),
     EncodeSextet(x1 % 16 * 4 + x2 / 64), EncodeSextet(x2 % 64)]
  }

  /** `StdEncoding.Encode`: every group of three bytes becomes four characters; a last group of one or two bytes is padded with '='. */
  function Encode(s: Bytes): Bytes
    decreases |s|
  {
    if |s| == 0 then []
    else if |s| == 1 then
      var x0 := s[0] as int;
      [EncodeSextet(x0 / 4), EncodeSextet(x0 % 4 * 16), Pad, Pad]
    else if |s| == 2 then
      var x0, x1 := s[0] as int, s[1] as int;
      [EncodeSextet(x0 / 4), EncodeSextet(x0 % 4 * 16 + x1 / 16), EncodeSextet(x1 % 16 * 4), Pad]
    else
      EncodeQuantum(s[0], s[1], s[2]) + Encode(s[3..])
  }

  /** The encoding is exactly `EncodedLen` characters long: four for every started group of three bytes. */
  lemma {:induction false} EncodedLength(s: Bytes)
    ensures |Encode(s)| == EncodedLen(|s|)
    decreases |s|
  {
    if |s| >= 3 {
      EncodedLength(s[3..]);
      EncodedLenStep(|s| - 3);
    }
  }

  /** The bytes of a quantum with sextets v0..v3: the first uses v0 and the top two bits of v1, and so on. */
  function FirstByte(v0: Sextet, v1: Sextet): Byte
  {
    (v0 * 4 + v1 / 16) as Byte
  }

  function SecondByte(v1: Sextet, v2: Sextet): Byte
  {
    (v1 % 16 * 16 + v2 / 4) as Byte
  }

  function ThirdByte(v2: Sextet, v3: Sextet): Byte
  {
    (v2 % 4 * 64 + v3) as Byte
  }

  /**
   * Decoding once carriage returns and line feeds are gone. A quantum with
   * "==" yields one byte, one with a single '=' two bytes, and nothing may
   * follow a padded quantum.
   */
  function DecodeQuanta(s: Bytes): Option<Bytes>
    decreases |s|
  {
    if |s| == 0 then Some([])
    else if |s| < 4 then None
    else
      var d0, d1, d2, d3 := DecodeSextet(s[0]), DecodeSextet(s[1]), DecodeSextet(s[2]), DecodeSextet(s[3]);
      if d0.None? || d1.None? then None
      else if |s| == 4 && s[2] == Pad && s[3] == Pad then
        Some([FirstByte(d0.value, d1.value)])
      else if |s| == 4 && d2.Some? && s[3] == Pad then
        Some([FirstByte(d0.value, d1.value), SecondByte(d1.value, d2.value)])
      else if d2.None? || d3.None? then None
      else
        match DecodeQuanta(s[4..])
        case None => None
        case Some(rest) =>
          Some([FirstByte(d0.value, d1.value), SecondByte(d1.value, d2.value), ThirdByte(d2.value, d3.value)] + rest)
  }

  /** Decoding never yields more than the `DecodedLen` room Go reserves for it. */
  lemma {:induction false} DecodedLength(s: Bytes)
    ensures DecodeQuanta(s).Some? ==> |DecodeQuanta(s).value| <= DecodedLen(|s|)
    decreases |s|
  {
    if |s| > 4 {
      DecodedLength(s[4..]);
      DecodedLenStep(|s|);
    }
  }

  /** The input with every carriage return (13) and line feed (10) removed. */
  function SkipNewlines(s: Bytes): (r: Bytes)
    ensures |r| <= |s|
  {
    if |s| == 0 then []
    else if s[0] == 13 || s[0] == 10 then SkipNewlines(s[1..])
    else [s[0]] + SkipNewlines(s[1..])
  }

  /** `StdEncoding.DecodeString` (the bytes written by `Decode`), or its error. */
  function Decode(s: Bytes): (r: Result<Bytes, string>)
    ensures r.Ok? ==> |r.value| <= DecodedLen(|s|)
  {
    var d := DecodeQuanta(SkipNewlines(s));
    DecodedLength(SkipNewlines(s));
    DecodedLenMonotone(|SkipNewlines(s)|, |s|);
    if d.None? then Err(CorruptInput) else Ok(d.value)
  }

  /** Encoded text uses only the alphabet and the padding character. */
  lemma {:induction false} EncodedChars(s: Bytes)
    ensures forall i :: 0 <= i < |Encode(s)| ==> IsEncodedChar(Encode(s)[i])
    decreases |s|
  {
    var x0 := if |s| > 0 then s[0] as int else 0;
    var x1 := if |s| > 1 then s[1] as int else 0;
    var x2 := if |s| > 2 then s[2] as int else 0;
    SextetRoundTrip(x0 / 4);
    SextetRoundTrip(x0 % 4 * 16 + x1 / 16);
    SextetRoundTrip(x1 % 16 * 4 + x2 / 64);
    SextetRoundTrip(x2 % 64);
    if |s| >= 3 {
      EncodedChars(s[3..]);
      var q, e := EncodeQuantum(s[0], s[1], s[2]), Encode(s[3..]);
      assert Encode(s) == q + e;
      forall i | 0 <= i < |q + e|
        ensures IsEncodedChar((q + e)[i])
      {
        if i >= 4 {
          assert (q + e)[i] == e[i - 4];
        }
      }
    }
  }

  /** Encoded text holds no line breaks, so the decoder sees it as it is. */
  lemma {:induction false} SkipNewlinesUntouched(s: Bytes)
    requires forall i :: 0 <= i < |s| ==> IsEncodedChar(s[i])
    ensures SkipNewlines(s) == s
    decreases |s|
  {
    if |s| > 0 {
      assert IsEncodedChar(s[0]);
      SkipNewlinesUntouched(s[1..]);
      assert s == [s[0]] + s[1..];
    }
  }

  lemma FirstByteOf(x0: int, x1: int)
    requires 0 <= x0 < 256 && 0 <= x1 < 256
    ensures FirstByte(x0 / 4, x0 % 4 * 16 + x1 / 16) as int == x0
  {
    assert (x0 % 4 * 16 + x1 / 16) / 16 == x0 % 4;
  }

  lemma SecondByteOf(x0: int, x1: int, x2: int)
    requires 0 <= x0 < 256 && 0 <= x1 < 256 && 0 <= x2 < 256
    ensures SecondByte(x0 % 4 * 16 + x1 / 16, x1 % 16 * 4 + x2 / 64) as int == x1
  {
    assert (x0 % 4 * 16 + x1 / 16) % 16 == x1 / 16;
    assert (x1 % 16 * 4 + x2 / 64) / 4 == x1 % 16;
  }

  lemma ThirdByteOf(x1: int, x2: int)
    requires 0 <= x1 < 256 && 0 <= x2 < 256
    ensures ThirdByte(x1 % 16 * 4 + x2 / 64, x2 % 64) as int == x2
  {
    assert (x1 % 16 * 4 + x2 / 64) % 4 == x2 / 64;
  }

  /** Four base64 characters decode to three bytes ahead of whatever the rest decodes to. */
  lemma DecodeFullQuantum(s: Bytes, v0: Sextet, v1: Sextet, v2: Sextet, v3: Sextet)
    requires |s| >= 4
    requires DecodeSextet(s[0]) == Some(v0) && DecodeSextet(s[1]) == Some(v1)
    requires DecodeSextet(s[2]) == Some(v2) && DecodeSextet(s[3]) == Some(v3)
    requires DecodeQuanta(s[4..]).Some?
    ensures DecodeQuanta(s) == Some([FirstByte(v0, v1), SecondByte(v1, v2), ThirdByte(v2, v3)] + DecodeQuanta(s[4..]).value)
  {
    assert s[2] != Pad && s[3] != Pad;
  }

  /** A group of three bytes, encoded, decodes back to those bytes ahead of whatever follows. */
  lemma QuantumRoundTrip(b0: Byte, b1: Byte, b2: Byte, t: Bytes, r: Bytes)
    requires DecodeQuanta(t) == Some(r)
    ensures DecodeQuanta(EncodeQuantum(b0, b1, b2) + t) == Some([b0, b1, b2] + r)
  {
    var x0, x1, x2 := b0 as int, b1 as int, b2 as int;
    var s := EncodeQuantum(b0, b1, b2) + t;
    assert s[4..] == t;
    SextetRoundTrip(x0 / 4);
    SextetRoundTrip(x0 % 4 * 16 + x1 / 16);
    SextetRoundTrip(x1 % 16 * 4 + x2 / 64);
    SextetRoundTrip(x2 % 64);
    DecodeFullQuantum(s, x0 / 4, x0 % 4 * 16 + x1 / 16, x1 % 16 * 4 + x2 / 64, x2 % 64);
    FirstByteOf(x0, x1);
    SecondByteOf(x0, x1, x2);
    ThirdByteOf(x1, x2);
  }

  /** A last group of one byte, "xx==", decodes back to that byte. */
  lemma OneByteRoundTrip(b0: Byte)
    ensures DecodeQuanta(Encode([b0])) == Some([b0])
  {
    var x0 := b0 as int;
    FirstByteOf(x0, 0);
    SextetRoundTrip(x0 / 4);
    SextetRoundTrip(x0 % 4 * 16);
    var e := Encode([b0]);
    assert e == [EncodeSextet(x0 / 4), EncodeSextet(x0 % 4 * 16), Pad, Pad];
    assert DecodeQuanta(e) == Some([FirstByte(x0 / 4, x0 % 4 * 16)]);
  }

  /** A last group of two bytes, "xxx=", decodes back to those bytes. */
  lemma TwoBytesRoundTrip(b0: Byte, b1: Byte)
    ensures DecodeQuanta(Encode([b0, b1])) == Some([b0, b1])
  {
    var x0, x1 := b0 as int, b1 as int;
    FirstByteOf(x0, x1);
    SecondByteOf(x0, x1, 0);
    SextetRoundTrip(x0 / 4);
    SextetRoundTrip(x0 % 4 * 16 + x1 / 16);
    SextetRoundTrip(x1 % 16 * 4);
    var e := Encode([b0, b1]);
    assert e == [EncodeSextet(x0 / 4), EncodeSextet(x0 % 4 * 16 + x1 / 16), EncodeSextet(x1 % 16 * 4), Pad];
    assert e[2] != Pad;
    assert DecodeQuanta(e) == Some([FirstByte(x0 / 4, x0 % 4 * 16 + x1 / 16), SecondByte(x0 % 4 * 16 + x1 / 16, x1 % 16 * 4)]);
  }

  /** Encoding a string of three or more bytes starts with the quantum of its first three. */
  lemma EncodeUnfold(s: Bytes)
    requires |s| >= 3
    ensures Encode(s) == EncodeQuantum(s[0], s[1], s[2]) + Encode(s[3..])
  {
  }

  /** A string of three or more bytes is its first three bytes followed by the rest. */
  lemma SplitFirstThree(s: Bytes)
    requires |s| >= 3
    ensures [s[0], s[1], s[2]] + s[3..] == s
  {
  }

  /** Encoded quanta decode back to the bytes they came from. */
  lemma {:induction false} EncodeDecodeQuanta(s: Bytes)
    ensures DecodeQuanta(Encode(s)) == Some(s)
    decreases |s|
  {
    if |s| == 1 {
      assert s == [s[0]];
      OneByteRoundTrip(s[0]);
    } else if |s| == 2 {
      assert s == [s[0], s[1]];
      TwoBytesRoundTrip(s[0], s[1]);
    } else if |s| >= 3 {
      var rest := s[3..];
      EncodeDecodeQuanta(rest);
      EncodeUnfold(s);
      QuantumRoundTrip(s[0], s[1], s[2], Encode(rest), rest);
      SplitFirstThree(s);
    }
  }

  /** Decoding undoes encoding: `DecodeString(EncodeToString(s))` is `s` with no error. */
  lemma DecodeEncode(s: Bytes)
    ensures Decode(Encode(s)) == Ok(s)
  {
    EncodedChars(s);
    SkipNewlinesUntouched(Encode(s));
    EncodeDecodeQuanta(s);
  }
}
