/**
 * The parts of Go's string semantics that the credential utilities rely on.
 * A Go `string` is an immutable sequence of bytes; `len` counts bytes and
 * `<` compares bytes.
 */
module GoStrings {

  newtype Byte = b: int | 0 <= b < 256
  type Bytes = seq<Byte>

  const Nul: Byte := 0
  const Space: Byte := 32
  const Colon: Byte := 58

  /** Go's `a < b` on strings: byte-wise lexicographic, a proper prefix is smaller. */
  predicate Less(a: Bytes, b: Bytes)
  {
    if |a| == 0 then |b| > 0
    else if |b| == 0 then false
    else a[0] < b[0] || (a[0] == b[0] && Less(a[1..], b[1..]))
  }

  lemma {:induction false} LessIrreflexive(a: Bytes)
    ensures !Less(a, a)
  {
    if |a| > 0 {
      LessIrreflexive(a[1..]);
    }
  }

  lemma {:induction false} LessAsymmetric(a: Bytes, b: Bytes)
    requires Less(a, b)
    ensures !Less(b, a)
  {
    if |a| > 0 && |b| > 0 && a[0] == b[0] {
      LessAsymmetric(a[1..], b[1..]);
    }
  }

  /** Two different strings are always ordered one way or the other. */
  lemma {:induction false} LessTotal(a: Bytes, b: Bytes)
    requires a != b
    ensures Less(a, b) || Less(b, a)
  {
    if |a| > 0 && |b| > 0 && a[0] == b[0] {
      assert a == [a[0]] + a[1..] && b == [b[0]] + b[1..];
      LessTotal(a[1..], b[1..]);
    }
  }

  lemma {:induction false} LessTransitive(a: Bytes, b: Bytes, c: Bytes)
    requires Less(a, b) && Less(b, c)
    ensures Less(a, c)
  {
    if |a| > 0 && a[0] == b[0] && b[0] == c[0] {
      LessTransitive(a[1..], b[1..], c[1..]);
    }
  }

  /** `strings.IndexByte`: the first position of `b` in `s`, or -1. */
  function IndexByte(s: Bytes, b: Byte): (r: int)
    ensures -1 <= r < |s|
    ensures r >= 0 ==> s[r] == b
  {
    if |s| == 0 then -1
    else if s[0] == b then 0
    else
      var k := IndexByte(s[1..], b);
      if k == -1 then -1 else k + 1
  }

  /** `IndexByte` finds the first occurrence, and reports -1 only when there is none. */
  lemma {:induction false} IndexByteFirst(s: Bytes, b: Byte)
    ensures forall j :: 0 <= j < |s| && (IndexByte(s, b) == -1 || j < IndexByte(s, b)) ==> s[j] != b
    decreases |s|
  {
    if |s| > 0 && s[0] != b {
      IndexByteFirst(s[1..], b);
      assert forall j :: 1 <= j < |s| ==> s[j] == s[1..][j - 1];
    }
  }

  /** `strings.Split(s, sep)` for a one-byte separator. */
  function Split(s: Bytes, sep: Byte): (parts: seq<Bytes>)
    ensures |parts| >= 1
    decreases |s|
  {
    var i := IndexByte(s, sep);
    if i < 0 then [s] else [s[..i]] + Split(s[i + 1..], sep)
  }

  /** A string splits into a single piece exactly when the separator does not occur in it. */
  lemma SplitSingle(s: Bytes, sep: Byte)
    ensures |Split(s, sep)| == 1 <==> sep !in s
  {
    var i := IndexByte(s, sep);
    IndexByteFirst(s, sep);
    if i >= 0 {
      assert |Split(s, sep)| == 1 + |Split(s[i + 1..], sep)|;
    }
  }

  /** `strings.Join(parts, sep)`, the inverse of `Split`. */
  function Join(parts: seq<Bytes>, sep: Byte): Bytes
  {
    if |parts| == 0 then []
    else if |parts| == 1 then parts[0]
    else parts[0] + [sep] + Join(parts[1..], sep)
  }

  lemma JoinCons(head: Bytes, rest: seq<Bytes>, sep: Byte)
    requires |rest| >= 1
    ensures Join([head] + rest, sep) == head + [sep] + Join(rest, sep)
  {
    assert ([head] + rest)[1..] == rest;
  }

  lemma SplitUnfold(s: Bytes, sep: Byte, i: int)
    requires 0 <= i < |s| && i == IndexByte(s, sep)
    ensures Split(s, sep) == [s[..i]] + Split(s[i + 1..], sep)
  {
  }

  lemma JoinAround(s: Bytes, sep: Byte, i: int, pieces: seq<Bytes>)
    requires 0 <= i < |s| && s[i] == sep && |pieces| >= 1
    requires Join(pieces, sep) == s[i + 1..]
    ensures Join([s[..i]] + pieces, sep) == s
  {
    JoinCons(s[..i], pieces, sep);
    assert s == s[..i] + [sep] + s[i + 1..];
  }

  /** Splitting loses nothing: joining the pieces gives the string back. */
  lemma {:induction false} SplitJoin(s: Bytes, sep: Byte)
    ensures Join(Split(s, sep), sep) == s
    decreases |s|
  {
    var i := IndexByte(s, sep);
    if i >= 0 {
      SplitJoin(s[i + 1..], sep);
      SplitUnfold(s, sep, i);
      JoinAround(s, sep, i, Split(s[i + 1..], sep));
    } else {
      assert Split(s, sep) == [s];
    }
  }

  /** The second field of `Split` is the text between the first and the second separator. */
  lemma SplitSecond(s: Bytes, sep: Byte, head: Bytes, token: Bytes, tail: Bytes)
    requires sep !in head && sep !in token
    requires s == head + [sep] + token + tail
    requires tail == [] || tail[0] == sep
    ensures |Split(s, sep)| >= 2 && Split(s, sep)[1] == token
  {
    assert s[|head|] == sep;
    assert s[..|head|] == head;
    var i := IndexByte(s, sep);
    IndexByteFirst(s, sep);
    assert i == |head|;
    var rest := s[i + 1..];
    IndexByteFirst(rest, sep);
    assert rest == token + tail;
    assert rest[..|token|] == token;
    if tail == [] {
      assert sep !in rest;
    } else {
      assert rest[|token|] == sep;
      assert IndexByte(rest, sep) == |token|;
    }
  }

  /** `strings.SplitN(s, sep, 2)` for a one-byte separator. */
  function SplitN2(s: Bytes, sep: Byte): (parts: seq<Bytes>)
    ensures |parts| == 1 || |parts| == 2
    ensures |parts| == 2 <==> sep in s
    ensures |parts| == 1 ==> parts[0] == s
    ensures |parts| == 2 ==> parts[0] + [sep] + parts[1] == s && sep !in parts[0]
  {
    var i := IndexByte(s, sep);
    IndexByteFirst(s, sep);
    if i < 0 then [s] else [s[..i], s[i + 1..]]
  }

  /** `SplitN(s, sep, 2)` cuts at the first separator, so a head free of separators comes back whole. */
  lemma SplitN2At(head: Bytes, sep: Byte, tail: Bytes)
    requires sep !in head
    ensures SplitN2(head + [sep] + tail, sep) == [head, tail]
  {
    var s := head + [sep] + tail;
    IndexByteFirst(s, sep);
    assert s[|head|] == sep;
    assert IndexByte(s, sep) == |head|;
    assert s[..|head|] == head;
    assert s[|head| + 1..] == tail;
  }

  /** `strings.TrimLeft(s, cutset)`: drops the longest prefix made of cutset bytes. */
  function TrimLeft(s: Bytes, cutset: set<Byte>): (r: Bytes)
    ensures |r| <= |s|
  {
    if |s| > 0 && s[0] in cutset then TrimLeft(s[1..], cutset) else s
  }

  /** `TrimLeft` keeps a suffix, everything it drops is in the cutset, and what it keeps does not start with a cutset byte. */
  lemma {:induction false} TrimLeftSpec(s: Bytes, cutset: set<Byte>)
    ensures var r := TrimLeft(s, cutset);
      && r == s[|s| - |r|..]
      && (forall i :: 0 <= i < |s| - |r| ==> s[i] in cutset)
      && (|r| > 0 ==> r[0] !in cutset)
    decreases |s|
  {
    if |s| > 0 && s[0] in cutset {
      TrimLeftSpec(s[1..], cutset);
    }
  }

  /** `strings.TrimRight(s, cutset)`: drops the longest suffix made of cutset bytes. */
  function TrimRight(s: Bytes, cutset: set<Byte>): (r: Bytes)
    ensures |r| <= |s|
  {
    if |s| > 0 && s[|s| - 1] in cutset then TrimRight(s[..|s| - 1], cutset) else s
  }

  /** `TrimRight` keeps a prefix, everything it drops is in the cutset, and what it keeps does not end with a cutset byte. */
  lemma {:induction false} TrimRightSpec(s: Bytes, cutset: set<Byte>)
    ensures var r := TrimRight(s, cutset);
      && r == s[..|r|]
      && (forall i :: |r| <= i < |s| ==> s[i] in cutset)
      && (|r| > 0 ==> r[|r| - 1] !in cutset)
    decreases |s|
  {
    if |s| > 0 && s[|s| - 1] in cutset {
      TrimRightSpec(s[..|s| - 1], cutset);
    }
  }

  /** `strings.Trim(s, cutset)`. */
  function Trim(s: Bytes, cutset: set<Byte>): Bytes
  {
    TrimRight(TrimLeft(s, cutset), cutset)
  }

  /** The ASCII white space that `strings.TrimSpace` removes: tab, line feed, vertical tab, form feed, carriage return, space. */
  const AsciiSpace: set<Byte> := {9, 10, 11, 12, 13, 32}

  /** `strings.TrimSpace` on text whose white space is ASCII. */
  function TrimSpace(s: Bytes): Bytes
  {
    Trim(s, AsciiSpace)
  }

  /** Trimming leaves a string alone when neither end is in the cutset. */
  lemma TrimUntouched(s: Bytes, cutset: set<Byte>)
    requires s == [] || (s[0] !in cutset && s[|s| - 1] !in cutset)
    ensures Trim(s, cutset) == s
  {
  }

  /** Trimming on the right removes exactly the padding of cutset bytes behind a string that does not end in one. */
  lemma {:induction false} TrimRightPadding(s: Bytes, pad: Bytes, cutset: set<Byte>)
    requires s == [] || s[|s| - 1] !in cutset
    requires forall i :: 0 <= i < |pad| ==> pad[i] in cutset
    ensures TrimRight(s + pad, cutset) == s
    decreases |pad|
  {
    var t := s + pad;
    if pad == [] {
      assert t == s;
    } else {
      var shorter := pad[..|pad| - 1];
      assert t[|t| - 1] == pad[|pad| - 1];
      assert t[..|t| - 1] == s + shorter;
      TrimRightPadding(s, shorter, cutset);
    }
  }

  /** A string made only of cutset bytes trims away on the left. */
  lemma {:induction false} TrimLeftAll(pad: Bytes, cutset: set<Byte>)
    requires forall i :: 0 <= i < |pad| ==> pad[i] in cutset
    ensures TrimLeft(pad, cutset) == []
    decreases |pad|
  {
    if pad != [] {
      TrimLeftAll(pad[1..], cutset);
    }
  }

  /** A string followed by cutset bytes trims back to itself when its own ends are not in the cutset. */
  lemma TrimPadding(s: Bytes, pad: Bytes, cutset: set<Byte>)
    requires s == [] || (s[0] !in cutset && s[|s| - 1] !in cutset)
    requires forall i :: 0 <= i < |pad| ==> pad[i] in cutset
    ensures Trim(s + pad, cutset) == s
  {
    if s == [] {
      assert s + pad == pad;
      TrimLeftAll(pad, cutset);
    } else {
      assert (s + pad)[0] == s[0];
      assert TrimLeft(s + pad, cutset) == s + pad;
      TrimRightPadding(s, pad, cutset);
    }
  }

  /** `n` zero bytes, what `make([]byte, n)` holds before it is written. */
  function Zeros(n: nat): (r: Bytes)
    ensures |r| == n && forall i :: 0 <= i < n ==> r[i] == Nul
  {
    seq(n, _ => Nul)
  }
}
