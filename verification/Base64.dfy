/** Base64 as in section 4 of RFC 4648, with bytes as numbers below 256. */
module Base64 {
  type Byte = n: nat | n < 256

  /** sixfours: upper case letters, lower case letters, digits, `+` and `/`. */
  function Letter(v: nat): char
    requires v < 64
  {
    if v < 26 then ('A' as int + v) as char
    else if v < 52 then ('a' as int + v - 26) as char
    else if v < 62 then ('0' as int + v - 52) as char
    else if v == 62 then '+' else '/'
  }

  /** foursixes: 0 for anything that is not a letter, `=` included. The table of the source is one slot short of
      `z`; here it is total. */
  function Value(c: char): (v: nat)
    ensures v < 64
  {
    if 'A' <= c <= 'Z' then c as int - 'A' as int
    else if 'a' <= c <= 'z' then c as int - 'a' as int + 26
    else if '0' <= c <= '9' then c as int - '0' as int + 52
    else if c == '+' then 62
    else if c == '/' then 63
    else 0
  }

  /** Three bytes, or what is left of them, as four letters. */
  function Quad(a: Byte, b: Byte, c: Byte, n: nat): (q: string)
    requires 1 <= n <= 3
    ensures |q| == 4
  {
    [Letter(a / 4), Letter(a % 4 * 16 + b / 16),
     if n < 2 then '=' else Letter(b % 16 * 4 + c / 64),
     if n < 3 then '=' else Letter(c % 64)]
  }

  function At(bytes: seq<Byte>, i: nat): Byte { if i < |bytes| then bytes[i] else 0 }

  function Encode(bytes: seq<Byte>): (s: string)
    ensures |s| == 4 * ((|bytes| + 2) / 3)
  {
    if bytes == [] then [] else
    var n := if |bytes| < 3 then |bytes| else 3;
    Quad(bytes[0], At(bytes, 1), At(bytes, 2), n) + Encode(bytes[n..])
  }

  /** Four letters as up to three bytes; the shifts are cut to a byte. */
  function Triple(s: string): (bytes: seq<Byte>)
    requires |s| == 4
  {
    var w, x, y, z := Value(s[0]), Value(s[1]), Value(s[2]), Value(s[3]);
    [w * 4 + x / 16]
    + (if s[2] != '=' then [x % 16 * 16 + y / 4] else [])
    + (if s[3] != '=' then [y % 4 * 64 + z] else [])
  }

  function Decode(s: string): seq<Byte>
    requires |s| % 4 == 0
  {
    if s == [] then [] else Triple(s[..4]) + Decode(s[4..])
  }

  /** flu64_do_encode, into its output buffer. */
  method DoEncode(bytes: seq<Byte>, out: array<char>)
    requires out.Length >= 4 * ((|bytes| + 2) / 3)
    modifies out
    ensures out[..|Encode(bytes)|] == Encode(bytes)
    ensures forall k :: |Encode(bytes)| <= k < out.Length ==> out[k] == old(out[k])
  {
    hide Quad, Encode;
    var i, j := 0, 0;
    ghost var rest := bytes;
    ghost var done := [];
    while i < |bytes|
      invariant 0 <= i && (i < |bytes| ==> rest == bytes[i..]) && (i >= |bytes| ==> rest == [])
      invariant j == |done| && j + |Encode(rest)| == |Encode(bytes)|
      invariant out[..j] == done && Encode(bytes) == done + Encode(rest)
      invariant forall k :: |Encode(bytes)| <= k < out.Length ==> out[k] == old(out[k])
    {
      EncodeStep(rest);
      var a := bytes[i];
      var b := if i + 1 < |bytes| then bytes[i + 1] else 0;
      var c := if i + 2 < |bytes| then bytes[i + 2] else 0;
      var n := if |bytes| - i < 3 then |bytes| - i else 3;
      EncodeQuad(a, b, c, n, out, j);
      ghost var quad := Quad(a, b, c, n);
      assert out[..j + 4] == done + quad;
      assert done + Encode(rest) == (done + quad) + Encode(rest[n..]);
      done, rest := done + quad, rest[n..];
      i := i + 3;
      j := j + 4;
    }
    assert Encode([]) == [] by { EncodeNothing(); }
    assert done + [] == done;
  }

  /** The body of its loop: the four letters of `n` bytes, from `j` on. */
  method EncodeQuad(a: Byte, b: Byte, c: Byte, n: nat, out: array<char>, j: nat)
    requires 1 <= n <= 3 && j + 4 <= out.Length
    modifies out
    ensures out[..j + 4] == old(out[..j]) + Quad(a, b, c, n)
    ensures forall k :: j + 4 <= k < out.Length ==> out[k] == old(out[k])
  {
    hide Letter;
    out[j] := Letter(a / 4);
    out[j + 1] := Letter(a % 4 * 16 + b / 16);
    out[j + 2] := if n < 2 then '=' else Letter(b % 16 * 4 + c / 64);
    out[j + 3] := if n < 3 then '=' else Letter(c % 64);
  }

  lemma EncodeNothing()
    ensures Encode([]) == []
  {
  }

  lemma EncodeStep(bytes: seq<Byte>)
    requires bytes != []
    ensures
      var n := if |bytes| < 3 then |bytes| else 3;
      && Encode(bytes) == Quad(bytes[0], At(bytes, 1), At(bytes, 2), n) + Encode(bytes[n..])
      && |Encode(bytes)| == 4 + |Encode(bytes[n..])|
  {
    hide Letter;
  }

  /** flu64_do_decode, into its output buffer. */
  method DoDecode(s: string, out: array<Byte>) returns (n: nat)
    requires |s| % 4 == 0 && out.Length >= |s| / 4 * 3
    modifies out
    ensures n <= out.Length && out[..n] == Decode(s)
  {
    hide Value, Decode, Triple;
    var i := 0;
    n := 0;
    ghost var quads := 0;
    assert s[0..] == s;
    while i < |s|
      invariant 0 <= i <= |s| && i == 4 * quads && n <= 3 * quads
      invariant Decode(s) == out[..n] + Decode(s[i..])
    {
      DecodeStep(s, i);
      ghost var done := out[..n];
      n := DecodeQuad(s, i, out, n);
      assert done + (Triple(s[i..i + 4]) + Decode(s[i + 4..])) == out[..n] + Decode(s[i + 4..]);
      i := i + 4;
      quads := quads + 1;
    }
    assert Decode([]) == [] by { DecodeNothing(); }
    assert s[|s|..] == [] && out[..n] + [] == out[..n];
  }

  /** The body of its loop: the four letters at `i` into the buffer from `j` on. */
  method DecodeQuad(s: string, i: nat, out: array<Byte>, j: nat) returns (k: nat)
    requires i + 4 <= |s| && j + 3 <= out.Length
    modifies out
    ensures j <= k <= j + 3 && out[..k] == old(out[..j]) + Triple(s[i..i + 4])
  {
    hide Value, Triple;
    TripleParts(s, i);
    var w, x, y, z := Value(s[i]), Value(s[i + 1]), Value(s[i + 2]), Value(s[i + 3]);
    k := j;
    out[k] := w * 4 + x / 16;
    k := k + 1;
    if s[i + 2] != '=' {
      out[k] := x % 16 * 16 + y / 4;
      k := k + 1;
    }
    if s[i + 3] != '=' {
      out[k] := y % 4 * 64 + z;
      k := k + 1;
    }
  }

  lemma DecodeNothing()
    ensures Decode([]) == []
  {
  }

  lemma DecodeStep(s: string, i: nat)
    requires i < |s| && i % 4 == 0 && |s| % 4 == 0
    ensures Decode(s[i..]) == Triple(s[i..i + 4]) + Decode(s[i + 4..])
  {
    hide Value;
    var rest := s[i..];
    assert rest[..4] == s[i..i + 4] && rest[4..] == s[i + 4..];
  }

  lemma TripleParts(s: string, i: nat)
    requires i + 4 <= |s|
    ensures
      var w, x, y, z := Value(s[i]), Value(s[i + 1]), Value(s[i + 2]), Value(s[i + 3]);
      Triple(s[i..i + 4]) == [w * 4 + x / 16]
        + (if s[i + 2] != '=' then [x % 16 * 16 + y / 4] else [])
        + (if s[i + 3] != '=' then [y % 4 * 64 + z] else [])
  {
    hide Value;
  }

  // --- the alphabet ------------------------------------------------------------------------------------

  /** Table 1 of RFC 4648. */
  function Alphabet(): (s: string)
    ensures |s| == 64
  {
    "ABCDEFGHIJKLMNOPQRSTUVWXYZ" + "abcdefghijklmnopqrstuvwxyz" + "0123456789" + "+/"
  }

  lemma LetterIs(v: nat)
    requires v < 64
    ensures Letter(v) == Alphabet()[v]
  {
    var upper, lower, digits := "ABCDEFGHIJKLMNOPQRSTUVWXYZ", "abcdefghijklmnopqrstuvwxyz", "0123456789";
    var all := Alphabet();
    if v < 26 {
      assert all[v] == upper[v];
    } else if v < 52 {
      assert all[v] == lower[v - 26];
    } else if v < 62 {
      assert all[v] == digits[v - 52];
    } else {
      assert all[v] == "+/"[v - 62];
    }
  }

  /** Three bytes are a number of 24 bits; its letters stand for six bits each, the highest first, but for the ones that
      none of the first `k` bytes reaches, which are the padding. */
  function Group(a: Byte, b: Byte, c: Byte, k: nat): string {
    var n, letters := (a * 256 + b) * 256 + c, Alphabet();
    [letters[n / 262144 % 64], letters[n / 4096 % 64],
     if k < 2 then '=' else letters[n / 64 % 64], if k < 3 then '=' else letters[n % 64]]
  }

  /** Zeros stand for the bytes that are not there. */
  lemma FirstQuad(bytes: seq<Byte>)
    requires bytes != []
    ensures Encode(bytes) == Group(bytes[0], At(bytes, 1), At(bytes, 2), |bytes|)
                             + if |bytes| <= 3 then [] else Encode(bytes[3..])
  {
    hide Encode, Group, Quad;
    EncodeStep(bytes);
    EncodeNothing();
    var n := if |bytes| < 3 then |bytes| else 3;
    QuadIs(bytes[0], At(bytes, 1), At(bytes, 2), n);
    Three(bytes[0], At(bytes, 1), At(bytes, 2), |bytes|);
    assert |bytes| <= 3 ==> bytes[n..] == [];
  }

  lemma Three(a: Byte, b: Byte, c: Byte, k: nat)
    ensures k >= 3 ==> Group(a, b, c, k) == Group(a, b, c, 3)
  {
    hide Alphabet;
  }

  lemma QuadIs(a: Byte, b: Byte, c: Byte, k: nat)
    requires 1 <= k <= 3
    ensures Quad(a, b, c, k) == Group(a, b, c, k)
  {
    hide Letter, Alphabet;
    LetterIs(a / 4);
    LetterIs(a % 4 * 16 + b / 16);
    LetterIs(b % 16 * 4 + c / 64);
    LetterIs(c % 64);
    SixBits(a, b, c);
  }

  lemma SixBits(a: Byte, b: Byte, c: Byte)
    ensures
      var n := (a * 256 + b) * 256 + c;
      && n / 262144 % 64 == a / 4 && n / 4096 % 64 == a % 4 * 16 + b / 16
      && n / 64 % 64 == b % 16 * 4 + c / 64 && n % 64 == c % 64
  {
    var n := (a * 256 + b) * 256 + c;
    var w, x, y, z := a / 4, a % 4 * 16 + b / 16, b % 16 * 4 + c / 64, c % 64;
    assert a == a / 4 * 4 + a % 4 && b == b / 16 * 16 + b % 16 && c == c / 64 * 64 + c % 64;
    assert n == w * 262144 + x * 4096 + y * 64 + z;
    Sixties(w, x, y, z);
  }

  lemma Sixties(w: nat, x: nat, y: nat, z: nat)
    requires w < 64 && x < 64 && y < 64 && z < 64
    ensures
      var n := w * 262144 + x * 4096 + y * 64 + z;
      n / 262144 % 64 == w && n / 4096 % 64 == x && n / 64 % 64 == y && n % 64 == z
  {
    var n := w * 262144 + x * 4096 + y * 64 + z;
    assert n / 262144 == w && n / 4096 == w * 64 + x && n / 64 == (w * 64 + x) * 64 + y;
  }

  // --- the round trip --------------------------------------------------------------------------------

  lemma LetterRoundTrip(v: nat)
    requires v < 64
    ensures Value(Letter(v)) == v && Letter(v) != '='
  {
  }

  lemma QuadRoundTrip(a: Byte, b: Byte, c: Byte, n: nat)
    requires 1 <= n <= 3 && (n < 2 ==> b == 0) && (n < 3 ==> c == 0)
    ensures Triple(Quad(a, b, c, n)) == [a, b, c][..n]
  {
    hide Letter, Value;
    LetterRoundTrip(a / 4);
    LetterRoundTrip(a % 4 * 16 + b / 16);
    LetterRoundTrip(b % 16 * 4 + c / 64);
    LetterRoundTrip(c % 64);
    PadValue();
    BytesBack(a, b, c);
  }

  /** The six-bit parts of three bytes put together again. */
  lemma BytesBack(a: Byte, b: Byte, c: Byte)
    ensures a / 4 * 4 + (a % 4 * 16 + b / 16) / 16 == a
    ensures (a % 4 * 16 + b / 16) % 16 * 16 + (b % 16 * 4 + c / 64) / 4 == b
    ensures (b % 16 * 4 + c / 64) % 4 * 64 + c % 64 == c
  {
    assert (a % 4 * 16 + b / 16) / 16 == a % 4 && (a % 4 * 16 + b / 16) % 16 == b / 16;
    assert (b % 16 * 4 + c / 64) / 4 == b % 16 && (b % 16 * 4 + c / 64) % 4 == c / 64;
  }

  lemma PadValue()
    ensures Value('=') == 0
  {
  }

  /** Decoding what was encoded gives the bytes back. */
  lemma {:induction false} RoundTrip(bytes: seq<Byte>)
    ensures Decode(Encode(bytes)) == bytes
  {
    hide Quad, Triple;
    if bytes != [] {
      var n := if |bytes| < 3 then |bytes| else 3;
      var a, b, c := bytes[0], At(bytes, 1), At(bytes, 2);
      QuadRoundTrip(a, b, c, n);
      RoundTrip(bytes[n..]);
      var s := Encode(bytes);
      assert s[..4] == Quad(a, b, c, n) && s[4..] == Encode(bytes[n..]);
      assert [a, b, c][..n] == bytes[..n];
      assert bytes == bytes[..n] + bytes[n..];
    }
  }

  /** The padding: two `=` for one byte over a multiple of three, one for two, none otherwise. */
  lemma {:induction false} Padding(bytes: seq<Byte>)
    requires bytes != []
    ensures
      var s := Encode(bytes);
      var pads := if |bytes| % 3 == 0 then 0 else 3 - |bytes| % 3;
      && |s| >= 4
      && (forall k :: 0 <= k < |s| - pads ==> s[k] != '=')
      && (forall k :: |s| - pads <= k < |s| ==> s[k] == '=')
  {
    hide Quad, Encode;
    var n := if |bytes| < 3 then |bytes| else 3;
    var q, rest := Quad(bytes[0], At(bytes, 1), At(bytes, 2), n), Encode(bytes[n..]);
    QuadPadding(bytes[0], At(bytes, 1), At(bytes, 2), n);
    EncodeStep(bytes);
    var s := Encode(bytes);
    assert forall k :: 4 <= k < |s| ==> s[k] == rest[k - 4];
    if |bytes| > 3 {
      Padding(bytes[3..]);
      assert |bytes[3..]| % 3 == |bytes| % 3;
    } else {
      EncodeNothing();
      assert rest == [];
    }
  }

  lemma QuadPadding(a: Byte, b: Byte, c: Byte, n: nat)
    requires 1 <= n <= 3
    ensures
      var q := Quad(a, b, c, n);
      (forall k :: 0 <= k < n + 1 ==> q[k] != '=') && (forall k :: n + 1 <= k < 4 ==> q[k] == '=')
  {
    hide Letter;
    LetterRoundTrip(a / 4);
    LetterRoundTrip(a % 4 * 16 + b / 16);
    LetterRoundTrip(b % 16 * 4 + c / 64);
    LetterRoundTrip(c % 64);
  }
}
