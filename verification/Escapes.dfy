/** What the escapes of djan strings stand for: codes in hexadecimal as UTF-8 (section 3 of RFC 3629), control characters,
    and quotes. */
module Escapes {
  import opened Values
  import opened Djan
  import Cloning

  // --- codes -----------------------------------------------------------------------------------------

  const LOWER := "0123456789abcdef"
  const UPPER := "0123456789ABCDEF"

  /** A hexadecimal digit of either case and its value. */
  predicate Digit16(c: char, v: nat) { v < 16 && (c == LOWER[v] || c == UPPER[v]) }

  predicate IsContinuation(c: char) { 0x80 <= c as int <= 0xBF }

  /** A UTF-8 decoder for one character below 0x10000, which takes the shortest form only. */
  predicate Utf8(b: string, u: nat) {
    if |b| == 1 then b[0] as int < 0x80 && b[0] as int == u
    else if |b| == 2 then
      && 0xC0 <= b[0] as int <= 0xDF && IsContinuation(b[1])
      && (b[0] as int - 0xC0) * 64 + (b[1] as int - 0x80) == u >= 0x80
    else if |b| == 3 then
      && 0xE0 <= b[0] as int <= 0xEF && IsContinuation(b[1]) && IsContinuation(b[2])
      && (b[0] as int - 0xE0) * 4096 + (b[1] as int - 0x80) * 64 + (b[2] as int - 0x80) == u >= 0x800
    else false
  }

  /** Four hexadecimal digits and their number. */
  ghost predicate Code(ds: string, u: nat) {
    |ds| == 4 && exists a: nat, b: nat, c: nat, d: nat ::
      Digit16(ds[0], a) && Digit16(ds[1], b) && Digit16(ds[2], c) && Digit16(ds[3], d)
      && u == a * 4096 + b * 256 + c * 16 + d
  }

  lemma DigitReads(c: char, v: nat)
    requires Digit16(c, v)
    ensures IsHexDigit(c)
    ensures
      v == if IsDigit(c) then DigitValue(c) else if c <= 'F' then c as int - 'A' as int + 10 else c as int - 'a' as int + 10
  {
  }

  lemma {:induction false} HexMore(s: string, c: char, v: nat)
    requires (forall i :: 0 <= i < |s| ==> IsHexDigit(s[i])) && Digit16(c, v)
    ensures (forall i :: 0 <= i < |s + [c]| ==> IsHexDigit((s + [c])[i])) && HexValue(s + [c]) == 16 * HexValue(s) + v
  {
    DigitReads(c, v);
    assert (s + [c])[..|s|] == s;
  }

  lemma CodeValue(ds: string, u: nat)
    requires Code(ds, u)
    ensures |ds| == 4 && (forall i :: 0 <= i < 4 ==> IsHexDigit(ds[i])) && HexValue(ds) == u < 0x1_0000
  {
    hide HexValue, Digit16, IsHexDigit;
    var a: nat, b: nat, c: nat, d: nat :| Digit16(ds[0], a) && Digit16(ds[1], b) && Digit16(ds[2], c) && Digit16(ds[3], d)
      && u == a * 4096 + b * 256 + c * 16 + d;
    Below16(ds[0], a);
    Below16(ds[1], b);
    Below16(ds[2], c);
    Below16(ds[3], d);
    NoDigits();
    HexMore([], ds[0], a);
    assert [] + [ds[0]] == [ds[0]];
    HexMore([ds[0]], ds[1], b);
    HexMore([ds[0]] + [ds[1]], ds[2], c);
    HexMore([ds[0]] + [ds[1]] + [ds[2]], ds[3], d);
    assert ds == [ds[0]] + [ds[1]] + [ds[2]] + [ds[3]];
  }

  lemma Below16(c: char, v: nat)
    requires Digit16(c, v)
    ensures v < 16
  {
  }

  lemma NoDigits()
    ensures HexValue([]) == 0
  {
  }

  lemma BytesDecode(u: nat)
    requires u < 0x1_0000
    ensures Utf8(Bytes(u), u)
  {
    Sextets(u);
  }

  lemma Sextets(u: nat)
    requires u < 0x1_0000
    ensures u / 4096 % 16 * 4096 + u / 64 % 64 * 64 + u % 64 == u
    ensures u < 0x800 ==> u / 64 < 32 && u / 64 * 64 + u % 64 == u
  {
    assert u / 4096 < 16 && u / 64 == u / 4096 * 64 + u / 64 % 64;
  }

  /** What is read for `\u` and four hexadecimal digits, of either case, is the UTF-8 of their number. */
  lemma CodeReads(ds: string, u: nat, rest: string)
    requires Code(ds, u)
    ensures
      var b := Unescape("\\u" + ds);
      Utf8(b, u) && Unescape("\\u" + ds + rest) == b + Unescape(rest)
  {
    hide Bytes, HexValue, Code, Utf8;
    CodeValue(ds, u);
    BytesDecode(u);
    CodeSplits(ds, rest);
    CodeSplits(ds, []);
    NothingUnescapes();
    assert "\\u" + ds + [] == "\\u" + ds;
    assert Bytes(HexValue(ds)) + [] == Bytes(HexValue(ds));
  }

  lemma CodeSplits(ds: string, rest: string)
    requires |ds| == 4 && forall i :: 0 <= i < 4 ==> IsHexDigit(ds[i])
    ensures Unescape("\\u" + ds + rest) == Bytes(HexValue(ds)) + Unescape(rest)
  {
    hide Bytes, HexValue, Unescape;
    var t := "\\u" + ds + rest;
    assert t[2..6] == ds && t[6..] == rest && t[0] == '\\' && t[1] == 'u';
    assert forall i :: 2 <= i < 6 ==> t[i] == ds[i - 2];
    UnescapeCode(t);
  }

  /** The text of a string that is one such escape. */
  lemma CodeText(ds: string, u: nat)
    requires Code(ds, u)
    ensures
      var v := Parse("\"\\u" + ds + "\"");
      v.Some? && v.value.Str? && Utf8(v.value.s, u)
  {
    hide Bytes, HexValue, Code, Utf8, Unescape, Quoted, ReadValue, StrBody, StrElement;
    CodeValue(ds, u);
    CodeReads(ds, u, []);
    var body, t := "\\u" + ds, "\"\\u" + ds + "\"";
    assert t == "\"" + body + "\"" && t[0] == '"';
    CodeBody(ds);
    Cloning.WholeBody(body);
    TextIs(t, body);
  }

  lemma CodeBody(ds: string)
    requires |ds| == 4 && forall i :: 0 <= i < 4 ==> IsHexDigit(ds[i])
    ensures StrBody("\\u" + ds + "\"", '"') == 6
  {
    var t := "\\u" + ds + "\"";
    assert t[0] == '\\' && t[1] == 'u' && forall i :: 2 <= i < 6 ==> t[i] == ds[i - 2];
    assert t[6..] == "\"" && StrBody("\"", '"') == 0;
    assert StrElement(t, '"') == 6;
  }

  /** A whole text that is one string. */
  lemma TextIs(t: string, body: string)
    requires t != [] && t[0] == '"' && Quoted(t, '"') == Got(body, [])
    ensures Parse(t) == Some(Str(Unescape(body)))
  {
    hide Quoted, Unescape, SqUnescape, NumberLength, ReadItems, ReadEntries, Postval;
    PostvalStays(t);
    PostvalStays([]);
    Cloning.QuoteOnly(t);
    assert ReadOther(t) == Got(Str(Unescape(body)), []);
    assert ReadValue(t) == ReadOther(t);
  }

  // --- letters ------------------------------------------------------------------------------------------

  /** The letters behind a backslash, and the codes of their characters. */
  const LETTERS: seq<(char, int)> := [('b', 8), ('t', 9), ('n', 10), ('f', 12), ('r', 13), ('"', 34), ('\\', 92)]

  /** Each of these is read as its character, and any other but `u` is left with its backslash. */
  lemma LettersRead(c: char, rest: string)
    requires c != 'u'
    ensures forall k :: 0 <= k < |LETTERS| && LETTERS[k].0 == c ==>
      Unescape(['\\', c] + rest) == [LETTERS[k].1 as char] + Unescape(rest)
    ensures (forall k :: 0 <= k < |LETTERS| ==> LETTERS[k].0 != c) ==>
      Unescape(['\\', c] + rest) == ['\\', c] + Unescape(rest)
  {
    var s := ['\\', c] + rest;
    assert s[2..] == rest;
    hide Unescape;
    UnescapePlain(s);
    assert LETTERS[0].0 == 'b' && LETTERS[1].0 == 't' && LETTERS[2].0 == 'n' && LETTERS[3].0 == 'f';
    assert LETTERS[4].0 == 'r' && LETTERS[5].0 == '"' && LETTERS[6].0 == '\\';
  }

  /** Printing writes these seven with a backslash and their letter, and any other character as it is. */
  lemma LettersWritten(c: char)
    ensures forall k :: 0 <= k < |LETTERS| && LETTERS[k].1 == c as int ==> EscapeChar(c) == ['\\', LETTERS[k].0]
    ensures (forall k :: 0 <= k < |LETTERS| ==> LETTERS[k].1 != c as int) ==> EscapeChar(c) == [c]
  {
    assert LETTERS[0].1 == 8 && LETTERS[1].1 == 9 && LETTERS[2].1 == 10 && LETTERS[3].1 == 12;
    assert LETTERS[4].1 == 13 && LETTERS[5].1 == 34 && LETTERS[6].1 == 92;
  }

  // --- single quotes --------------------------------------------------------------------------------------

  /** A text as it can be written between single quotes. */
  function SqChar(c: char): string { if c == '\'' then "\\'" else if c == '"' then "\"" else EscapeChar(c) }

  function SqEscape(s: string): string {
    if s == [] then [] else SqChar(s[0]) + SqEscape(s[1..])
  }

  /** What fdja_sq_unescape has half way. */
  function Half(s: string): string {
    if s == [] then [] else (if s[0] == '\'' then "\\'" else [s[0]]) + Half(s[1..])
  }

  lemma SqElement(c: char, post: string)
    requires c != NUL
    ensures StrElement(SqChar(c) + post, '\'') == |SqChar(c)|
    ensures Unescape(SqChar(c) + post) == (if c == '\'' then "\\'" else [c]) + Unescape(post)
  {
    hide Unescape;
    var e := SqChar(c);
    var s := e + post;
    UnescapePlain(s);
    if |e| == 1 {
      assert s[0] == e[0] == c && s[1..] == post;
    } else {
      assert s[0] == '\\' && s[1] == e[1] && s[2..] == post;
    }
  }

  lemma {:induction false} SqBody(s: string, post: string)
    requires NoNul(s) && post != [] && post[0] == '\''
    ensures StrBody(SqEscape(s) + post, '\'') == |SqEscape(s)| && Unescape(SqEscape(s)) == Half(s)
  {
    hide StrElement, Unescape, SqChar;
    if s == [] {
      assert [] + post == post;
      NothingUnescapes();
      SingleEnds(post);
    } else {
      var e, rest := SqChar(s[0]), SqEscape(s[1..]);
      SqElement(s[0], rest + post);
      SqElement(s[0], rest);
      SqBody(s[1..], post);
      assert SqEscape(s) + post == e + (rest + post);
      assert (e + (rest + post))[|e|..] == rest + post;
      assert s == [s[0]] + s[1..];
      assert |e| > 0 by { SomeChar(s[0]); }
    }
  }

  lemma SomeChar(c: char)
    ensures |SqChar(c)| > 0
  {
  }

  lemma SingleEnds(t: string)
    requires t != [] && t[0] == '\''
    ensures StrElement(t, '\'') == 0
  {
  }

  lemma {:induction false} HalfUnquotes(s: string)
    ensures Unquote(Half(s)) == s && (s == [] || Half(s)[0] != '\'')
  {
    if s != [] {
      HalfUnquotes(s[1..]);
      var h, rest := Half(s), Half(s[1..]);
      if s[0] == '\'' {
        assert h == "\\'" + rest && h[2..] == rest;
      } else {
        assert h == [s[0]] + rest && h[1..] == rest;
        if s[1..] == [] { assert rest == []; }
      }
      assert s == [s[0]] + s[1..];
    }
  }

  /** Any text without NUL, written between single quotes, is read as that text, and nothing behind it is taken. */
  lemma SqRoundTrip(s: string, post: string)
    requires NoNul(s)
    ensures ReadOther("'" + SqEscape(s) + "'" + post) == Got(Str(s), post)
  {
    hide StrBody, StrElement, SqEscape, Unescape, Unquote, ReadItems, ReadEntries;
    var t, tail := "'" + SqEscape(s) + "'" + post, "'" + post;
    SqBody(s, tail);
    HalfUnquotes(s);
    assert t[0] == '\'' && t[1..] == SqEscape(s) + tail;
    assert t[1..][|SqEscape(s)|..] == tail && tail[1..] == post && t[1..][..|SqEscape(s)|] == SqEscape(s);
  }

  /** As a key it is not: the backslash before each single quote stays. */
  lemma SqKeyKeeps(s: string, post: string)
    requires NoNul(s)
    ensures ReadKey("'" + SqEscape(s) + "'" + post) == Got(Half(s), post)
    ensures Half(s) == s <==> '\'' !in s
  {
    hide StrBody, StrElement, SqEscape, Unescape, Half;
    var t, tail := "'" + SqEscape(s) + "'" + post, "'" + post;
    SqBody(s, tail);
    HalfLength(s);
    assert t[0] == '\'' && t[1..] == SqEscape(s) + tail;
    assert t[1..][|SqEscape(s)|..] == tail && tail[1..] == post && t[1..][..|SqEscape(s)|] == SqEscape(s);
  }

  lemma {:induction false} HalfLength(s: string)
    ensures if '\'' in s then |Half(s)| > |s| else Half(s) == s
  {
    if s != [] {
      HalfLength(s[1..]);
      assert s == [s[0]] + s[1..];
    }
  }
}
