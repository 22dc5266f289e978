/** The djan parser on whole texts, its grammar followed rule by rule, and the round trip through JSON that the
    engine relies on to clone values. A text is what is left of the input, up to its NUL. */
module Djan {
  import opened Values

  datatype Parsed<+T> = Fail | Got(v: T, rest: string)

  const NUL := 0 as char

  // --- blanks and comments -----------------------------------------------------------------------------

  function SkipBlanks(t: string): (r: string)
    ensures |r| <= |t|
  {
    if t != [] && (t[0] == ' ' || t[0] == '\t') then SkipBlanks(t[1..]) else t
  }

  function SkipLine(t: string): (r: string)
    ensures |r| <= |t|
  {
    if t != [] && t[0] != '\r' && t[0] != '\n' then SkipLine(t[1..]) else t
  }

  function SkipComment(t: string): (r: string)
    ensures |r| <= |t|
  {
    if "#" <= t || "//" <= t then SkipLine(t) else t
  }

  function SkipEnds(t: string): (r: string)
    ensures |r| <= |t|
  {
    if t != [] && (t[0] == '\r' || t[0] == '\n') then SkipEnds(t[1..]) else t
  }

  /** _eol, as often as it makes progress. */
  function Postval(t: string): (r: string)
    ensures |r| <= |t|
    decreases |t|
  {
    var r := SkipEnds(SkipComment(SkipBlanks(t)));
    if |r| == |t| then r else Postval(r)
  }

  // --- strings -----------------------------------------------------------------------------------------

  const CONTROLS := [BS, FF, '\n', '\r', '\t', NUL]

  predicate IsHexDigit(c: char) { '0' <= c <= '9' || 'a' <= c <= 'f' || 'A' <= c <= 'F' }

  /** The length of one element of a string between quotes `q`; 0 when there is none. */
  function StrElement(t: string, q: char): (n: nat)
    ensures n <= |t|
  {
    if t == [] then 0
    else if t[0] == '\\' then
      if |t| > 1 && t[1] in [q, '/', '\\', 'b', 'f', 'n', 'r', 't'] then 2
      else if |t| >= 6 && t[1] == 'u' && (forall i :: 2 <= i < 6 ==> IsHexDigit(t[i])) then 6
      else 0
    else if t[0] == q || t[0] in CONTROLS then 0
    else 1
  }

  function StrBody(t: string, q: char): (n: nat)
    ensures n <= |t|
    decreases |t|
  {
    var n := StrElement(t, q);
    if n == 0 then 0 else n + StrBody(t[n..], q)
  }

  /** _string and _sqstring: what is between the quotes. */
  function Quoted(t: string, q: char): (r: Parsed<string>)
    ensures r.Got? ==> |r.rest| < |t|
  {
    if t == [] || t[0] != q then Fail else
    var n := StrBody(t[1..], q);
    var rest := t[1..][n..];
    if rest == [] || rest[0] != q then Fail else Got(t[1..][..n], rest[1..])
  }

  function HexValue(s: string): nat
    requires forall i :: 0 <= i < |s| ==> IsHexDigit(s[i])
  {
    if s == [] then 0 else
    var c := s[|s| - 1];
    assert IsHexDigit(c);
    var d := if IsDigit(c) then DigitValue(c) else if c <= 'F' then c as int - 'A' as int + 10 else c as int - 'a' as int + 10;
    assert d >= 0;
    16 * HexValue(s[..|s| - 1]) + d
  }

  /** The bytes of a code point of four digits. */
  function Bytes(u: nat): string {
    if u < 0x80 then [u as char]
    else if u < 0x800 then [(u / 64 + 0xc0) as char, (u % 64 + 0x80) as char]
    else [(u / 4096 % 16 + 0xe0) as char, (u / 64 % 64 + 0x80) as char, (u % 64 + 0x80) as char]
  }

  function Unescaped(c: char): string {
    if c == '\\' then ['\\'] else if c == '"' then ['"'] else if c == 'b' then [BS] else if c == 'f' then [FF]
    else if c == 'n' then ['\n'] else if c == 'r' then ['\r'] else if c == 't' then ['\t'] else ['\\', c]
  }

  /** flu_n_unescape. */
  function Unescape(s: string): string
    decreases |s|
  {
    if s == [] then []
    else if s[0] != '\\' || |s| == 1 then [s[0]] + Unescape(s[1..])
    else if s[1] == 'u' && |s| >= 6 && (forall i :: 2 <= i < 6 ==> IsHexDigit(s[i])) then
      Bytes(HexValue(s[2..6])) + Unescape(s[6..])
    else Unescaped(s[1]) + Unescape(s[2..])
  }

  /** fdja_sq_unescape. */
  function SqUnescape(s: string): string {
    Unquote(Unescape(s))
  }

  function Unquote(s: string): string
    decreases |s|
  {
    if s == [] then []
    else if s[0] == '\\' && |s| > 1 && s[1] == '\'' then ['\''] + Unquote(s[2..])
    else [s[0]] + Unquote(s[1..])
  }

  // --- numbers and symbols -----------------------------------------------------------------------------

  function Digits(t: string): (n: nat)
    ensures n <= |t|
  {
    if t != [] && IsDigit(t[0]) then 1 + Digits(t[1..]) else 0
  }

  /** The length of `(\.[0-9]+)?`. */
  function Fraction(t: string): (n: nat)
    ensures n <= |t|
  {
    if t != [] && t[0] == '.' && Digits(t[1..]) > 0 then 1 + Digits(t[1..]) else 0
  }

  /** The length of `([eE][+-]?[0-9]+)?`. */
  function Exponent(t: string): (n: nat)
    ensures n <= |t|
  {
    if t == [] || (t[0] != 'e' && t[0] != 'E') then 0 else
    var sign := if |t| > 1 && (t[1] == '+' || t[1] == '-') then 1 else 0;
    var digits := Digits(t[1 + sign..]);
    if digits > 0 then 1 + sign + digits else 0
  }

  /** _number; 0 when there is none. */
  function NumberLength(t: string): (n: nat)
    ensures n <= |t|
  {
    var sign := if t != [] && t[0] == '-' then 1 else 0;
    var digits := Digits(t[sign..]);
    if digits == 0 then 0 else
    var a := sign + digits;
    var b := a + Fraction(t[a..]);
    b + Exponent(t[b..])
  }

  predicate IsCore(c: char) {
    c !in [':', ' ', BS, FF, '\n', '\r', '\t', '"', '\'', ',', '(', ')', '[', ']', '{', '}', '#', '\\', NUL]
  }

  function Core(t: string): (n: nat)
    ensures n <= |t|
  {
    if t != [] && IsCore(t[0]) then 1 + Core(t[1..]) else 0
  }

  function DolName(t: string): (n: nat)
    ensures n <= |t|
  {
    if t != [] && t[0] !in [' ', '\r', '\n', '\t', ')', NUL] then 1 + DolName(t[1..]) else 0
  }

  /** _symelt, or _symeltk without the colon; 0 when there is none. */
  function SymElement(t: string, colon: bool): (n: nat)
    ensures n <= |t|
  {
    var name := if "$(" <= t then DolName(t[2..]) else 0;
    if name > 0 && |t| > 2 + name && t[2 + name] == ')' then 3 + name
    else if Core(t) > 0 then Core(t)
    else if colon && t != [] && t[0] == ':' then 1
    else 0
  }

  /** _symbol, or _symbolk; 0 when there is none. */
  function SymbolLength(t: string, colon: bool): (n: nat)
    ensures n <= |t|
    decreases |t|
  {
    var n := SymElement(t, colon);
    if n == 0 then 0 else n + SymbolLength(t[n..], colon)
  }

  // --- values ------------------------------------------------------------------------------------------

  /** _value: the longest of a symbol and of anything else, which wins when they are as long. */
  function ReadValue(t: string): (r: Parsed<Value>)
    ensures r.Got? ==> |r.rest| < |t|
    decreases |t|, 3
  {
    var n := SymbolLength(t, true);
    var r := ReadOther(t);
    if r.Got? && |t| - |r.rest| >= n then r
    else if n > 0 then Got(Str(t[..n]), t[n..])
    else Fail
  }

  /** _v: the first alternative that matches. */
  function ReadOther(t: string): (r: Parsed<Value>)
    ensures r.Got? ==> |r.rest| < |t|
    decreases |t|, 2
  {
    var s, q, n := Quoted(t, '"'), Quoted(t, '\''), NumberLength(t);
    if s.Got? then Got(Str(Unescape(s.v)), s.rest)
    else if q.Got? then Got(Str(SqUnescape(q.v)), q.rest)
    else if n > 0 then Got(Num(t[..n]), t[n..])
    else if "{" <= t then
      var (es, rest) := ReadEntries(t[1..]);
      if "}" <= rest then Got(Obj(es), rest[1..]) else Fail
    else if "[" <= t then
      var (vs, rest) := ReadItems(t[1..]);
      if "]" <= rest then Got(Arr(vs), rest[1..]) else Fail
    else if "true" <= t then Got(Bool(true), t[4..])
    else if "false" <= t then Got(Bool(false), t[5..])
    else if "null" <= t then Got(Null, t[4..])
    else Fail
  }

  function Sep(t: string): (r: string)
    ensures |r| <= |t|
  {
    Postval(if "," <= t then t[1..] else t)
  }

  /** The elements of an array: an optional value, then separators and optional values for as long as one of the
      two takes something. */
  function ReadItems(t: string): (r: (seq<Value>, string))
    ensures |r.1| <= |t|
    decreases |t|, 5
  {
    match ReadValue(t)
    case Got(v, rest) => var (vs, end) := MoreItems(Postval(rest)); ([v] + vs, end)
    case Fail => MoreItems(t)
  }

  function MoreItems(t: string): (r: (seq<Value>, string))
    ensures |r.1| <= |t|
    decreases |t|, 4
  {
    var u := Sep(t);
    match ReadValue(u)
    case Got(v, rest) => var (vs, end) := MoreItems(Postval(rest)); ([v] + vs, end)
    case Fail => if |u| == |t| then ([], t) else MoreItems(u)
  }

  function ReadKey(t: string): (r: Parsed<string>)
    ensures r.Got? ==> |r.rest| < |t|
  {
    var s, q, n := Quoted(t, '"'), Quoted(t, '\''), SymbolLength(t, false);
    if s.Got? then Got(Unescape(s.v), s.rest)
    else if q.Got? then Got(Unescape(q.v), q.rest)
    else if n > 0 then Got(t[..n], t[n..])
    else Fail
  }

  function ReadEntry(t: string): (r: Parsed<(string, Value)>)
    ensures r.Got? ==> |r.rest| < |t|
    decreases |t|, 3
  {
    var k := ReadKey(t);
    if k.Fail? then Fail else
    var colon := Postval(k.rest);
    if !(":" <= colon) then Fail else
    match ReadValue(Postval(colon[1..]))
    case Got(v, rest) => Got((k.v, v), Postval(rest))
    case Fail => Fail
  }

  function ReadEntries(t: string): (r: (seq<(string, Value)>, string))
    ensures |r.1| <= |t|
    decreases |t|, 5
  {
    match ReadEntry(t)
    case Got(e, rest) => var (es, end) := MoreEntries(rest); ([e] + es, end)
    case Fail => MoreEntries(t)
  }

  function MoreEntries(t: string): (r: (seq<(string, Value)>, string))
    ensures |r.1| <= |t|
    decreases |t|, 4
  {
    var u := Sep(t);
    match ReadEntry(u)
    case Got(e, rest) => var (es, end) := MoreEntries(rest); ([e] + es, end)
    case Fail => if |u| == |t| then ([], t) else MoreEntries(u)
  }

  /** fdja_parse: the whole text is one value. */
  function Parse(t: string): Option<Value> {
    match ReadValue(Postval(t))
    case Got(v, rest) => if Postval(rest) == [] then Some(v) else None
    case Fail => None
  }

  // --- reading back what is printed --------------------------------------------------------------------

  /** What may follow a printed value. */
  predicate Stops(post: string) { post == [] || post[0] == ',' || post[0] == ']' || post[0] == '}' }

  predicate NoNul(s: string) { NUL !in s }

  /** An escaped character is one element of a string, and unescapes to the character. */
  lemma CharRoundTrip(c: char, post: string)
    requires c != NUL
    ensures StrElement(EscapeChar(c) + post, '"') == |EscapeChar(c)|
    ensures Unescape(EscapeChar(c) + post) == [c] + Unescape(post)
  {
    var e := EscapeChar(c);
    var s := e + post;
    if |e| == 1 {
      assert s[0] == c && s[1..] == post;
    } else {
      assert s[0] == '\\' && s[1] == e[1] && s[2..] == post;
    }
  }

  lemma {:induction false} EscapedBody(s: string, post: string)
    requires NoNul(s) && post != [] && post[0] == '"'
    ensures StrBody(Escape(s) + post, '"') == |Escape(s)|
    ensures Unescape(Escape(s)) == s
  {
    hide StrElement, Unescape, EscapeChar;
    if s == [] {
      assert [] + post == post;
      QuoteEnds(post);
      NothingUnescapes();
    } else {
      var e, rest := EscapeChar(s[0]), Escape(s[1..]);
      CharRoundTrip(s[0], rest + post);
      CharRoundTrip(s[0], rest);
      EscapedBody(s[1..], post);
      assert Escape(s) + post == e + (rest + post);
      assert (e + (rest + post))[|e|..] == rest + post;
      assert s == [s[0]] + s[1..];
      SomeEscape(s[0]);
    }
  }

  lemma QuoteEnds(post: string)
    requires post != [] && post[0] == '"'
    ensures StrElement(post, '"') == 0
  {
  }

  lemma SomeEscape(c: char)
    ensures |EscapeChar(c)| > 0
  {
  }

  /** Any NUL-free string comes back from escape, quotes, the parser and unescape. */
  lemma StringRoundTrip(s: string, post: string)
    requires NoNul(s)
    ensures Quoted("\"" + Escape(s) + "\"" + post, '"') == Got(Escape(s), post)
    ensures Unescape(Escape(s)) == s
  {
    hide StrBody, StrElement, Escape, Unescape;
    var t := "\"" + Escape(s) + "\"" + post;
    var tail := "\"" + post;
    EscapedBody(s, tail);
    assert t[1..] == Escape(s) + tail;
    assert t[1..][|Escape(s)|..] == tail && tail[1..] == post && t[1..][..|Escape(s)|] == Escape(s);
  }

  /** A number as the grammar has it, to its last character. */
  predicate IsNumber(text: string) { text != [] && NumberLength(text) == |text| }

  lemma {:induction false} DigitsPrefix(t: string, post: string)
    requires post == [] || !IsDigit(post[0])
    ensures Digits(t + post) == Digits(t)
  {
    if t == [] {
      assert t + post == post;
    } else {
      assert (t + post)[1..] == t[1..] + post;
      DigitsPrefix(t[1..], post);
    }
  }

  lemma NumberPrefix(t: string, post: string)
    requires Stops(post) && IsNumber(t)
    ensures NumberLength(t + post) == NumberLength(t)
  {
    hide Digits, Fraction, Exponent;
    var s := t + post;
    var sign := if t[0] == '-' then 1 else 0;
    assert s[sign..] == t[sign..] + post;
    DigitsPrefix(t[sign..], post);
    var a := sign + Digits(t[sign..]);
    assert s[a..] == t[a..] + post;
    FractionPrefix(t[a..], post);
    var b := a + Fraction(t[a..]);
    assert s[b..] == t[b..] + post;
    ExponentPrefix(t[b..], post);
  }

  lemma FractionPrefix(t: string, post: string)
    requires Stops(post)
    ensures Fraction(t + post) == Fraction(t)
  {
    if t == [] {
      assert t + post == post;
    } else {
      assert (t + post)[1..] == t[1..] + post;
      DigitsPrefix(t[1..], post);
    }
  }

  lemma ExponentPrefix(t: string, post: string)
    requires Stops(post)
    ensures Exponent(t + post) == Exponent(t)
  {
    if t == [] {
      assert t + post == post;
    } else if t[0] == 'e' || t[0] == 'E' {
      var s := t + post;
      if |t| == 1 {
        assert s[1..] == post && t[1..] == [] && Digits(post) == 0;
      } else {
        var sign := if t[1] == '+' || t[1] == '-' then 1 else 0;
        assert s[1 + sign..] == t[1 + sign..] + post;
        DigitsPrefix(t[1 + sign..], post);
      }
    }
  }

  lemma {:induction false} DigitsAreCore(t: string, n: nat)
    requires n <= Digits(t)
    ensures forall i :: 0 <= i < n ==> IsDigit(t[i])
  {
    if n > 0 {
      DigitsAreCore(t[1..], n - 1);
    }
  }

  predicate Word(t: string) { forall i :: 0 <= i < |t| ==> IsCore(t[i]) && t[i] != '$' }

  lemma FractionIsCore(t: string)
    ensures Word(t[..Fraction(t)])
  {
    if Fraction(t) > 0 {
      DigitsAreCore(t[1..], Digits(t[1..]));
      forall i | 0 < i < Fraction(t) ensures IsDigit(t[i]) {
        assert t[i] == t[1..][i - 1];
      }
    }
  }

  lemma ExponentIsCore(t: string)
    ensures Word(t[..Exponent(t)])
  {
    hide Digits;
    if Exponent(t) > 0 {
      var sign := if |t| > 1 && (t[1] == '+' || t[1] == '-') then 1 else 0;
      var digits := t[1 + sign..];
      DigitsAreCore(digits, Digits(digits));
      forall i | sign < i < Exponent(t) ensures IsDigit(t[i]) {
        assert t[i] == digits[i - 1 - sign];
      }
    }
  }

  lemma NumberIsCore(t: string)
    requires IsNumber(t)
    ensures Word(t)
  {
    hide Digits, Fraction, Exponent;
    var sign := if t[0] == '-' then 1 else 0;
    var digits := Digits(t[sign..]);
    var a := sign + digits;
    var b := a + Fraction(t[a..]);
    DigitsAreCore(t[sign..], digits);
    FractionIsCore(t[a..]);
    ExponentIsCore(t[b..]);
    forall i | 0 <= i < |t| ensures IsCore(t[i]) && t[i] != '$' {
      if i >= b {
        assert t[i] == t[b..][..Exponent(t[b..])][i - b];
      } else if i >= a {
        assert t[i] == t[a..][..Fraction(t[a..])][i - a];
      } else if i >= sign {
        assert t[i] == t[sign..][i - sign];
      }
    }
  }

  lemma {:induction false} CorePrefix(t: string, post: string)
    requires Stops(post) && forall i :: 0 <= i < |t| ==> IsCore(t[i])
    ensures Core(t + post) == |t|
  {
    if t == [] {
      assert t + post == post;
    } else {
      assert (t + post)[1..] == t[1..] + post;
      CorePrefix(t[1..], post);
    }
  }

  /** A symbol stops where a bare word does. */
  lemma WordIsSymbol(t: string, post: string)
    requires t != [] && Stops(post) && Word(t)
    ensures SymbolLength(t + post, true) == |t|
  {
    CorePrefix(t, post);
    CorePrefix([], post);
    assert [] + post == post;
    assert (t + post)[|t|..] == post;
    assert (t + post)[0] == t[0] != '$';
    assert SymElement(post, true) == 0;
  }

  /** What values are made of: numbers of the grammar, and texts without NUL. */
  predicate Storable(v: Value)
    decreases v, 0
  {
    match v
    case Num(text) => IsNumber(text)
    case Str(s) => NoNul(s)
    case Arr(items) => forall i :: 0 <= i < |items| ==> Storable(items[i])
    case Obj(entries) => forall i :: 0 <= i < |entries| ==> NoNul(entries[i].0) && Storable(entries[i].1)
    case _ => true
  }

  /** What can be printed and read back: keys are printed as they are, and must need no escape. */
  predicate Printable(v: Value)
    decreases v, 0
  {
    match v
    case Num(text) => IsNumber(text)
    case Str(s) => NoNul(s)
    case Arr(items) => forall i :: 0 <= i < |items| ==> Printable(items[i])
    case Obj(entries) => forall i :: 0 <= i < |entries| ==> PlainKey(entries[i].0) && Printable(entries[i].1)
    case _ => true
  }

  /** No quote, no control, and no backslash but in `\\/`, which stands for itself. */
  predicate PlainKey(k: string) {
    k == []
    || if k[0] == '\\' then |k| > 1 && k[1] == '/' && PlainKey(k[2..])
       else k[0] != '"' && k[0] !in CONTROLS && PlainKey(k[1..])
  }

  lemma {:induction false} UnescapeShrinks(s: string)
    ensures |Unescape(s)| <= |s|
    decreases |s|
  {
    hide HexValue;
    if s == [] {
    } else if s[0] != '\\' || |s| == 1 {
      UnescapeShrinks(s[1..]);
    } else if s[1] == 'u' && |s| >= 6 && (forall i :: 2 <= i < 6 ==> IsHexDigit(s[i])) {
      UnescapeShrinks(s[6..]);
    } else {
      UnescapeShrinks(s[2..]);
    }
  }

  /** A key between quotes is read as itself exactly when it is plain. */
  lemma {:induction false} KeyReads(k: string, post: string)
    requires post != [] && post[0] == '"'
    ensures PlainKey(k) <==> StrBody(k + post, '"') == |k| && Unescape(k) == k
    decreases |k|
  {
    hide StrElement, Unescape, StrBody, PlainKey;
    var t := k + post;
    KeyElement(k, post);
    KeyStep(k);
    var n := StrElement(t, '"');
    BodyIs(t);
    if k != [] && n > 0 && n <= |k| {
      assert t[n..] == k[n..] + post;
      KeyReads(k[n..], post);
      UnescapeShrinks(k[n..]);
      assert k == k[..n] + k[n..];
    }
  }

  lemma BodyIs(t: string)
    ensures StrBody(t, '"') == var n := StrElement(t, '"'); if n == 0 then 0 else n + StrBody(t[n..], '"')
  {
    hide StrElement;
  }

  /** The first element of a key and of the quote that ends it. */
  lemma KeyElement(k: string, post: string)
    requires post != [] && post[0] == '"'
    ensures
      var n := StrElement(k + post, '"');
      if k == [] then n == 0
      else if k[0] != '\\' then n == if k[0] == '"' || k[0] in CONTROLS then 0 else 1
      else if |k| == 1 then n == 2
      else if k[1] in ['"', '/', '\\', 'b', 'f', 'n', 'r', 't'] then n == 2
      else if k[1] == 'u' && |k| >= 6 && (forall i :: 2 <= i < 6 ==> IsHexDigit(k[i])) then n == 6
      else n == 0
  {
    var t := k + post;
    assert forall i :: 0 <= i < |k| ==> t[i] == k[i];
    assert t[|k|] == '"';
    if |k| > 1 && k[0] == '\\' && k[1] == 'u' && |k| < 6 { assert !IsHexDigit(t[|k|]); }
  }

  /** One element of a key: how long its text is once unescaped, and when it is the same. */
  lemma KeyStep(k: string)
    ensures PlainKey([]) && Unescape([]) == []
    ensures k != [] && k[0] != '\\' ==>
      Unescape(k) == [k[0]] + Unescape(k[1..]) && (PlainKey(k) <==> k[0] != '"' && k[0] !in CONTROLS && PlainKey(k[1..]))
    ensures |k| > 0 && k[0] == '\\' && (|k| == 1 || k[1] != '/') ==> !PlainKey(k)
    ensures |k| > 1 && k[0] == '\\' && k[1] == '/' ==>
      Unescape(k) == k[..2] + Unescape(k[2..]) && (PlainKey(k) <==> PlainKey(k[2..]))
    ensures |k| > 1 && k[0] == '\\' && k[1] in ['"', '\\', 'b', 'f', 'n', 'r', 't'] ==>
      |Unescape(k)| == 1 + |Unescape(k[2..])|
    ensures |k| >= 6 && k[0] == '\\' && k[1] == 'u' && (forall i :: 2 <= i < 6 ==> IsHexDigit(k[i])) ==>
      |Unescape(k)| <= 3 + |Unescape(k[6..])|
  {
    hide HexValue, PlainKey, Unescape;
    NothingUnescapes();
    PlainStep(k);
    PlainStep([]);
    if k != [] { UnescapeStep(k); }
  }

  lemma PlainStep(k: string)
    ensures k == [] ==> PlainKey(k)
    ensures k != [] && k[0] != '\\' ==> (PlainKey(k) <==> k[0] != '"' && k[0] !in CONTROLS && PlainKey(k[1..]))
    ensures |k| > 0 && k[0] == '\\' && (|k| == 1 || k[1] != '/') ==> !PlainKey(k)
    ensures |k| > 1 && k[0] == '\\' && k[1] == '/' ==> (PlainKey(k) <==> PlainKey(k[2..]))
  {
  }

  lemma UnescapeStep(k: string)
    requires k != []
    ensures k[0] != '\\' ==> Unescape(k) == [k[0]] + Unescape(k[1..])
    ensures |k| > 1 && k[0] == '\\' && k[1] == '/' ==> Unescape(k) == k[..2] + Unescape(k[2..])
    ensures |k| > 1 && k[0] == '\\' && k[1] in ['"', '\\', 'b', 'f', 'n', 'r', 't'] ==>
      |Unescape(k)| == 1 + |Unescape(k[2..])|
    ensures |k| >= 6 && k[0] == '\\' && k[1] == 'u' && (forall i :: 2 <= i < 6 ==> IsHexDigit(k[i])) ==>
      |Unescape(k)| <= 3 + |Unescape(k[6..])|
  {
    hide HexValue, Unescape, Bytes;
    if k[0] != '\\' || (|k| > 1 && k[1] != 'u') { UnescapePlain(k); }
    if |k| >= 6 && k[0] == '\\' && k[1] == 'u' && forall i :: 2 <= i < 6 ==> IsHexDigit(k[i]) {
      UnescapeCode(k);
      FewBytes(HexValue(k[2..6]));
    }
  }

  lemma FewBytes(u: nat)
    ensures |Bytes(u)| <= 3
  {
  }

  lemma PlainQuoted(k: string, post: string)
    requires PlainKey(k)
    ensures Quoted("\"" + k + "\"" + post, '"') == Got(k, post) && Unescape(k) == k
  {
    hide StrBody, StrElement, Unescape, PlainKey;
    var t := "\"" + k + "\"" + post;
    var tail := "\"" + post;
    KeyReads(k, tail);
    assert t[1..] == k + tail && t[1..][|k|..] == tail && tail[1..] == post && t[1..][..|k|] == k;
  }

  predicate Solid(t: string) { t == [] || t[0] !in [' ', '\t', '\r', '\n', '#', '/'] }

  lemma PostvalStays(t: string)
    requires Solid(t)
    ensures Postval(t) == t
  {
  }

  lemma {:induction false} PrintableIsStorable(v: Value)
    requires Printable(v)
    ensures Storable(v)
    decreases v
  {
    match v {
      case Arr(items) =>
        forall i | 0 <= i < |items| ensures Storable(items[i]) { PrintableIsStorable(items[i]); }
      case Obj(entries) =>
        forall i | 0 <= i < |entries| ensures NoNul(entries[i].0) && Storable(entries[i].1) {
          PlainIsNoNul(entries[i].0);
          PrintableIsStorable(entries[i].1);
        }
      case _ =>
    }
  }

  lemma {:induction false} PlainIsNoNul(k: string)
    requires PlainKey(k)
    ensures NoNul(k)
    decreases |k|
  {
    if k != [] {
      var n := if k[0] == '\\' then 2 else 1;
      PlainIsNoNul(k[n..]);
      assert k == k[..n] + k[n..];
    }
  }

  lemma JsonIsSolid(v: Value, post: string)
    requires Storable(v)
    ensures Json(v) != [] && Solid(Json(v) + post) && (Json(v) + post)[0] != ','
  {
    if v.Num? {
      NumberIsCore(v.text);
      var t := v.text;
      if t[0] == '/' {
        assert Digits(t[0..]) == 0;
      }
    }
  }

  lemma NoValue(t: string)
    requires t != [] && (t[0] == ']' || t[0] == '}' || t[0] == ',')
    ensures ReadValue(t) == Fail
  {
    hide ReadItems, ReadEntries, StrBody, DolName;
    assert SymElement(t, true) == 0;
    assert NumberLength(t) == 0 by { assert t[0..] == t; }
  }

  /** No alternative before the bare words. */
  lemma OnlyWords(s: string)
    requires s != [] && (s[0] == 'n' || s[0] == 't' || s[0] == 'f')
    ensures Quoted(s, '"') == Fail && Quoted(s, '\'') == Fail && NumberLength(s) == 0
    ensures !("{" <= s) && !("[" <= s)
  {
    assert s[0..] == s;
  }

  lemma BareWord(v: Value, t: string, post: string)
    requires (v == Null && t == "null") || (v == Bool(true) && t == "true") || (v == Bool(false) && t == "false")
    requires Stops(post)
    ensures ReadValue(t + post) == Got(v, post)
  {
    hide Quoted, NumberLength, SymbolLength, ReadItems, ReadEntries, ReadOther;
    WordIsSymbol(t, post);
    var s := t + post;
    assert t <= s && s[0] == t[0] && s[|t|..] == post;
    WordIsOther(v, t, post);
  }

  lemma WordIsOther(v: Value, t: string, post: string)
    requires (v == Null && t == "null") || (v == Bool(true) && t == "true") || (v == Bool(false) && t == "false")
    ensures ReadOther(t + post) == Got(v, post)
  {
    hide Quoted, NumberLength, ReadItems, ReadEntries;
    var s := t + post;
    assert t <= s && s[0] == t[0] && s[|t|..] == post;
    OnlyWords(s);
  }

  lemma NumberRoundTrip(text: string, post: string)
    requires IsNumber(text) && Stops(post)
    ensures ReadValue(text + post) == Got(Num(text), post)
  {
    hide NumberLength, Core, SymbolLength, StrBody;
    NumberIsCore(text);
    WordIsSymbol(text, post);
    NumberPrefix(text, post);
    var s := text + post;
    assert s[0] == text[0] && IsCore(s[0]);
    assert s[|text|..] == post && s[..|text|] == text;
  }

  lemma StrRoundTrip(x: string, post: string)
    requires NoNul(x)
    ensures ReadValue("\"" + Escape(x) + "\"" + post) == Got(Str(x), post)
  {
    hide Quoted, Escape, Unescape, NumberLength;
    var s := "\"" + Escape(x) + "\"" + post;
    StringRoundTrip(x, post);
    assert s[0] == '"';
    assert SymElement(s, true) == 0;
  }

  /** Printing, then parsing, gives the value back, and stops where the text of the value stops. */
  lemma {:induction false} ValueRoundTrip(v: Value, post: string)
    requires Printable(v) && Stops(post)
    ensures ReadValue(Json(v) + post) == Got(v, post)
    decreases v, 0
  {
    hide ReadValue, Escape;
    match v {
      case Null => BareWord(v, "null", post);
      case Bool(b) => BareWord(v, if b then "true" else "false", post);
      case Num(text) => NumberRoundTrip(text, post);
      case Str(x) =>
        StrRoundTrip(x, post);
      case Arr(items) =>
        ItemsRoundTrip(items, post);
        ArrayIs(items, post);
      case Obj(entries) =>
        EntriesRoundTrip(entries, post);
        ObjectIs(entries, post);
    }
  }

  lemma ArrayIs(items: seq<Value>, post: string)
    requires ReadItems(JsonItems(items) + "]" + post) == (items, "]" + post)
    ensures ReadValue("[" + JsonItems(items) + "]" + post) == Got(Arr(items), post)
  {
    hide ReadItems;
    var s := "[" + JsonItems(items) + "]" + post;
    assert s[1..] == JsonItems(items) + "]" + post && s[0] == '[';
    assert ("]" + post)[1..] == post;
    assert SymElement(s, true) == 0;
    assert NumberLength(s) == 0 by { assert s[0..] == s; }
  }

  lemma ObjectIs(es: seq<(string, Value)>, post: string)
    requires ReadEntries(JsonEntries(es) + "}" + post) == (es, "}" + post)
    ensures ReadValue("{" + JsonEntries(es) + "}" + post) == Got(Obj(es), post)
  {
    hide ReadEntries;
    var s := "{" + JsonEntries(es) + "}" + post;
    assert s[1..] == JsonEntries(es) + "}" + post && s[0] == '{';
    assert ("}" + post)[1..] == post;
    assert SymElement(s, true) == 0;
    assert NumberLength(s) == 0 by { assert s[0..] == s; }
  }

  /** The rest of a list of items, once one was read. */
  function ItemsTail(vs: seq<Value>): string { if vs == [] then "" else "," + JsonItems(vs) }

  lemma {:induction false} ItemsRoundTrip(vs: seq<Value>, post: string)
    requires forall i :: 0 <= i < |vs| ==> Printable(vs[i])
    ensures ReadItems(JsonItems(vs) + "]" + post) == (vs, "]" + post)
    decreases vs, 2
  {
    hide ReadValue, Json, ItemsTail, MoreItems, Printable, Postval;
    var end := "]" + post;
    if vs == [] {
      assert "" + "]" + post == end;
      NoValue(end);
      MoreItemsRoundTrip([], post);
      NoTail(end);
    } else {
      var tail := ItemsTail(vs[1..]) + end;
      ItemsTailText(vs, post);
      ValueRoundTrip(vs[0], tail);
      assert JsonItems(vs) + "]" + post == Json(vs[0]) + tail by { ItemsSplit(vs, post); }
      PostvalStays(tail);
      MoreItemsRoundTrip(vs[1..], post);
      assert [vs[0]] + vs[1..] == vs;
    }
  }

  lemma ItemsSplit(vs: seq<Value>, post: string)
    requires vs != []
    ensures JsonItems(vs) + "]" + post == Json(vs[0]) + (ItemsTail(vs[1..]) + ("]" + post))
  {
    hide Json;
  }

  lemma NoMoreItems(t: string)
    requires t != [] && t[0] == ']'
    ensures MoreItems(t) == ([], t)
  {
    hide ReadValue;
    PostvalStays(t);
    NoValue(t);
  }

  lemma OneMoreItem(t: string, v: Value, tail: string)
    requires "," <= t && Postval(t[1..]) == t[1..] && ReadValue(t[1..]) == Got(v, tail) && Postval(tail) == tail
    ensures MoreItems(t) == ([v] + MoreItems(tail).0, MoreItems(tail).1)
  {
    hide ReadValue, Postval;
  }

  /** The rest of the items as text: a comma, and the first of them. */
  lemma ItemsTailText(vs: seq<Value>, post: string)
    requires vs != []
    ensures ItemsTail(vs) + ("]" + post) == "," + (Json(vs[0]) + (ItemsTail(vs[1..]) + ("]" + post)))
    ensures Stops(ItemsTail(vs[1..]) + ("]" + post)) && Solid(ItemsTail(vs[1..]) + ("]" + post))
  {
    hide Json, JsonItems;
    ItemsSplit(vs, post);
    assert ItemsTail(vs) + ("]" + post) == "," + (JsonItems(vs) + "]" + post);
  }

  lemma {:induction false} MoreItemsRoundTrip(vs: seq<Value>, post: string)
    requires forall i :: 0 <= i < |vs| ==> Printable(vs[i])
    ensures MoreItems(ItemsTail(vs) + ("]" + post)) == (vs, "]" + post)
    decreases vs, 1
  {
    hide ReadValue, Json, MoreItems, Postval, Sep, Printable, Storable, ItemsTail;
    var end := "]" + post;
    if vs == [] {
      NoTail(end);
      NoMoreItems(end);
    } else {
      var tail := ItemsTail(vs[1..]) + end;
      var t := ItemsTail(vs) + end;
      ItemsTailText(vs, post);
      assert t[1..] == Json(vs[0]) + tail;
      PrintableIsStorable(vs[0]);
      JsonIsSolid(vs[0], tail);
      PostvalStays(t[1..]);
      ValueRoundTrip(vs[0], tail);
      PostvalStays(tail);
      MoreItemsRoundTrip(vs[1..], post);
      OneMoreItem(t, vs[0], tail);
      assert [vs[0]] + vs[1..] == vs;
    }
  }

  function EntriesTail(es: seq<(string, Value)>): string { if es == [] then "" else "," + JsonEntries(es) }

  lemma {:induction false} EntryRoundTrip(e: (string, Value), post: string)
    requires PlainKey(e.0) && Printable(e.1) && Stops(post)
    ensures ReadEntry(JsonEntry(e) + post) == Got(e, post)
    decreases e, 1
  {
    hide ReadValue, Json, Quoted, Unescape, SymbolLength, Postval, PlainKey, Printable, Storable, Solid;
    var t := JsonEntry(e) + post;
    var value := Json(e.1) + post;
    var colon := ":" + value;
    assert t == "\"" + e.0 + "\"" + colon;
    PlainQuoted(e.0, colon);
    PostvalStays(colon);
    assert colon[1..] == value;
    PrintableIsStorable(e.1);
    JsonIsSolid(e.1, post);
    PostvalStays(value);
    ValueRoundTrip(e.1, post);
    PostvalStays(post);
  }

  lemma NoEntry(t: string)
    requires t != [] && (t[0] == '}' || t[0] == ',')
    ensures ReadEntry(t) == Fail
  {
    assert SymElement(t, false) == 0;
  }

  lemma EntriesSplit(es: seq<(string, Value)>, post: string)
    requires es != []
    ensures JsonEntries(es) + "}" + post == JsonEntry(es[0]) + (EntriesTail(es[1..]) + ("}" + post))
  {
    hide JsonEntry;
  }

  lemma {:induction false} EntriesRoundTrip(es: seq<(string, Value)>, post: string)
    requires forall i :: 0 <= i < |es| ==> PlainKey(es[i].0) && Printable(es[i].1)
    ensures ReadEntries(JsonEntries(es) + "}" + post) == (es, "}" + post)
    decreases es, 3
  {
    hide ReadEntry, JsonEntry, EntriesTail, MoreEntries, Printable, PlainKey;
    var end := "}" + post;
    if es == [] {
      assert "" + "}" + post == end;
      NoEntry(end);
      MoreEntriesRoundTrip([], post);
      NoTail(end);
    } else {
      var tail := EntriesTail(es[1..]) + end;
      TailStops(es[1..], post);
      EntryRoundTrip(es[0], tail);
      EntriesSplit(es, post);
      MoreEntriesRoundTrip(es[1..], post);
      assert [es[0]] + es[1..] == es;
    }
  }

  lemma NoMoreEntries(t: string)
    requires t != [] && t[0] == '}'
    ensures MoreEntries(t) == ([], t)
  {
    hide ReadEntry;
    PostvalStays(t);
    NoEntry(t);
  }

  lemma OneMoreEntry(t: string, e: (string, Value), tail: string)
    requires "," <= t && Postval(t[1..]) == t[1..] && ReadEntry(t[1..]) == Got(e, tail)
    ensures MoreEntries(t) == ([e] + MoreEntries(tail).0, MoreEntries(tail).1)
  {
    hide ReadEntry, Postval;
  }

  /** The rest of the entries as text: a comma, and the first of them. */
  lemma TailText(es: seq<(string, Value)>, post: string)
    requires es != []
    ensures EntriesTail(es) + ("}" + post) == "," + (JsonEntry(es[0]) + (EntriesTail(es[1..]) + ("}" + post)))
  {
    hide JsonEntry, JsonEntries;
    EntriesSplit(es, post);
    assert EntriesTail(es) + ("}" + post) == "," + (JsonEntries(es) + "}" + post);
  }

  lemma TailStops(es: seq<(string, Value)>, post: string)
    ensures Stops(EntriesTail(es) + ("}" + post))
  {
  }

  lemma {:induction false} MoreEntriesRoundTrip(es: seq<(string, Value)>, post: string)
    requires forall i :: 0 <= i < |es| ==> PlainKey(es[i].0) && Printable(es[i].1)
    ensures MoreEntries(EntriesTail(es) + ("}" + post)) == (es, "}" + post)
    decreases es, 2
  {
    hide ReadEntry, JsonEntry, MoreEntries, Postval, Sep, Printable, PlainKey, EntriesTail;
    var end := "}" + post;
    if es == [] {
      NoTail(end);
      NoMoreEntries(end);
    } else {
      var tail := EntriesTail(es[1..]) + end;
      var t := EntriesTail(es) + end;
      TailText(es, post);
      TailStops(es[1..], post);
      assert t[1..] == JsonEntry(es[0]) + tail;
      EntryIsSolid(es[0], tail);
      PostvalStays(t[1..]);
      EntryRoundTrip(es[0], tail);
      MoreEntriesRoundTrip(es[1..], post);
      OneMoreEntry(t, es[0], tail);
      assert [es[0]] + es[1..] == es;
    }
  }

  lemma NoTail(end: string)
    ensures EntriesTail([]) + end == end && ItemsTail([]) + end == end
  {
  }

  lemma EntryIsSolid(e: (string, Value), post: string)
    ensures Solid(JsonEntry(e) + post)
  {
    hide Json;
  }

  /** Cloning: the parser gives back every value that is printed. */
  lemma RoundTrip(v: Value)
    requires Printable(v)
    ensures Parse(Json(v)) == Some(v)
  {
    hide ReadValue, Json;
    PrintableIsStorable(v);
    JsonIsSolid(v, []);
    assert Json(v) + [] == Json(v);
    PostvalStays(Json(v));
    ValueRoundTrip(v, []);
    PostvalStays([]);
  }

  // --- the loops over characters -------------------------------------------------------------------------

  function UpToNul(s: string): string {
    if s == [] || s[0] == NUL then [] else [s[0]] + UpToNul(s[1..])
  }

  /** flu_n_escape. */
  method EscapeChars(s: string) returns (b: string)
    ensures b == Escape(UpToNul(s))
  {
    hide EscapeChar;
    b := "";
    var i := 0;
    while i < |s|
      invariant i <= |s|
      invariant Escape(UpToNul(s)) == b + Escape(UpToNul(s[i..]))
    {
      var c := s[i];
      if c == NUL { break; }
      assert s[i..][1..] == s[i + 1..];
      assert UpToNul(s[i..])[1..] == UpToNul(s[i + 1..]);
      b := b + EscapeChar(c);
      i := i + 1;
    }
    assert b + "" == b;
  }

  /** flu_n_unescape, over what the parser finds between double quotes. */
  method UnescapeChars(s: string) returns (d: string)
    requires StrBody(s, '"') == |s|
    ensures d == Unescape(s)
  {
    hide StrElement, StrBody, Unescape, Unescaped, HexValue, Bytes;
    d := "";
    var i := 0;
    assert s[0..] == s;
    while i < |s|
      invariant i <= |s| && StrBody(s[i..], '"') == |s[i..]|
      invariant Unescape(s) == d + Unescape(s[i..])
    {
      var t := s[i..];
      ElementUnescapes(t);
      if s[i] != '\\' {
        assert t[1..] == s[i + 1..];
        d := d + [s[i]];
        i := i + 1;
        continue;
      }
      var c := s[i + 1];
      if c == 'u' {
        assert t[2..6] == s[i + 2..i + 6] && t[6..] == s[i + 6..];
        d := d + Bytes(HexValue(s[i + 2..i + 6]));
        i := i + 6;
      } else {
        assert t[2..] == s[i + 2..];
        d := d + Unescaped(c);
        i := i + 2;
      }
    }
    assert Unescape([]) == [] by { NothingUnescapes(); }
    assert d + [] == d;
  }

  lemma NothingUnescapes()
    ensures Unescape([]) == []
  {
  }

  /** One element of a string, unescaped. */
  lemma ElementUnescapes(t: string)
    requires t != [] && StrBody(t, '"') == |t|
    ensures t[0] != '\\' ==> StrBody(t[1..], '"') == |t[1..]| && Unescape(t) == [t[0]] + Unescape(t[1..])
    ensures t[0] == '\\' ==> |t| > 1
    ensures t[0] == '\\' && t[1] == 'u' ==>
      |t| >= 6 && (forall k :: 0 <= k < 4 ==> IsHexDigit(t[2..6][k])) && StrBody(t[6..], '"') == |t[6..]|
      && Unescape(t) == Bytes(HexValue(t[2..6])) + Unescape(t[6..])
    ensures t[0] == '\\' && t[1] != 'u' ==>
      StrBody(t[2..], '"') == |t[2..]| && Unescape(t) == Unescaped(t[1]) + Unescape(t[2..])
  {
    hide Bytes, HexValue, Unescape, StrElement, StrBody;
    BodyStep(t);
    ElementKinds(t);
    if t[0] == '\\' && t[1] == 'u' {
      UnescapeCode(t);
    } else {
      UnescapePlain(t);
    }
  }

  lemma BodyStep(t: string)
    requires t != [] && StrBody(t, '"') == |t|
    ensures var n := StrElement(t, '"'); n > 0 && StrBody(t[n..], '"') == |t[n..]|
  {
    hide StrElement;
  }

  lemma ElementKinds(t: string)
    requires t != [] && StrElement(t, '"') > 0
    ensures
      var n := StrElement(t, '"');
      && (t[0] != '\\' ==> n == 1)
      && (t[0] == '\\' ==> |t| > 1 && n == if t[1] == 'u' then 6 else 2)
      && (n == 6 ==> |t| >= 6 && forall i :: 2 <= i < 6 ==> IsHexDigit(t[i]))
  {
  }

  lemma UnescapeCode(t: string)
    requires |t| >= 6 && t[0] == '\\' && t[1] == 'u' && forall i :: 2 <= i < 6 ==> IsHexDigit(t[i])
    ensures forall k :: 0 <= k < 4 ==> IsHexDigit(t[2..6][k])
    ensures Unescape(t) == Bytes(HexValue(t[2..6])) + Unescape(t[6..])
  {
    hide Bytes, HexValue;
  }

  lemma UnescapePlain(t: string)
    requires t != [] && (t[0] == '\\' ==> |t| > 1 && t[1] != 'u')
    ensures Unescape(t) == if t[0] != '\\' then [t[0]] + Unescape(t[1..]) else Unescaped(t[1]) + Unescape(t[2..])
  {
    hide Unescaped;
  }
}
