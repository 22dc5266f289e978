/** The regexes of the djan grammar, run by the regex engine: they take what the functions of module Djan take. */
module Lexemes {
  import opened Values
  import opened Grammars
  import Djan

  // --- scanning past a range -------------------------------------------------------------------------------

  /** Within brackets bars and parentheses do not count. */
  lemma {:induction false} BarPastRange(rx: string, j: nat, groups: nat)
    requires j > 0 && RangeEnd(rx, j) > 0
    ensures Bar(rx, j, true, groups) == Bar(rx, RangeEnd(rx, j) + 1, false, groups)
    decreases |rx| - j
  {
    if rx[j] == '\\' { BarPastRange(rx, j + 2, groups); } else if rx[j] != ']' { BarPastRange(rx, j + 1, groups); }
  }

  lemma {:induction false} GroupPastRange(rx: string, j: nat, groups: nat)
    requires j > 0 && RangeEnd(rx, j) > 0
    ensures GroupEnd(rx, j, true, groups) == GroupEnd(rx, RangeEnd(rx, j) + 1, false, groups)
    decreases |rx| - j
  {
    if rx[j] == '\\' { GroupPastRange(rx, j + 2, groups); } else if rx[j] != ']' { GroupPastRange(rx, j + 1, groups); }
  }

  lemma {:induction false} RangeEndPast(rx: string, j: nat, z: nat)
    requires 0 < j <= z <= |rx| && forall k :: j <= k < z ==> rx[k] != NUL && rx[k] != '\\' && rx[k] != ']'
    ensures RangeEnd(rx, j) == RangeEnd(rx, z)
    decreases z - j
  {
    if j < z { RangeEndPast(rx, j + 1, z); }
  }

  /** Nothing but ordinary characters up to the bracket. */
  lemma RangeEndAt(rx: string, j: nat, z: nat)
    requires 0 < j <= z < |rx| && rx[z] == ']'
    requires forall k :: j <= k < z ==> rx[k] != NUL && rx[k] != '\\' && rx[k] != ']'
    ensures RangeEnd(rx, j) == z
  {
    RangeEndPast(rx, j, z);
  }

  // --- one piece at a time -----------------------------------------------------------------------------------

  /** A plain piece without a quantifier, then the rest. */
  lemma PlainFirst(rx: string, n: nat, text: string, off: nat, any: bool)
    requires off <= |text| && 0 < n <= |rx| && rx[0] != NUL && rx[0] != '[' && rx[0] != '('
    requires StrEnd(rx, 0) == Some(n) && CharAt(rx, n) !in "?*+{"
    ensures
      var a := StrAnswer(rx[..n], text, off);
      RegSeq(rx, text, off, any)
      == if a.Hit? then Then(a.length, RegSeq(rx[n..], text, off + a.length, true)) else a
  {
    hide StrEnd, StrAnswer;
    assert CharAt(rx[n..], 0) == CharAt(rx, n);
    assert Quantified(rx[n..]) == Some(Bounds(0, 0, 0));
    assert RegRep(rx, text, off) == (StrAnswer(rx[..n], text, off), n);
  }

  /** A range without a quantifier, then the rest. */
  lemma RangeFirst(rx: string, z: nat, text: string, off: nat, any: bool)
    requires off <= |text| && rx != [] && rx[0] == '[' && RangeEnd(rx, 1) == z && z > 0 && CharAt(rx, z + 1) !in "?*+{"
    ensures
      var a := RangeAnswer(rx[1..z], text, off);
      RegSeq(rx, text, off, any)
      == if a.Hit? then Then(a.length, RegSeq(rx[z + 1..], text, off + a.length, true)) else a
  {
    hide RangeEnd, RangeAnswer;
    assert CharAt(rx[z + 1..], 0) == CharAt(rx, z + 1);
    assert Quantified(rx[z + 1..]) == Some(Bounds(0, 0, 0));
    assert Piece(rx) == Some((rx[1..z], z + 1));
    assert RegRep(rx, text, off) == (RangeAnswer(rx[1..z], text, off), z + 1);
  }

  /** A quantified piece, then the rest. */
  lemma TimesFirst(rx: string, piece: string, end: nat, b: Bounds, text: string, off: nat, any: bool)
    requires off <= |text| && rx != [] && rx[0] != NUL && Piece(rx) == Some((piece, end))
    requires Quantified(rx[end..]) == Some(b) && b.length > 0
    ensures
      var a := Times(rx[0], piece, text, off, 0, b.min, b.max);
      RegSeq(rx, text, off, any)
      == if a.Hit? then Then(a.length, RegSeq(rx[end + b.length..], text, off + a.length, true)) else a
  {
    hide Piece, Quantified, Times;
    assert RegRep(rx, text, off) == (Times(rx[0], piece, text, off, 0, b.min, b.max), end + b.length);
  }

  lemma SeqEnd(text: string, off: nat)
    requires off <= |text|
    ensures RegSeq([], text, off, true) == Hit(0)
  {
  }

  /** One alternative up to a bar, then the others. */
  lemma AltFirst(rx: string, j: nat, text: string, off: nat)
    requires off <= |text| && Bar(rx, 0, false, 0) == j && CharAt(rx, j) != NUL
    ensures
      var a := RegSeq(rx[..j], text, off, false);
      RegAlt(rx, text, off) == if a == Miss then RegAlt(rx[j + 1..], text, off) else a
  {
    hide Bar, RegSeq;
  }

  lemma AltOnly(rx: string, text: string, off: nat)
    requires off <= |text| && Bar(rx, 0, false, 0) == |rx|
    ensures RegAlt(rx, text, off) == RegSeq(rx, text, off, false)
  {
    hide Bar, RegSeq;
    assert rx[..|rx|] == rx;
  }

  // --- strings -----------------------------------------------------------------------------------------------

  /** The three alternatives of _string and _sqstring: an escape, a code, any other character. */
  function EscapeRx(q: char): string { "\\\\[" + [q] + "\\/\\\\bfnrt]" }

  const CODE_RX := "\\\\u[0-9a-fA-F]{4}"

  function OtherRx(q: char): string { "[^" + [q] + "\\\\" + [BS, FF, '\n', '\r', '\t'] + "]" }

  function ElementRx(q: char): string { EscapeRx(q) + "|" + CODE_RX + "|" + OtherRx(q) }

  function GroupRx(q: char): string { "(" + ElementRx(q) + ")*" + [q] }

  function StringRx(q: char): string { [q] + GroupRx(q) }

  predicate IsQuote(q: char) { q == '"' || q == '\'' }

  /** A class has a backslash only where there are two. */
  predicate Doubled(cls: string) { |cls| > 1 && (cls[0] == '\\' == cls[1] || Doubled(cls[1..])) }

  /** A class of single characters: an escaped one stands for itself, and is read once more without its escape. */
  lemma {:induction false} Letters(cls: string, c: char)
    requires forall k :: 0 <= k < |cls| ==> cls[k] != '-' && cls[k] != NUL
    ensures InRange(cls, c) <==> if c == '\\' then Doubled(cls) else c in cls
  {
    if cls != [] {
      Letters(cls[1..], c);
      assert cls == [cls[0]] + cls[1..];
      var a := if cls[0] == '\\' then CharAt(cls, 1) else cls[0];
      if a != NUL {
        assert RngNext(cls) == (1, a, a);
        assert a in cls;
      }
    }
  }

  /** The end of a span is read once more on its own. */
  lemma SpanOf(cls: string, c: char)
    requires |cls| > 2 && cls[0] != '\\' && cls[0] != NUL && cls[1] == '-' && cls[2] != '\\' && cls[2] != NUL
    ensures InRange(cls, c) == (cls[0] <= c <= cls[2] || InRange(cls[2..], c))
  {
  }

  lemma OneOf(cls: string, c: char)
    requires cls != [] && cls[0] != '\\' && cls[0] != NUL && CharAt(cls, 1) != '-'
    ensures InRange(cls, c) == (c == cls[0] || InRange(cls[1..], c))
  {
  }

  lemma EscapeClass(cls: string, q: char, c: char)
    requires cls == [q] + "\\/\\\\bfnrt" && IsQuote(q)
    ensures InRange(cls, c) <==> c in [q, '/', '\\', 'b', 'f', 'n', 'r', 't']
  {
    hide InRange;
    Letters(cls, c);
    assert cls[3..] == "\\\\bfnrt" && Doubled(cls[3..]);
    assert cls[1..][1..][1..] == cls[3..] && cls[1..][1..] == cls[2..];
    assert Doubled(cls[2..]) && Doubled(cls[1..]);
  }

  const BREAKS := [BS, FF, '\n', '\r', '\t']

  lemma OtherClass(cls: string, q: char, c: char)
    requires cls == [q] + "\\\\" + BREAKS && IsQuote(q)
    ensures InRange(cls, c) <==> c == q || c == '\\' || c in BREAKS
  {
    hide InRange;
    Letters(cls, c);
    assert cls[1..][0] == cls[1..][1] == '\\';
    assert Doubled(cls[1..]);
  }

  lemma HexClass(c: char)
    ensures InRange("0-9a-fA-F", c) <==> Djan.IsHexDigit(c)
  {
    hide InRange;
    var x, y, z, u, v := "0-9a-fA-F", "9a-fA-F", "a-fA-F", "fA-F", "A-F";
    assert x[2..] == y;
    assert y[1..] == z;
    assert z[2..] == u;
    assert u[1..] == v;
    assert v[2..] == "F";
    SpanOf(x, c);
    OneOf(y, c);
    SpanOf(z, c);
    OneOf(u, c);
    SpanOf(v, c);
    Letters("F", c);
  }

  function AnswerOf(n: nat): Answer { if n == 0 then Miss else Hit(n) }

  // --- the elements of a string --------------------------------------------------------------------------------

  lemma BackslashPiece(text: string, off: nat)
    requires off <= |text|
    ensures StrAnswer("\\\\", text, off) == AnswerOf(if CharAt(text, off) == '\\' then 1 else 0)
  {
    if CharAt(text, off) == '\\' {
      assert Plain("\\\\", 0, text, off) == Plain("\\\\", 2, text, off + 1) == Some(off + 1);
    }
  }

  lemma EscapeTakes(q: char, text: string, off: nat)
    requires off <= |text| && IsQuote(q)
    ensures
      RegSeq(EscapeRx(q), text, off, false)
      == AnswerOf(if CharAt(text, off) == '\\' && CharAt(text, off + 1) in [q, '/', '\\', 'b', 'f', 'n', 'r', 't'] then 2 else 0)
  {
    var rx := EscapeRx(q);
    assert |rx| == 14 && rx[..2] == "\\\\" && rx[2] == '[';
    assert StrEnd(rx, 0) == StrEnd(rx, 2) == Some(2);
    PlainFirst(rx, 2, text, off, false);
    BackslashPiece(text, off);
    if CharAt(text, off) == '\\' { EscapedTakes(rx[2..], q, text, off + 1); }
  }

  lemma EscapedTakes(rest: string, q: char, text: string, at: nat)
    requires at <= |text| && IsQuote(q) && rest == "[" + [q] + "\\/\\\\bfnrt]"
    ensures
      RegSeq(rest, text, at, true) == AnswerOf(if CharAt(text, at) in [q, '/', '\\', 'b', 'f', 'n', 'r', 't'] then 1 else 0)
  {
    hide RegSeq, InRange;
    assert rest[0] == '[' && rest[1] == q && rest[2] == '\\' && rest[4] == '\\' && rest[11] == ']' && |rest| == 12;
    assert forall k :: 6 <= k < 11 ==> rest[k] == "bfnrt"[k - 6];
    RangeEndAt(rest, 6, 11);
    assert RangeEnd(rest, 1) == RangeEnd(rest, 2) == RangeEnd(rest, 4) == 11;
    RangeFirst(rest, 11, text, at, true);
    assert rest[12..] == [] && rest[1..11] == [q] + "\\/\\\\bfnrt";
    EscapeClass(rest[1..11], q, CharAt(text, at));
    if CharAt(text, at) != NUL { SeqEnd(text, at + 1); }
  }

  lemma OtherTakes(q: char, text: string, off: nat)
    requires off <= |text| && IsQuote(q)
    ensures
      var c := CharAt(text, off);
      RegSeq(OtherRx(q), text, off, false) == AnswerOf(if c in [q, '\\', NUL] + BREAKS then 0 else 1)
  {
    var rx, c := OtherRx(q), CharAt(text, off);
    assert |rx| == 11 && rx[0] == '[' && rx[1] == '^' && rx[2] == q && rx[3] == '\\' && rx[10] == ']';
    assert forall k :: 5 <= k < 10 ==> rx[k] == BREAKS[k - 5];
    RangeEndAt(rx, 5, 10);
    assert RangeEnd(rx, 1) == RangeEnd(rx, 2) == RangeEnd(rx, 3) == 10;
    RangeFirst(rx, 10, text, off, false);
    var piece := rx[1..10];
    assert piece == "^" + ([q] + "\\\\" + BREAKS) && piece[1..] == [q] + "\\\\" + BREAKS && rx[11..] == [];
    OtherClass(piece[1..], q, c);
    if c != NUL { SeqEnd(text, off + 1); }
  }

  /** Four hexadecimal digits, less those already read. */
  lemma {:induction false} HexTimes(text: string, at: nat, count: nat)
    requires at <= |text| && count < 4
    ensures
      Times('[', "0-9a-fA-F", text, at, count, 4, 4)
      == if forall k :: at <= k < at + 4 - count ==> Djan.IsHexDigit(CharAt(text, k)) then Hit(4 - count) else Miss
    decreases 4 - count
  {
    var c := CharAt(text, at);
    HexClass(c);
    assert PieceAnswer('[', "0-9a-fA-F", text, at) == AnswerOf(if Djan.IsHexDigit(c) then 1 else 0);
    if Djan.IsHexDigit(c) && count < 3 {
      HexTimes(text, at + 1, count + 1);
    }
  }

  lemma FourTimes()
    ensures Quantified("{4}") == Some(Bounds(3, 4, 4))
  {
    var rx := "{4}";
    hide SizeT;
    BraceBounds(rx, "4", "");
    assert Djan.Postval("") == "";
    assert ReadDigits("4", 0) == 4;
    FourSize();
  }

  lemma FourSize()
    ensures SizeT(4) == 4
  {
  }

  lemma CodePiece(text: string, off: nat)
    requires off <= |text|
    ensures
      StrAnswer("\\\\u", text, off) == AnswerOf(if CharAt(text, off) == '\\' && CharAt(text, off + 1) == 'u' then 2 else 0)
  {
    var rx := "\\\\u";
    if CharAt(text, off) == '\\' {
      assert Plain(rx, 0, text, off) == Plain(rx, 2, text, off + 1);
      if CharAt(text, off + 1) == 'u' { assert Plain(rx, 2, text, off + 1) == Plain(rx, 3, text, off + 2) == Some(off + 2); }
    }
  }

  lemma CodeTakes(text: string, off: nat)
    requires off <= |text|
    ensures
      RegSeq(CODE_RX, text, off, false)
      == AnswerOf(if CharAt(text, off) == '\\' && CharAt(text, off + 1) == 'u'
                     && (forall k :: off + 2 <= k < off + 6 ==> Djan.IsHexDigit(CharAt(text, k))) then 6 else 0)
  {
    hide RegSeq, StrAnswer, StrEnd;
    var rx := CODE_RX;
    CodeShape();
    PlainFirst(rx, 3, text, off, false);
    CodePiece(text, off);
    if CharAt(text, off) == '\\' && CharAt(text, off + 1) == 'u' { FourTakes(text, off + 2); }
  }

  lemma CodeShape()
    ensures CODE_RX[..3] == "\\\\u" && CODE_RX[3..] == "[0-9a-fA-F]{4}" && StrEnd(CODE_RX, 0) == Some(3)
    ensures |CODE_RX| == 17 && CODE_RX[0] == '\\' && CODE_RX[3] == '['
  {
    var rx := CODE_RX;
    assert StrEnd(rx, 0) == StrEnd(rx, 2) == StrEnd(rx, 3) == Some(3);
  }

  lemma FourTakes(text: string, at: nat)
    requires at <= |text|
    ensures
      RegSeq("[0-9a-fA-F]{4}", text, at, true)
      == if forall k :: at <= k < at + 4 ==> Djan.IsHexDigit(CharAt(text, k)) then Hit(4) else Miss
  {
    hide RegSeq, Times;
    var rest := "[0-9a-fA-F]{4}";
    RangeEndAt(rest, 1, 10);
    assert rest[1..10] == "0-9a-fA-F" && rest[11..] == "{4}" && rest[14..] == [];
    assert Piece(rest) == Some(("0-9a-fA-F", 11));
    FourTimes();
    TimesFirst(rest, "0-9a-fA-F", 11, Bounds(3, 4, 4), text, at, true);
    HexTimes(text, at, 0);
    if forall k :: at <= k < at + 4 ==> Djan.IsHexDigit(CharAt(text, k)) {
      assert Djan.IsHexDigit(CharAt(text, at + 3));
      SeqEnd(text, at + 4);
    }
  }

  // --- where the bars are ----------------------------------------------------------------------------------------

  lemma FirstBar(q: char)
    requires IsQuote(q)
    ensures
      var rx := ElementRx(q);
      && Bar(rx, 0, false, 0) == 14 && rx[14] == '|' && rx[..14] == EscapeRx(q) && rx[15..] == CODE_RX + "|" + OtherRx(q)
  {
    var rx := ElementRx(q);
    assert |EscapeRx(q)| == 14 && rx[..14] == EscapeRx(q);
    assert rx[0] == '\\' && rx[2] == '[' && rx[3] == q && rx[4] == '\\' && rx[6] == '\\' && rx[13] == ']' && rx[14] == '|';
    assert forall k :: 8 <= k < 13 ==> rx[k] == "bfnrt"[k - 8];
    RangeEndAt(rx, 8, 13);
    assert RangeEnd(rx, 3) == RangeEnd(rx, 4) == RangeEnd(rx, 6) == 13;
    BarPastRange(rx, 3, 0);
    assert Bar(rx, 0, false, 0) == Bar(rx, 2, false, 0) == Bar(rx, 3, true, 0) == Bar(rx, 14, false, 0) == 14;
  }

  lemma SecondBar(q: char)
    requires IsQuote(q)
    ensures
      var rx := CODE_RX + "|" + OtherRx(q);
      Bar(rx, 0, false, 0) == 17 && rx[17] == '|' && rx[..17] == CODE_RX && rx[18..] == OtherRx(q)
  {
    var rx := CODE_RX + "|" + OtherRx(q);
    assert rx[..17] == CODE_RX && rx[17] == '|';
    assert rx[0] == '\\' && rx[2] == 'u' && rx[3] == '[' && rx[13] == ']' && rx[14] == '{' && rx[15] == '4' && rx[16] == '}';
    assert forall k :: 4 <= k < 13 ==> rx[k] == "0-9a-fA-F"[k - 4];
    RangeEndAt(rx, 4, 13);
    BarPastRange(rx, 4, 0);
    assert Bar(rx, 0, false, 0) == Bar(rx, 2, false, 0) == Bar(rx, 3, false, 0) == Bar(rx, 4, true, 0) == Bar(rx, 14, false, 0);
    assert Bar(rx, 14, false, 0) == Bar(rx, 15, false, 0) == Bar(rx, 16, false, 0) == Bar(rx, 17, false, 0) == 17;
  }

  lemma LastBar(q: char)
    requires IsQuote(q)
    ensures Bar(OtherRx(q), 0, false, 0) == |OtherRx(q)| == 11
  {
    var rx := OtherRx(q);
    assert |rx| == 11 && rx[0] == '[' && rx[1] == '^' && rx[2] == q && rx[3] == '\\' && rx[10] == ']';
    assert forall k :: 5 <= k < 10 ==> rx[k] == BREAKS[k - 5];
    RangeEndAt(rx, 5, 10);
    assert RangeEnd(rx, 1) == RangeEnd(rx, 2) == RangeEnd(rx, 3) == 10;
    BarPastRange(rx, 1, 0);
    assert Bar(rx, 0, false, 0) == Bar(rx, 1, true, 0) == Bar(rx, 11, false, 0) == 11;
  }

  /** One turn of the group takes one element of a string. */
  lemma ElementTakes(q: char, text: string, off: nat)
    requires off <= |text| && IsQuote(q)
    ensures RegAlt(ElementRx(q), text, off) == AnswerOf(Djan.StrElement(text[off..], q))
  {
    hide RegAlt, RegSeq, Bar;
    FirstBar(q);
    SecondBar(q);
    LastBar(q);
    AltFirst(ElementRx(q), 14, text, off);
    AltFirst(CODE_RX + "|" + OtherRx(q), 17, text, off);
    AltOnly(OtherRx(q), text, off);
    EscapeTakes(q, text, off);
    CodeTakes(text, off);
    OtherTakes(q, text, off);
    ElementIs(q, text, off);
  }

  lemma ElementIs(q: char, text: string, off: nat)
    requires off <= |text| && IsQuote(q)
    ensures
      var c, d := CharAt(text, off), CharAt(text, off + 1);
      Djan.StrElement(text[off..], q)
      == if c == '\\' && d in [q, '/', '\\', 'b', 'f', 'n', 'r', 't'] then 2
         else if c == '\\' && d == 'u' && (forall k :: off + 2 <= k < off + 6 ==> Djan.IsHexDigit(CharAt(text, k))) then 6
         else if c in [q, '\\', NUL] + BREAKS then 0 else 1
  {
    var t := text[off..];
    assert forall k :: off <= k < |text| ==> t[k - off] == text[k];
    if |t| >= 6 {
      assert forall k :: off + 2 <= k < off + 6 ==> CharAt(text, k) == t[k - off];
      assert forall i :: 2 <= i < 6 ==> t[i] == CharAt(text, off + i);
    } else {
      assert CharAt(text, off + 5) == NUL;
    }
  }

  // --- whole strings ---------------------------------------------------------------------------------------------

  /** The group of a string as it stands in a regex, from `k` on. */
  predicate HoldsElement(rx: string, k: nat, q: char) {
    k + 44 <= |rx| && forall i :: 0 <= i < 44 ==> rx[k + i] == ElementRx(q)[i]
  }

  lemma ElementChars(q: char)
    ensures
      var e := ElementRx(q);
      && |e| == 44 && e[0] == '\\' && e[2] == '[' && e[3] == q && e[4] == '\\' && e[6] == '\\' && e[13] == ']' && e[14] == '|'
      && e[15] == '\\' && e[17] == 'u' && e[18] == '[' && e[28] == ']' && e[29] == '{' && e[30] == '4' && e[31] == '}'
      && e[32] == '|' && e[33] == '[' && e[34] == '^' && e[35] == q && e[36] == '\\' && e[43] == ']'
      && (forall i :: 8 <= i < 13 ==> e[i] == "bfnrt"[i - 8])
      && (forall i :: 19 <= i < 28 ==> e[i] == "0-9a-fA-F"[i - 19])
      && (forall i :: 38 <= i < 43 ==> e[i] == BREAKS[i - 38])
  {
  }

  lemma ElementRanges(rx: string, k: nat, q: char)
    requires HoldsElement(rx, k, q) && IsQuote(q)
    ensures RangeEnd(rx, k + 3) == k + 13 && RangeEnd(rx, k + 19) == k + 28 && RangeEnd(rx, k + 34) == k + 43
  {
    hide ElementRx;
    ElementChars(q);
    assert forall i :: k + 8 <= i < k + 13 ==> rx[i] == ElementRx(q)[i - k] == "bfnrt"[i - k - 8];
    assert forall i :: k + 19 <= i < k + 28 ==> rx[i] == ElementRx(q)[i - k] == "0-9a-fA-F"[i - k - 19];
    assert forall i :: k + 38 <= i < k + 43 ==> rx[i] == ElementRx(q)[i - k] == BREAKS[i - k - 38];
    RangeEndAt(rx, k + 8, k + 13);
    RangeEndAt(rx, k + 19, k + 28);
    RangeEndAt(rx, k + 38, k + 43);
    assert rx[k + 3] == q && rx[k + 4] == '\\' && rx[k + 6] == '\\';
    assert RangeEnd(rx, k + 3) == RangeEnd(rx, k + 4) == RangeEnd(rx, k + 6) == k + 13;
    assert rx[k + 34] == '^' && rx[k + 35] == q && rx[k + 36] == '\\';
    assert RangeEnd(rx, k + 34) == RangeEnd(rx, k + 35) == RangeEnd(rx, k + 36) == k + 43;
  }

  lemma BarOverElement(rx: string, k: nat, q: char)
    requires HoldsElement(rx, k, q) && IsQuote(q)
    ensures Bar(rx, k, false, 1) == Bar(rx, k + 44, false, 1)
  {
    hide ElementRx, RangeEnd, Bar;
    ElementChars(q);
    ElementRanges(rx, k, q);
    var e := ElementRx(q);
    assert forall i :: 0 <= i < 44 ==> CharAt(rx, k + i) == e[i];
    assert CharAt(rx, k) == '\\' && CharAt(rx, k + 2) == '[' && CharAt(rx, k + 14) == '|' && CharAt(rx, k + 15) == '\\';
    assert CharAt(rx, k + 17) == 'u' && CharAt(rx, k + 18) == '[' && CharAt(rx, k + 29) == '{' && CharAt(rx, k + 30) == '4';
    assert CharAt(rx, k + 31) == '}' && CharAt(rx, k + 32) == '|' && CharAt(rx, k + 33) == '[';
    BarOverEscape(rx, k);
    BarOverCode(rx, k + 15);
    BarOverOther(rx, k + 33);
  }

  lemma BarOverEscape(rx: string, k: nat)
    requires CharAt(rx, k) == '\\' && CharAt(rx, k + 2) == '[' && RangeEnd(rx, k + 3) == k + 13 && CharAt(rx, k + 14) == '|'
    ensures Bar(rx, k, false, 1) == Bar(rx, k + 15, false, 1)
  {
    hide RangeEnd;
    BarPastRange(rx, k + 3, 1);
    assert Bar(rx, k, false, 1) == Bar(rx, k + 2, false, 1) == Bar(rx, k + 3, true, 1) == Bar(rx, k + 14, false, 1);
  }

  lemma BarOverCode(rx: string, k: nat)
    requires CharAt(rx, k) == '\\' && CharAt(rx, k + 2) == 'u' && CharAt(rx, k + 3) == '[' && RangeEnd(rx, k + 4) == k + 13
    requires CharAt(rx, k + 14) == '{' && CharAt(rx, k + 15) == '4' && CharAt(rx, k + 16) == '}' && CharAt(rx, k + 17) == '|'
    ensures Bar(rx, k, false, 1) == Bar(rx, k + 18, false, 1)
  {
    hide RangeEnd;
    BarPastRange(rx, k + 4, 1);
    assert Bar(rx, k, false, 1) == Bar(rx, k + 2, false, 1) == Bar(rx, k + 3, false, 1) == Bar(rx, k + 4, true, 1);
    assert Bar(rx, k + 4, true, 1) == Bar(rx, k + 14, false, 1) == Bar(rx, k + 15, false, 1) == Bar(rx, k + 16, false, 1);
    assert Bar(rx, k + 16, false, 1) == Bar(rx, k + 17, false, 1) == Bar(rx, k + 18, false, 1);
  }

  lemma BarOverOther(rx: string, k: nat)
    requires CharAt(rx, k) == '[' && RangeEnd(rx, k + 1) == k + 10
    ensures Bar(rx, k, false, 1) == Bar(rx, k + 11, false, 1)
  {
    hide RangeEnd;
    BarPastRange(rx, k + 1, 1);
  }

  lemma GroupOverElement(rx: string, k: nat, q: char)
    requires k > 0 && HoldsElement(rx, k, q) && IsQuote(q)
    ensures GroupEnd(rx, k, false, 0) == GroupEnd(rx, k + 44, false, 0)
  {
    hide ElementRx, RangeEnd;
    ElementChars(q);
    ElementRanges(rx, k, q);
    var e := ElementRx(q);
    assert forall i :: 0 <= i < 44 ==> CharAt(rx, k + i) == e[i];
    assert CharAt(rx, k) == '\\' && CharAt(rx, k + 2) == '[' && CharAt(rx, k + 14) == '|' && CharAt(rx, k + 15) == '\\';
    assert CharAt(rx, k + 17) == 'u' && CharAt(rx, k + 18) == '[' && CharAt(rx, k + 29) == '{' && CharAt(rx, k + 30) == '4';
    assert CharAt(rx, k + 31) == '}' && CharAt(rx, k + 32) == '|' && CharAt(rx, k + 33) == '[';
    GroupPastRange(rx, k + 3, 0);
    GroupPastRange(rx, k + 19, 0);
    GroupPastRange(rx, k + 34, 0);
    assert GroupEnd(rx, k, false, 0) == GroupEnd(rx, k + 2, false, 0) == GroupEnd(rx, k + 3, true, 0) == GroupEnd(rx, k + 14, false, 0);
    assert GroupEnd(rx, k + 14, false, 0) == GroupEnd(rx, k + 15, false, 0) == GroupEnd(rx, k + 17, false, 0);
    assert GroupEnd(rx, k + 17, false, 0) == GroupEnd(rx, k + 18, false, 0) == GroupEnd(rx, k + 19, true, 0);
    assert GroupEnd(rx, k + 19, true, 0) == GroupEnd(rx, k + 29, false, 0) == GroupEnd(rx, k + 30, false, 0);
    assert GroupEnd(rx, k + 30, false, 0) == GroupEnd(rx, k + 31, false, 0) == GroupEnd(rx, k + 32, false, 0);
    assert GroupEnd(rx, k + 32, false, 0) == GroupEnd(rx, k + 33, false, 0) == GroupEnd(rx, k + 34, true, 0);
    assert GroupEnd(rx, k + 34, true, 0) == GroupEnd(rx, k + 44, false, 0);
  }

  /** The group, as often as it takes an element. */
  lemma {:induction false} BodyTimes(q: char, text: string, at: nat, count: nat)
    requires at <= |text| && IsQuote(q)
    ensures Times('(', ElementRx(q), text, at, count, 0, 0) == Hit(Djan.StrBody(text[at..], q))
    decreases |text| - at
  {
    hide ElementRx, RegAlt;
    ElementTakes(q, text, at);
    var t := text[at..];
    var n := Djan.StrElement(t, q);
    assert PieceAnswer('(', ElementRx(q), text, at) == AnswerOf(n);
    if n > 0 {
      assert t[n..] == text[at + n..];
      BodyTimes(q, text, at + n, count + 1);
    }
  }

  lemma QuotePiece(q: char, text: string, at: nat)
    requires at <= |text| && IsQuote(q)
    ensures StrAnswer([q], text, at) == AnswerOf(if CharAt(text, at) == q then 1 else 0)
    ensures StrEnd([q], 0) == Some(1)
  {
    if CharAt(text, at) == q { assert Plain([q], 0, text, at) == Plain([q], 1, text, at + 1) == Some(at + 1); }
    assert StrEnd([q], 0) == StrEnd([q], 1);
  }

  lemma GroupShape(q: char)
    requires IsQuote(q)
    ensures
      var rx := GroupRx(q);
      && |rx| == 48 && rx[0] == '(' && Piece(rx) == Some((ElementRx(q), 46)) && rx[47..] == [q]
      && Quantified(rx[46..]) == Some(Bounds(1, 0, 0))
  {
    hide ElementRx;
    var rx := GroupRx(q);
    ElementChars(q);
    assert HoldsElement(rx, 1, q) && rx[45] == ')' && rx[46] == '*' && rx[47..] == [q] && rx[1..45] == ElementRx(q);
    GroupOverElement(rx, 1, q);
    assert GroupEnd(rx, 1, false, 0) == GroupEnd(rx, 45, false, 0) == 45;
    assert CharAt(rx[46..], 0) == '*';
  }

  /** What follows the opening quote. */
  lemma GroupTakes(q: char, text: string, at: nat)
    requires at <= |text| && IsQuote(q)
    ensures
      var n := Djan.StrBody(text[at..], q);
      RegSeq(GroupRx(q), text, at, true) == if CharAt(text, at + n) == q then Hit(n + 1) else Miss
  {
    hide ElementRx, GroupRx, Times, RegSeq, StrAnswer, StrEnd, Piece, Quantified, Djan.StrBody;
    GroupShape(q);
    TimesFirst(GroupRx(q), ElementRx(q), 46, Bounds(1, 0, 0), text, at, true);
    BodyTimes(q, text, at, 0);
    var n := Djan.StrBody(text[at..], q);
    QuoteLast(q, text, at + n);
  }

  lemma QuoteLast(q: char, text: string, at: nat)
    requires at <= |text| && IsQuote(q)
    ensures RegSeq([q], text, at, true) == AnswerOf(if CharAt(text, at) == q then 1 else 0)
  {
    hide RegSeq, StrAnswer, StrEnd;
    QuotePiece(q, text, at);
    PlainFirst([q], 1, text, at, true);
    assert [q][..1] == [q] && [q][1..] == [];
    if CharAt(text, at) == q { SeqEnd(text, at + 1); }
  }

  /** The regexes of _string and _sqstring take what Djan.Quoted takes. */
  lemma StringTakes(q: char, text: string, off: nat)
    requires off <= |text| && IsQuote(q)
    ensures
      RegAlt(StringRx(q), text, off)
      == match Djan.Quoted(text[off..], q) case Fail => Miss case Got(body, rest) => Hit(|body| + 2)
  {
    hide GroupRx, StringRx, RegSeq, RegAlt, StrAnswer, StrEnd, Bar, Djan.StrBody, Djan.Quoted;
    var rx := StringRx(q);
    StringShape(q);
    AltOnly(rx, text, off);
    PlainFirst(rx, 1, text, off, false);
    QuotePiece(q, text, off);
    if CharAt(text, off) == q {
      GroupTakes(q, text, off + 1);
    }
    QuotedIs(q, text, off);
  }

  lemma QuotedIs(q: char, text: string, off: nat)
    requires off <= |text| && IsQuote(q)
    ensures
      Djan.Quoted(text[off..], q).Got?
      <==> CharAt(text, off) == q && CharAt(text, off + 1 + Djan.StrBody(text[off + 1..], q)) == q
    ensures Djan.Quoted(text[off..], q).Got? ==> |Djan.Quoted(text[off..], q).v| == Djan.StrBody(text[off + 1..], q)
  {
    hide Djan.StrBody;
    if off < |text| {
      assert text[off..][1..] == text[off + 1..];
      var u, n := text[off + 1..], Djan.StrBody(text[off + 1..], q);
      assert u[n..] != [] ==> u[n..][0] == u[n] == text[off + 1 + n];
    }
  }

  lemma StringShape(q: char)
    requires IsQuote(q)
    ensures
      var rx := StringRx(q);
      && Bar(rx, 0, false, 0) == |rx| && |rx| == 49 && rx[0] == q && StrEnd(rx, 0) == Some(1) && rx[..1] == [q] && rx[1] == '('
      && rx[1..] == GroupRx(q)
  {
    hide ElementRx;
    var rx := StringRx(q);
    ElementChars(q);
    assert rx[0] == q && rx[1] == '(' && rx[46] == ')' && rx[47] == '*' && rx[48] == q && |rx| == 49 && HoldsElement(rx, 2, q);
    BarOverElement(rx, 2, q);
    assert Bar(rx, 0, false, 0) == Bar(rx, 1, false, 0) == Bar(rx, 2, false, 1) == Bar(rx, 46, false, 1);
    assert Bar(rx, 46, false, 1) == Bar(rx, 47, false, 0) == Bar(rx, 48, false, 0) == Bar(rx, 49, false, 0) == 49;
    assert StrEnd(rx, 0) == StrEnd(rx, 1) == Some(1);
    assert rx[..1] == [q];
  }

  // --- runs of one class -----------------------------------------------------------------------------------------

  /** What a range takes, `^` aside the characters of its class. */
  predicate Takes(piece: string, c: char) {
    c != NUL && if CharAt(piece, 0) == '^' then !InRange(piece[1..], c) else InRange(piece, c)
  }

  function Run(piece: string, t: string): (n: nat)
    ensures n <= |t|
  {
    if t != [] && Takes(piece, t[0]) then 1 + Run(piece, t[1..]) else 0
  }

  lemma {:induction false} RunTimes(piece: string, text: string, at: nat, count: nat, min: nat)
    requires at <= |text| && piece != [] && piece[0] != '$' && piece[0] != '.' && min <= 1
    ensures
      var n := Run(piece, text[at..]);
      Times('[', piece, text, at, count, min, 0) == if count + n < min then Miss else Hit(n)
    decreases |text| - at
  {
    hide InRange;
    var c := CharAt(text, at);
    assert PieceAnswer('[', piece, text, at) == AnswerOf(if Takes(piece, c) then 1 else 0);
    if Takes(piece, c) {
      assert text[at..][1..] == text[at + 1..];
      RunTimes(piece, text, at + 1, count + 1, min);
    }
  }

  /** A range under `*` or `+`, then the rest. */
  lemma ClassFirst(rx: string, piece: string, text: string, at: nat, any: bool)
    requires at <= |text| && |rx| > |piece| + 2 && rx[0] == '[' && rx[1..|piece| + 1] == piece && RangeEnd(rx, 1) == |piece| + 1
    requires rx[|piece| + 2] in "*+" && piece != [] && piece[0] != '$' && piece[0] != '.'
    ensures
      var n := Run(piece, text[at..]);
      RegSeq(rx, text, at, any)
      == if n == 0 && rx[|piece| + 2] == '+' then Miss else Then(n, RegSeq(rx[|piece| + 3..], text, at + n, true))
  {
    hide RegSeq, RangeEnd, Times, Run;
    var z := |piece| + 2;
    assert CharAt(rx[z..], 0) == rx[z];
    assert Piece(rx) == Some((piece, z));
    var min := if rx[z] == '+' then 1 else 0;
    TimesFirst(rx, piece, z, Bounds(1, min, 0), text, at, any);
    RunTimes(piece, text, at, 0, min);
    assert rx[z..][1..] == rx[z + 1..];
  }

  /** Nothing but a range under `+`. */
  lemma ClassTakes(rx: string, piece: string, text: string, off: nat)
    requires off <= |text| && rx == "[" + piece + "]+" && RangeEnd(rx, 1) == |piece| + 1
    requires piece != [] && piece[0] != '$' && piece[0] != '.'
    ensures RegAlt(rx, text, off) == AnswerOf(Run(piece, text[off..]))
  {
    hide RegSeq, RegAlt, RangeEnd, Run;
    var z := |piece| + 1;
    assert rx[0] == '[' && rx[1..z] == piece && rx[z] == ']' && rx[z + 1] == '+' && |rx| == z + 2 && rx[z + 2..] == [];
    BarPastRange(rx, 1, 0);
    assert Bar(rx, 0, false, 0) == Bar(rx, 1, true, 0) == Bar(rx, z + 1, false, 0) == Bar(rx, z + 2, false, 0) == z + 2;
    hide Bar;
    AltOnly(rx, text, off);
    ClassFirst(rx, piece, text, off, false);
    SeqEnd(text, off + Run(piece, text[off..]));
  }

  lemma {:induction false} DoubledAt(cls: string, k: nat)
    requires k + 1 < |cls| && cls[k] == cls[k + 1] == '\\'
    ensures Doubled(cls)
  {
    if k > 0 { DoubledAt(cls[1..], k - 1); }
  }

  lemma {:induction false} NotDoubled(cls: string)
    requires forall k :: 0 <= k < |cls| - 1 ==> cls[k] != '\\' || cls[k + 1] != '\\'
    ensures !Doubled(cls)
  {
    if cls != [] { NotDoubled(cls[1..]); }
  }

  // --- symbols and comments --------------------------------------------------------------------------------------

  const CORE_CLASS := ['^', ':', ' ', BS, FF, '\n', '\r', '\t', '"', '\'', ','] + "\\(\\)\\[\\]\\{\\}#\\\\"
  const CORE_RX := "[" + CORE_CLASS + "]+"
  const DOL_CLASS := "^ \r\n\t\\)"
  const DOL_RX := "[" + DOL_CLASS + "]+"
  const LINE_CLASS := "^\r\n"

  lemma CoreChars(cls: string)
    requires cls == CORE_CLASS
    ensures |cls| == 26 && cls[0] == '^' && cls[24] == cls[25] == '\\' && cls[11] == cls[13] == cls[15] == cls[17] == '\\'
    ensures cls[19] == cls[21] == '\\' && cls[23] == '#' && cls[12] == '(' && cls[14] == ')' && cls[16] == '[' && cls[18] == ']'
    ensures cls[20] == '{' && cls[22] == '}'
    ensures forall k :: 1 <= k < 11 ==> cls[k] == [':', ' ', BS, FF, '\n', '\r', '\t', '"', '\'', ','][k - 1]
  {
  }

  lemma CoreClass(c: char)
    ensures Takes(CORE_CLASS, c) <==> Djan.IsCore(c)
  {
    hide InRange, Doubled;
    var cls := CORE_CLASS[1..];
    CoreChars(CORE_CLASS);
    Letters(cls, c);
    DoubledAt(cls, 23);
    if c != '\\' && c != NUL { CoreLetters(c); }
  }

  lemma CoreLetters(c: char)
    requires c != '\\' && c != NUL
    ensures c in CORE_CLASS[1..] <==> !Djan.IsCore(c)
  {
    var cls := CORE_CLASS;
    CoreChars(cls);
    assert forall k :: 0 <= k < 25 ==> cls[1..][k] == cls[k + 1];
    if !Djan.IsCore(c) {
      var few := [':', ' ', BS, FF, '\n', '\r', '\t', '"', '\'', ','];
      if c in few {
        var k :| 0 <= k < 10 && few[k] == c;
        assert cls[1..][k] == c;
      } else {
        assert cls[1..][11] == '(' && cls[1..][13] == ')' && cls[1..][15] == '[' && cls[1..][17] == ']' && cls[1..][19] == '{';
        assert cls[1..][21] == '}' && cls[1..][22] == '#';
      }
    }
  }

  lemma {:induction false} CoreRun(t: string)
    ensures Run(CORE_CLASS, t) == Djan.Core(t)
  {
    hide Takes;
    if t != [] {
      CoreClass(t[0]);
      CoreRun(t[1..]);
    }
  }

  /** The regex of _symcore takes what Djan.Core takes. */
  lemma CoreTakes(text: string, off: nat)
    requires off <= |text|
    ensures RegAlt(CORE_RX, text, off) == AnswerOf(Djan.Core(text[off..]))
  {
    hide RegAlt, Run, Djan.Core, RangeEnd;
    CoreShape(CORE_RX);
    CoreRun(text[off..]);
    ClassTakes(CORE_RX, CORE_CLASS, text, off);
  }

  lemma CoreShape(rx: string)
    requires rx == CORE_RX
    ensures RangeEnd(rx, 1) == |CORE_CLASS| + 1 && CORE_CLASS[0] == '^'
  {
    var cls := CORE_CLASS;
    CoreChars(cls);
    assert forall k :: 0 <= k < 26 ==> rx[k + 1] == cls[k];
    assert forall k :: 1 <= k < 12 ==> rx[k] == cls[k - 1] && rx[k] != NUL && rx[k] != '\\' && rx[k] != ']';
    RangeEndPast(rx, 1, 12);
    assert rx[12] == rx[14] == rx[16] == rx[18] == rx[20] == rx[22] == rx[25] == '\\' && rx[24] == '#' && rx[27] == ']';
    assert RangeEnd(rx, 12) == RangeEnd(rx, 14) == RangeEnd(rx, 16) == RangeEnd(rx, 18) == RangeEnd(rx, 20) == RangeEnd(rx, 22);
    assert RangeEnd(rx, 22) == RangeEnd(rx, 24) == RangeEnd(rx, 25) == RangeEnd(rx, 27) == 27;
  }

  lemma DolClass(c: char)
    ensures Takes(DOL_CLASS, c) <==> c !in [' ', '\r', '\n', '\t', ')', NUL]
  {
    hide InRange, Doubled;
    var cls := DOL_CLASS[1..];
    assert cls == " \r\n\t\\)";
    Letters(cls, c);
    NotDoubled(cls);
  }

  lemma {:induction false} DolRun(t: string)
    ensures Run(DOL_CLASS, t) == Djan.DolName(t)
  {
    hide Takes;
    if t != [] {
      DolClass(t[0]);
      DolRun(t[1..]);
    }
  }

  /** The regex of _dol takes what Djan.DolName takes. */
  lemma DolTakes(text: string, off: nat)
    requires off <= |text|
    ensures RegAlt(DOL_RX, text, off) == AnswerOf(Djan.DolName(text[off..]))
  {
    hide RegAlt, Run, Djan.DolName, RangeEnd;
    DolShape();
    DolRun(text[off..]);
    ClassTakes(DOL_RX, DOL_CLASS, text, off);
  }

  lemma DolShape()
    ensures RangeEnd(DOL_RX, 1) == |DOL_CLASS| + 1 && DOL_CLASS[0] == '^'
  {
    var rx := DOL_RX;
    RangeEndPast(rx, 1, 6);
    assert RangeEnd(rx, 6) == RangeEnd(rx, 8) == 8;
  }

  lemma LineClass(c: char)
    ensures Takes(LINE_CLASS, c) <==> c !in ['\r', '\n', NUL]
  {
    hide InRange, Doubled;
    var cls := LINE_CLASS[1..];
    assert cls == "\r\n";
    Letters(cls, c);
    NotDoubled(cls);
  }

  lemma {:induction false} LineRun(t: string)
    requires forall k :: 0 <= k < |t| ==> t[k] != NUL
    ensures t[Run(LINE_CLASS, t)..] == Djan.SkipLine(t)
  {
    hide Takes;
    if t != [] {
      LineClass(t[0]);
      LineRun(t[1..]);
      if Takes(LINE_CLASS, t[0]) { assert t[1 + Run(LINE_CLASS, t[1..])..] == t[1..][Run(LINE_CLASS, t[1..])..]; }
    }
  }

  const REST_RX := "[" + LINE_CLASS + "]*"

  /** Up to the end of the line. */
  lemma RestTakes(text: string, at: nat)
    requires at <= |text|
    ensures RegSeq(REST_RX, text, at, true) == Hit(Run(LINE_CLASS, text[at..]))
  {
    hide RegSeq, Run;
    var rx := REST_RX;
    RangeEndAt(rx, 1, 4);
    assert rx[1..4] == LINE_CLASS && rx[6..] == [];
    ClassFirst(rx, LINE_CLASS, text, at, true);
    SeqEnd(text, at + Run(LINE_CLASS, text[at..]));
  }

  /** The regexes of _shacom and _slacom: a mark, and the rest of the line. */
  lemma CommentTakes(mark: string, text: string, off: nat)
    requires off <= |text| && (mark == "#" || mark == "//")
    ensures
      RegAlt(mark + REST_RX, text, off)
      == if mark <= text[off..] then Hit(|mark| + Run(LINE_CLASS, text[off + |mark|..])) else Miss
  {
    hide RegAlt, RegSeq, Run;
    var rx, n := mark + REST_RX, |mark|;
    assert REST_RX == "[^\r\n]*";
    assert |rx| == n + 6 && rx[n] == '[' && rx[n + 1] == '^' && rx[n + 2] == '\r' && rx[n + 3] == '\n' && rx[n + 4] == ']';
    assert rx[n + 5] == '*' && rx[..n] == mark && rx[n..] == REST_RX && rx[0] == mark[0] && rx[n - 1] == mark[n - 1];
    CommentShape(rx, n);
    AltOnly(rx, text, off);
    PlainFirst(rx, n, text, off, false);
    MarkPiece(mark, text, off);
    if mark <= text[off..] { RestTakes(text, off + n); }
  }

  lemma CommentShape(rx: string, n: nat)
    requires 0 < n <= 2 && |rx| == n + 6 && rx[0] in "#/" && rx[n - 1] in "#/" && rx[n] == '[' && rx[n + 1] == '^'
    requires rx[n + 2] == '\r' && rx[n + 3] == '\n' && rx[n + 4] == ']' && rx[n + 5] == '*'
    ensures Bar(rx, 0, false, 0) == |rx| && StrEnd(rx, 0) == Some(n)
  {
    RangeEndAt(rx, n + 1, n + 4);
    BarPastRange(rx, n + 1, 0);
    assert Bar(rx, 0, false, 0) == Bar(rx, n, false, 0) == Bar(rx, n + 1, true, 0) == Bar(rx, n + 5, false, 0) == |rx|;
    assert StrEnd(rx, 0) == StrEnd(rx, n) == Some(n);
  }

  lemma MarkPiece(mark: string, text: string, off: nat)
    requires off <= |text| && (mark == "#" || mark == "//")
    ensures StrAnswer(mark, text, off) == if mark <= text[off..] then Hit(|mark|) else Miss
  {
    var t, c := text[off..], mark[0];
    assert mark <= t <==> |t| >= |mark| && forall k :: 0 <= k < |mark| ==> text[off + k] == mark[k];
    if CharAt(text, off) == c {
      assert Plain(mark, 0, text, off) == Plain(mark, 1, text, off + 1);
      if |mark| == 2 && CharAt(text, off + 1) == '/' {
        assert Plain(mark, 1, text, off + 1) == Plain(mark, 2, text, off + 2) == Some(off + 2);
      }
    }
  }

  /** The regex of _pbend. */
  lemma BraceTakes(text: string, off: nat)
    requires off <= |text|
    ensures RegAlt("}", text, off) == AnswerOf(if CharAt(text, off) == '}' then 1 else 0)
  {
    var rx := "}";
    assert Bar(rx, 0, false, 0) == Bar(rx, 1, false, 0) == 1 && StrEnd(rx, 0) == StrEnd(rx, 1) == Some(1);
    assert StrAnswer(rx, text, off) == AnswerOf(if CharAt(text, off) == '}' then 1 else 0) by {
      if CharAt(text, off) == '}' { assert Plain(rx, 0, text, off) == Plain(rx, 1, text, off + 1) == Some(off + 1); }
    }
    hide RegAlt, RegSeq, Bar, StrEnd, StrAnswer;
    AltOnly(rx, text, off);
    assert rx[..1] == rx && rx[1..] == [];
    PlainFirst(rx, 1, text, off, false);
    if CharAt(text, off) == '}' { SeqEnd(text, off + 1); }
  }

  // --- numbers ---------------------------------------------------------------------------------------------------

  const DIGITS_RX := "[0-9]+"
  const FRACTION_RX := "\\.[0-9]+"
  const EXPONENT_RX := "[eE][+-]?[0-9]+"
  const NUMBER_RX := "-?[0-9]+(" + FRACTION_RX + ")?(" + EXPONENT_RX + ")?"

  lemma DigitClass(c: char)
    ensures InRange("0-9", c) <==> IsDigit(c)
  {
    hide InRange;
    assert "0-9"[2..] == "9";
    SpanOf("0-9", c);
    Letters("9", c);
  }

  lemma {:induction false} DigitRun(t: string)
    ensures Run("0-9", t) == Djan.Digits(t)
  {
    if t != [] {
      DigitClass(t[0]);
      DigitRun(t[1..]);
    }
  }

  /** Digits, one at least, then the rest. */
  lemma DigitsFirst(rx: string, text: string, at: nat, any: bool)
    requires at <= |text| && |rx| >= 6 && rx[..6] == DIGITS_RX
    ensures
      var n := Djan.Digits(text[at..]);
      RegSeq(rx, text, at, any) == if n == 0 then Miss else Then(n, RegSeq(rx[6..], text, at + n, true))
  {
    hide RegSeq, Djan.Digits;
    assert forall k :: 0 <= k < 6 ==> rx[k] == DIGITS_RX[k];
    RangeEndAt(rx, 1, 4);
    assert rx[1..4] == "0-9";
    ClassFirst(rx, "0-9", text, at, any);
    DigitRun(text[at..]);
  }

  lemma DotPiece(text: string, off: nat)
    requires off <= |text|
    ensures StrAnswer("\\.", text, off) == AnswerOf(if CharAt(text, off) == '.' then 1 else 0)
  {
    if CharAt(text, off) == '.' { assert Plain("\\.", 0, text, off) == Plain("\\.", 2, text, off + 1) == Some(off + 1); }
  }

  lemma FractionShape()
    ensures
      var rx := FRACTION_RX;
      && Bar(rx, 0, false, 0) == 8 == |rx| && rx[0] == '\\' && StrEnd(rx, 0) == Some(2) && rx[..2] == "\\." && rx[2] == '['
      && rx[2..] == DIGITS_RX
  {
    var rx := FRACTION_RX;
    RangeEndAt(rx, 3, 6);
    BarPastRange(rx, 3, 0);
    assert Bar(rx, 0, false, 0) == Bar(rx, 2, false, 0) == Bar(rx, 3, true, 0) == Bar(rx, 7, false, 0) == Bar(rx, 8, false, 0) == 8;
    assert StrEnd(rx, 0) == StrEnd(rx, 2) == Some(2);
  }

  /** The whole of a regex that is digits. */
  lemma DigitsOnly(text: string, at: nat)
    requires at <= |text|
    ensures
      var n := Djan.Digits(text[at..]);
      RegSeq(DIGITS_RX, text, at, true) == AnswerOf(n)
  {
    hide RegSeq, Djan.Digits;
    assert DIGITS_RX[6..] == [] && DIGITS_RX[..6] == DIGITS_RX;
    DigitsFirst(DIGITS_RX, text, at, true);
    SeqEnd(text, at + Djan.Digits(text[at..]));
  }

  lemma FractionTakes(text: string, at: nat)
    requires at <= |text|
    ensures RegAlt(FRACTION_RX, text, at) == AnswerOf(Djan.Fraction(text[at..]))
  {
    hide RegAlt, RegSeq, StrAnswer, StrEnd, Bar, Djan.Digits;
    var rx := FRACTION_RX;
    FractionShape();
    AltOnly(rx, text, at);
    PlainFirst(rx, 2, text, at, false);
    DotPiece(text, at);
    if CharAt(text, at) == '.' {
      assert text[at..][1..] == text[at + 1..];
      DigitsOnly(text, at + 1);
    }
  }

  /** A range under `?`, then the rest. */
  lemma MaybeFirst(rx: string, z: nat, text: string, at: nat, any: bool)
    requires at <= |text| && |rx| > z + 1 && rx[0] == '[' && RangeEnd(rx, 1) == z && z > 1 && rx[z + 1] == '?'
    requires rx[1] != '$' && rx[1] != '^' && rx[1] != '.'
    ensures
      var n := if CharAt(text, at) != NUL && InRange(rx[1..z], CharAt(text, at)) then 1 else 0;
      RegSeq(rx, text, at, any) == Then(n, RegSeq(rx[z + 2..], text, at + n, true))
  {
    hide RegSeq, InRange, RangeEnd;
    assert CharAt(rx[z + 1..], 0) == '?';
    assert Piece(rx) == Some((rx[1..z], z + 1));
    TimesFirst(rx, rx[1..z], z + 1, Bounds(1, 0, 1), text, at, any);
    assert rx[1..z][0] == rx[1];
  }

  lemma ExponentShape()
    ensures
      var rx := EXPONENT_RX;
      && Bar(rx, 0, false, 0) == 15 == |rx| && RangeEnd(rx, 1) == 3 && rx[1..3] == "eE" && rx[4..] == "[+-]?[0-9]+"
  {
    var rx := EXPONENT_RX;
    hide Bar;
    RangeEndAt(rx, 1, 3);
    RangeEndAt(rx, 5, 7);
    RangeEndAt(rx, 10, 13);
    BarPastRange(rx, 1, 0);
    BarPastRange(rx, 5, 0);
    BarPastRange(rx, 10, 0);
    ExponentBars();
  }

  lemma ExponentBars()
    ensures
      var rx := EXPONENT_RX;
      && Bar(rx, 0, false, 0) == Bar(rx, 1, true, 0) && Bar(rx, 4, false, 0) == Bar(rx, 5, true, 0)
      && Bar(rx, 8, false, 0) == Bar(rx, 10, true, 0) && Bar(rx, 14, false, 0) == 15
  {
    var rx := EXPONENT_RX;
    assert Bar(rx, 8, false, 0) == Bar(rx, 9, false, 0);
    assert Bar(rx, 14, false, 0) == Bar(rx, 15, false, 0);
  }

  lemma SignedShape()
    ensures
      var rx := "[+-]?[0-9]+";
      RangeEnd(rx, 1) == 3 && rx[1..3] == "+-" && rx[4] == '?' && rx[5..] == DIGITS_RX && |rx| == 11
  {
    RangeEndAt("[+-]?[0-9]+", 1, 3);
  }

  lemma SignClass(c: char)
    ensures InRange("+-", c) <==> c == '+' || c == '-'
  {
    assert RngNext("+-") == (1, '+', '+') && "+-"[1..] == "-" && RngNext("-") == (1, '-', '-') && "-"[1..] == "";
    assert InRange("+-", c) == (c == '+' || InRange("-", c));
    assert InRange("-", c) == (c == '-' || InRange("", c));
  }

  /** A sign, maybe, and digits. */
  lemma SignedTakes(text: string, at: nat)
    requires at <= |text|
    ensures
      var sign := if CharAt(text, at) == '+' || CharAt(text, at) == '-' then 1 else 0;
      var n := Djan.Digits(text[at + sign..]);
      RegSeq("[+-]?[0-9]+", text, at, true) == if n == 0 then Miss else Hit(sign + n)
  {
    hide RegSeq, InRange, RangeEnd, Djan.Digits;
    SignedShape();
    SignClass(CharAt(text, at));
    MaybeFirst("[+-]?[0-9]+", 3, text, at, true);
    var sign := if CharAt(text, at) == '+' || CharAt(text, at) == '-' then 1 else 0;
    DigitsOnly(text, at + sign);
  }

  lemma ExponentTakes(text: string, at: nat)
    requires at <= |text|
    ensures RegAlt(EXPONENT_RX, text, at) == AnswerOf(Djan.Exponent(text[at..]))
  {
    hide RegAlt, RegSeq, InRange, RangeEnd, Bar, Djan.Digits, Djan.Exponent;
    var rx, c := EXPONENT_RX, CharAt(text, at);
    ExponentShape();
    AltOnly(rx, text, at);
    RangeFirst(rx, 3, text, at, false);
    Letters("eE", c);
    ExponentIs(text, at);
    if c == 'e' || c == 'E' { SignedTakes(text, at + 1); }
  }

  lemma ExponentIs(text: string, at: nat)
    requires at <= |text|
    ensures
      var c, d := CharAt(text, at), CharAt(text, at + 1);
      if c == 'e' || c == 'E' then
        var sign := if d == '+' || d == '-' then 1 else 0;
        var n := Djan.Digits(text[at + 1 + sign..]);
        Djan.Exponent(text[at..]) == if n == 0 then 0 else 1 + sign + n
      else Djan.Exponent(text[at..]) == 0
  {
    hide Djan.Digits;
    var t := text[at..];
    if at < |text| { assert t[1..] == text[at + 1..]; }
    if at + 1 < |text| { assert t[2..] == text[at + 2..]; }
  }

  /** A group under `?`, then the rest. */
  lemma MaybeGroup(rx: string, inner: string, text: string, at: nat, any: bool)
    requires at <= |text| && |rx| >= |inner| + 3 && rx[0] == '(' && rx[1..|inner| + 1] == inner
    requires GroupEnd(rx, 1, false, 0) == |inner| + 1 && rx[|inner| + 2] == '?' && RegAlt(inner, text, at) != Err
    ensures
      var a := RegAlt(inner, text, at);
      var n := if a.Hit? then a.length else 0;
      RegSeq(rx, text, at, any) == Then(n, RegSeq(rx[|inner| + 3..], text, at + n, true))
  {
    hide RegSeq, RegAlt, GroupEnd;
    var z := |inner| + 2;
    assert CharAt(rx[z..], 0) == '?';
    assert Piece(rx) == Some((inner, z));
    TimesFirst(rx, inner, z, Bounds(1, 0, 1), text, at, any);
    assert rx[z..][1..] == rx[z + 1..];
  }

  lemma ExponentGroup(text: string, at: nat)
    requires at <= |text|
    ensures RegSeq("(" + EXPONENT_RX + ")?", text, at, true) == Hit(Djan.Exponent(text[at..]))
  {
    hide RegSeq, RegAlt, Djan.Exponent, GroupEnd;
    var rx := "(" + EXPONENT_RX + ")?";
    ExponentGroupShape();
    ExponentTakes(text, at);
    MaybeGroup(rx, EXPONENT_RX, text, at, true);
    SeqEnd(text, at + Djan.Exponent(text[at..]));
  }

  lemma ExponentGroupShape()
    ensures
      var rx := "(" + EXPONENT_RX + ")?";
      && |rx| == 18 && rx[0] == '(' && rx[1..16] == EXPONENT_RX && GroupEnd(rx, 1, false, 0) == 16 && rx[17] == '?'
      && rx[18..] == [] && |EXPONENT_RX| == 15
  {
    var rx := "(" + EXPONENT_RX + ")?";
    RangeEndAt(rx, 2, 4);
    RangeEndAt(rx, 6, 8);
    RangeEndAt(rx, 11, 14);
    GroupPastRange(rx, 2, 0);
    GroupPastRange(rx, 6, 0);
    GroupPastRange(rx, 11, 0);
    assert GroupEnd(rx, 1, false, 0) == GroupEnd(rx, 2, true, 0) == GroupEnd(rx, 5, false, 0) == GroupEnd(rx, 6, true, 0);
    assert GroupEnd(rx, 6, true, 0) == GroupEnd(rx, 9, false, 0) == GroupEnd(rx, 10, false, 0) == GroupEnd(rx, 11, true, 0);
    assert GroupEnd(rx, 11, true, 0) == GroupEnd(rx, 15, false, 0) == GroupEnd(rx, 16, false, 0) == 16;
  }

  const TAIL_RX := "(" + FRACTION_RX + ")?(" + EXPONENT_RX + ")?"

  lemma TailShape()
    ensures
      var rx := TAIL_RX;
      && |rx| == 29 && rx[0] == '(' && rx[1..9] == FRACTION_RX && GroupEnd(rx, 1, false, 0) == 9 && rx[10] == '?'
      && rx[11..] == "(" + EXPONENT_RX + ")?" && |FRACTION_RX| == 8
  {
    var rx := TAIL_RX;
    RangeEndAt(rx, 4, 7);
    GroupPastRange(rx, 4, 0);
    assert GroupEnd(rx, 1, false, 0) == GroupEnd(rx, 3, false, 0) == GroupEnd(rx, 4, true, 0) == GroupEnd(rx, 8, false, 0);
    assert GroupEnd(rx, 8, false, 0) == GroupEnd(rx, 9, false, 0) == 9;
  }

  /** What may follow the digits of a number. */
  lemma TailTakes(text: string, at: nat)
    requires at <= |text|
    ensures
      var n := Djan.Fraction(text[at..]);
      RegSeq(TAIL_RX, text, at, true) == Hit(n + Djan.Exponent(text[at + n..]))
  {
    hide RegSeq, RegAlt, Djan.Fraction, Djan.Exponent, GroupEnd;
    TailShape();
    FractionTakes(text, at);
    MaybeGroup(TAIL_RX, FRACTION_RX, text, at, true);
    ExponentGroup(text, at + Djan.Fraction(text[at..]));
  }

  /** The digits of a regex, from `k` on. */
  predicate DigitsAt(rx: string, k: nat) {
    && k + 6 <= |rx| && rx[k] == '[' && rx[k + 1] == '0' && rx[k + 2] == '-' && rx[k + 3] == '9' && rx[k + 4] == ']'
    && rx[k + 5] == '+'
  }

  lemma NumberChars(rx: string)
    requires rx == NUMBER_RX
    ensures
      && |rx| == 37 && rx[0] == '-' && rx[1] == '?' && rx[8] == '(' && rx[9] == '\\' && rx[17] == ')' && rx[18] == '?'
      && rx[19] == '(' && rx[20] == '[' && rx[21] == 'e' && rx[22] == 'E' && rx[23] == ']' && rx[24] == '[' && rx[25] == '+'
      && rx[26] == '-' && rx[27] == ']' && rx[28] == '?' && rx[35] == ')' && rx[36] == '?'
    ensures DigitsAt(rx, 2) && DigitsAt(rx, 11) && DigitsAt(rx, 29)
  {
  }

  lemma BarOverDigits(rx: string, k: nat, groups: nat)
    requires DigitsAt(rx, k)
    ensures Bar(rx, k, false, groups) == Bar(rx, k + 6, false, groups)
  {
    hide RangeEnd;
    RangeEndAt(rx, k + 1, k + 4);
    BarPastRange(rx, k + 1, groups);
    assert Bar(rx, k, false, groups) == Bar(rx, k + 1, true, groups) == Bar(rx, k + 5, false, groups);
  }

  lemma NumberBar(rx: string)
    requires rx == NUMBER_RX
    ensures Bar(rx, 0, false, 0) == 37
  {
    NumberChars(rx);
    BarOverDigits(rx, 2, 0);
    BarOverDigits(rx, 11, 1);
    BarOverDigits(rx, 29, 1);
    SignBar(rx, 20);
    BarSteps(rx);
  }

  /** The letter and the sign of an exponent. */
  lemma SignBar(rx: string, k: nat)
    requires |rx| > k + 8 && rx[k] == '[' && rx[k + 1] == 'e' && rx[k + 2] == 'E' && rx[k + 3] == ']' && rx[k + 4] == '['
    requires rx[k + 5] == '+' && rx[k + 6] == '-' && rx[k + 7] == ']' && rx[k + 8] == '?'
    ensures Bar(rx, k, false, 1) == Bar(rx, k + 9, false, 1)
  {
    hide RangeEnd;
    RangeEndAt(rx, k + 1, k + 3);
    RangeEndAt(rx, k + 5, k + 7);
    BarPastRange(rx, k + 1, 1);
    BarPastRange(rx, k + 5, 1);
    assert Bar(rx, k, false, 1) == Bar(rx, k + 1, true, 1) == Bar(rx, k + 4, false, 1) == Bar(rx, k + 5, true, 1);
    assert Bar(rx, k + 5, true, 1) == Bar(rx, k + 8, false, 1) == Bar(rx, k + 9, false, 1);
  }

  lemma BarSteps(rx: string)
    requires |rx| == 37 && rx[0] == '-' && rx[1] == '?' && rx[8] == '(' && rx[9] == '\\' && rx[17] == ')' && rx[18] == '?'
    requires rx[19] == '(' && rx[35] == ')' && rx[36] == '?'
    requires Bar(rx, 2, false, 0) == Bar(rx, 8, false, 0) && Bar(rx, 11, false, 1) == Bar(rx, 17, false, 1)
    requires Bar(rx, 20, false, 1) == Bar(rx, 29, false, 1) == Bar(rx, 35, false, 1)
    ensures Bar(rx, 0, false, 0) == 37
  {
    assert Bar(rx, 35, false, 1) == Bar(rx, 36, false, 0) == Bar(rx, 37, false, 0) == 37;
    assert Bar(rx, 17, false, 1) == Bar(rx, 18, false, 0) == Bar(rx, 19, false, 0) == Bar(rx, 20, false, 1);
    assert Bar(rx, 8, false, 0) == Bar(rx, 9, false, 1) == Bar(rx, 11, false, 1);
    assert Bar(rx, 0, false, 0) == Bar(rx, 1, false, 0) == Bar(rx, 2, false, 0);
  }

  lemma MinusFirst(rx: string, text: string, off: nat)
    requires off <= |text| && |rx| > 1 && rx[0] == '-' && rx[1] == '?'
    ensures
      var sign := if CharAt(text, off) == '-' then 1 else 0;
      RegSeq(rx, text, off, false) == Then(sign, RegSeq(rx[2..], text, off + sign, true))
  {
    hide RegSeq;
    assert StrEnd(rx, 0) == StrEnd(rx, 1) == Some(1);
    assert rx[..1] == "-" && CharAt(rx[1..], 0) == '?';
    assert StrAnswer("-", text, off) == AnswerOf(if CharAt(text, off) == '-' then 1 else 0) by {
      if CharAt(text, off) == '-' { assert Plain("-", 0, text, off) == Plain("-", 1, text, off + 1) == Some(off + 1); }
    }
    TimesFirst(rx, "-", 1, Bounds(1, 0, 1), text, off, false);
    assert rx[1..][1..] == rx[2..];
  }

  lemma SignlessTakes(rx: string, text: string, at: nat)
    requires at <= |text| && rx == DIGITS_RX + TAIL_RX
    ensures RegSeq(rx, text, at, true) == AnswerOf(Signless(text[at..]))
  {
    hide RegSeq, Djan.Digits, Djan.Fraction, Djan.Exponent;
    assert rx[..6] == DIGITS_RX && rx[6..] == TAIL_RX && |rx| == 35;
    DigitsFirst(rx, text, at, true);
    var t := text[at..];
    var a := Djan.Digits(t);
    TailTakes(text, at + a);
    assert t[a..] == text[at + a..];
    var n := Djan.Fraction(t[a..]);
    assert t[a + n..] == text[at + a + n..];
  }

  function Signless(t: string): (n: nat)
    ensures n <= |t|
  {
    var a := Djan.Digits(t);
    if a == 0 then 0 else
    var b := a + Djan.Fraction(t[a..]);
    b + Djan.Exponent(t[b..])
  }

  lemma NumberSplit(t: string, sign: nat)
    requires sign == if CharAt(t, 0) == '-' then 1 else 0
    ensures
      var n := Signless(t[sign..]);
      Djan.NumberLength(t) == if n == 0 then 0 else sign + n
  {
    hide Djan.Digits, Djan.Fraction, Djan.Exponent;
    var u := t[sign..];
    var a := Djan.Digits(u);
    assert u[a..] == t[sign + a..];
    var b := a + Djan.Fraction(u[a..]);
    assert u[b..] == t[sign + b..];
  }

  /** The regex of _number takes what Djan.NumberLength takes. */
  lemma NumberTakes(text: string, off: nat)
    requires off <= |text|
    ensures RegAlt(NUMBER_RX, text, off) == AnswerOf(Djan.NumberLength(text[off..]))
  {
    hide RegAlt, RegSeq, Bar, Signless, Djan.NumberLength, Djan.Digits, Djan.Fraction, Djan.Exponent;
    var rx := NUMBER_RX;
    NumberBar(rx);
    assert rx[0] == '-' && rx[1] == '?' && |rx| == 37 && rx[2..] == DIGITS_RX + TAIL_RX;
    AltOnly(rx, text, off);
    MinusFirst(rx, text, off);
    var sign := if CharAt(text, off) == '-' then 1 else 0;
    SignlessTakes(rx[2..], text, off + sign);
    var t := text[off..];
    assert t[sign..] == text[off + sign..];
    NumberSplit(t, sign);
  }
}
