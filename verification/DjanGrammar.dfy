/** The grammar of djan, rule by rule, run by the combinators: it takes exactly what the functions of module Djan take. */
module DjanGrammar {
  import Values
  import opened Grammars
  import Combinators
  import Djan
  import Lexemes

  // --- the rules -------------------------------------------------------------------------------------------------

  function Ws(): Grammar { Rng(" \t") }

  function Rn(): Grammar { Rng("\r\n") }

  function Com(): Grammar { Alt(false, [Rex("#" + Lexemes.REST_RX), Rex("//" + Lexemes.REST_RX)]) }

  function Eol(): Grammar { Seq([Item(Ws(), Star), Item(Com(), Qmark), Item(Rn(), Star)]) }

  function Postval(): Grammar { Seq([Item(Eol(), Star)]) }

  function Sep(): Grammar { Seq([Item(Str(","), Qmark), Item(Postval(), One)]) }

  function StringOf(q: char): Grammar { Named(if q == '"' then "string" else "sqstring", Rex(Lexemes.StringRx(q))) }

  function SymDol(): Grammar { Seq([Item(Str("$("), One), Item(Rex(Lexemes.DOL_RX), One), Item(Str(")"), One)]) }

  function SymCore(): Grammar { Rex(Lexemes.CORE_RX) }

  /** _symelt, or _symeltk. */
  function SymElt(colon: bool): Grammar {
    Alt(false, if colon then [SymDol(), SymCore(), Str(":")] else [SymDol(), SymCore()])
  }

  /** _symbol, or _symbolk. */
  function Symbol(colon: bool): Grammar { Named(if colon then "symbol" else "symbolk", Rep(SymElt(colon), 1, 0)) }

  function Number(): Grammar { Named("number", Rex(Lexemes.NUMBER_RX)) }

  /** _value, the only rule that is referred to. */
  const VALUE_RULE := 0

  function Val(): Grammar { Seq([Item(Ref(VALUE_RULE), One), Item(Postval(), One)]) }

  function Keys(): Grammar { Alt(false, [StringOf('"'), StringOf('\''), Symbol(false)]) }

  function Key(): Grammar { Named("key", Keys()) }

  function EntryItems(): Grammar {
    Seq([Item(Key(), One), Item(Postval(), One), Item(Str(":"), One), Item(Postval(), One), Item(Ref(VALUE_RULE), One),
         Item(Postval(), One)])
  }

  function Entry(): Grammar { Named("entry", EntryItems()) }

  function Entries(): Grammar { Eseq(Values.Some(Str("{")), Rep(Entry(), 0, 1), Sep(), Values.Some(Rex("}"))) }

  function Object(): Grammar { Named("object", Entries()) }

  function Elements(): Grammar { Eseq(Values.Some(Str("[")), Rep(Val(), 0, 1), Sep(), Values.Some(Str("]"))) }

  function Array(): Grammar { Named("array", Elements()) }

  function Word(w: string): Grammar { Named(w, Str(w)) }

  function Choices(): seq<Grammar> {
    [StringOf('"'), StringOf('\''), Number(), Object(), Array(), Word("true"), Word("false"), Word("null")]
  }

  function Other(): Grammar { Alt(false, Choices()) }

  function ValueRule(): Grammar { Alt(true, [Symbol(true), Other()]) }

  function Whole(): Grammar { Seq([Item(Postval(), One), Item(Val(), One)]) }

  function On(text: string): Source { Source(text, [ValueRule()]) }

  predicate NoNul(text: string) { forall k :: 0 <= k < |text| ==> text[k] != NUL }

  // --- answers and what is left -----------------------------------------------------------------------------------

  /** The answer `a` at `off` leaves `rest` of the text. */
  predicate Leaves(text: string, off: nat, a: Answer, rest: string)
    requires off <= |text|
  {
    |rest| <= |text| - off && rest == text[|text| - |rest|..] && a == Hit(|text| - off - |rest|)
  }

  function Answered<T>(t: string, r: Djan.Parsed<T>): Answer {
    if r.Got? && |r.rest| <= |t| then Hit(|t| - |r.rest|) else Miss
  }

  /** What is left is an end of the text. */
  predicate EndOf(rest: string, t: string) { |rest| <= |t| && rest == t[|t| - |rest|..] }

  // --- items -------------------------------------------------------------------------------------------------------

  /** One item of a sequence, once. */
  lemma OneItem(s: Source, g: Grammar, i: nat, off: nat, fuel: nat)
    requires off <= |s.text| && g.Seq? && i < |g.items| && g.items[i].q == One
    ensures
      var a := s.Parsed(g.items[i].g, off, fuel);
      s.SeqFrom(g, i, off, fuel) == if a.Hit? then Then(a.length, s.SeqFrom(g, i + 1, off + a.length, fuel)) else a
  {
    hide Source.Parsed;
  }

  /** One item of a sequence, or nothing. */
  lemma MaybeItem(s: Source, g: Grammar, i: nat, off: nat, fuel: nat)
    requires off <= |s.text| && g.Seq? && i < |g.items| && g.items[i].q == Qmark && s.Parsed(g.items[i].g, off, fuel) != Err
    ensures
      var a := s.Parsed(g.items[i].g, off, fuel);
      var n := if a.Hit? then a.length else 0;
      s.SeqFrom(g, i, off, fuel) == Then(n, s.SeqFrom(g, i + 1, off + n, fuel))
  {
    hide Source.Parsed;
  }

  lemma StarItem(s: Source, g: Grammar, i: nat, off: nat, fuel: nat)
    requires off <= |s.text| && g.Seq? && i < |g.items| && g.items[i].q == Star
    ensures
      var a := s.ItemFrom(g.items[i].g, Star, off, fuel, 0);
      s.SeqFrom(g, i, off, fuel) == if a.Hit? then Then(a.length, s.SeqFrom(g, i + 1, off + a.length, fuel)) else a
  {
    hide Source.ItemFrom;
  }

  lemma ItemsEnd(s: Source, g: Grammar, off: nat, fuel: nat)
    requires off <= |s.text| && g.Seq?
    ensures s.SeqFrom(g, |g.items|, off, fuel) == Hit(0)
  {
  }

  // --- blanks and comments ------------------------------------------------------------------------------------------

  /** A class of two characters. */
  lemma TwoClass(a: char, b: char, text: string, off: nat)
    requires off <= |text| && a !in "$.^\\-" && b !in "\\-" && a != NUL && b != NUL
    ensures RangeAnswer([a, b], text, off) == Lexemes.AnswerOf(if CharAt(text, off) in [a, b] then 1 else 0)
  {
    Lexemes.Letters([a, b], CharAt(text, off));
  }

  lemma RngIs(s: Source, range: string, off: nat, fuel: nat)
    requires off <= |s.text|
    ensures s.Parsed(Rng(range), off, fuel) == RangeAnswer(range, s.text, off)
  {
    hide RangeAnswer;
  }

  /** A character of a class of two, or none. */
  lemma OneOfTwo(a: char, b: char, text: string, off: nat, fuel: nat)
    requires off <= |text| && a !in "$.^\\-" && b !in "\\-" && a != NUL && b != NUL
    ensures
      var t := text[off..];
      On(text).Parsed(Rng([a, b]), off, fuel) == if t != [] && (t[0] == a || t[0] == b) then Hit(1) else Miss
  {
    hide RangeAnswer, Source.Parsed;
    TwoClass(a, b, text, off);
    RngIs(On(text), [a, b], off, fuel);
  }

  lemma {:induction false} BlanksLeave(text: string, off: nat, fuel: nat, count: nat)
    requires off <= |text|
    ensures Leaves(text, off, On(text).ItemFrom(Ws(), Star, off, fuel, count), Djan.SkipBlanks(text[off..]))
    decreases |text| - off
  {
    hide Source.Parsed, Source.ItemFrom;
    assert Ws() == Rng([' ', '\t']);
    OneOfTwo(' ', '\t', text, off, fuel);
    var t := text[off..];
    On(text).ItemIs(Ws(), Star, off, fuel, count);
    if t != [] && (t[0] == ' ' || t[0] == '\t') {
      assert t[1..] == text[off + 1..];
      BlanksLeave(text, off + 1, fuel, count + 1);
    }
  }

  lemma {:induction false} EndsLeave(text: string, off: nat, fuel: nat, count: nat)
    requires off <= |text|
    ensures Leaves(text, off, On(text).ItemFrom(Rn(), Star, off, fuel, count), Djan.SkipEnds(text[off..]))
    decreases |text| - off
  {
    hide Source.Parsed, Source.ItemFrom;
    assert Rn() == Rng(['\r', '\n']);
    OneOfTwo('\r', '\n', text, off, fuel);
    var t := text[off..];
    On(text).ItemIs(Rn(), Star, off, fuel, count);
    if t != [] && (t[0] == '\r' || t[0] == '\n') {
      assert t[1..] == text[off + 1..];
      EndsLeave(text, off + 1, fuel, count + 1);
    }
  }

  /** A choice that does not fail is taken. */
  lemma OneChoice(s: Source, g: Grammar, i: nat, off: nat, fuel: nat)
    requires off <= |s.text| && g.Alt? && !g.greedy && i < |g.choices|
    ensures
      var a := s.Parsed(g.choices[i], off, fuel);
      s.AltFrom(g, i, off, fuel, Values.None) == if a == Miss then s.AltFrom(g, i + 1, off, fuel, Values.None) else a
  {
    hide Source.Parsed;
  }

  lemma ChoicesEnd(s: Source, g: Grammar, off: nat, fuel: nat)
    requires off <= |s.text| && g.Alt?
    ensures s.AltFrom(g, |g.choices|, off, fuel, Values.None) == Miss
  {
  }

  lemma ComLeaves(text: string, off: nat, fuel: nat)
    requires off <= |text| && NoNul(text)
    ensures
      var a := On(text).Parsed(Com(), off, fuel);
      a != Err && Leaves(text, off, if a == Miss then Hit(0) else a, Djan.SkipComment(text[off..]))
  {
    hide RegAlt, Lexemes.Run, Djan.SkipLine;
    var s, g, t := On(text), Com(), text[off..];
    OneChoice(s, g, 0, off, fuel);
    OneChoice(s, g, 1, off, fuel);
    ChoicesEnd(s, g, off, fuel);
    Lexemes.CommentTakes("#", text, off);
    Lexemes.CommentTakes("//", text, off);
    if "#" <= t {
      LineLeft("#", text, off);
    } else if "//" <= t {
      LineLeft("//", text, off);
    }
  }

  /** A comment ends where its line does. */
  lemma LineLeft(mark: string, text: string, off: nat)
    requires off <= |text| && NoNul(text) && mark <= text[off..] && (mark == "#" || mark == "//")
    ensures
      var n := |mark| + Lexemes.Run(Lexemes.LINE_CLASS, text[off + |mark|..]);
      off + n <= |text| && text[off + n..] == Djan.SkipLine(text[off..])
  {
    hide Lexemes.Run;
    var t, m := text[off..], |mark|;
    assert t[m..] == text[off + m..] && t[0] == mark[0] && (m == 2 ==> t[1] == mark[1]);
    Lexemes.LineRun(t[m..]);
    if m == 2 { assert t[1..][1..] == t[2..]; }
    assert Djan.SkipLine(t) == Djan.SkipLine(t[m..]);
    var n := Lexemes.Run(Lexemes.LINE_CLASS, t[m..]);
    assert t[m..][n..] == text[off + m + n..];
  }

  lemma EolLeaves(text: string, off: nat, fuel: nat)
    requires off <= |text| && NoNul(text)
    ensures
      Leaves(text, off, On(text).Parsed(Eol(), off, fuel), Djan.SkipEnds(Djan.SkipComment(Djan.SkipBlanks(text[off..]))))
  {
    hide Source.Parsed, Source.ItemFrom, Source.SeqFrom, Djan.SkipEnds, Djan.SkipComment, Djan.SkipBlanks;
    var s, g, t := On(text), Eol(), text[off..];
    SeqIs(s, g, off, fuel);
    BlanksLeave(text, off, fuel, 0);
    StarItem(s, g, 0, off, fuel);
    var r := Djan.SkipBlanks(t);
    var at := |text| - |r|;
    ComLeaves(text, at, fuel);
    MaybeItem(s, g, 1, at, fuel);
    var r2 := Djan.SkipComment(r);
    var at2 := |text| - |r2|;
    EndsLeave(text, at2, fuel, 0);
    StarItem(s, g, 2, at2, fuel);
    ItemsEnd(s, g, |text| - |Djan.SkipEnds(r2)|, fuel);
  }

  lemma NamedIs(s: Source, g: Grammar, off: nat, fuel: nat)
    requires off <= |s.text| && g.Named?
    ensures s.Parsed(g, off, fuel) == s.Parsed(g.of, off, fuel)
  {
    hide Lexemes.StringRx;
  }

  lemma SeqIs(s: Source, g: Grammar, off: nat, fuel: nat)
    requires off <= |s.text| && g.Seq?
    ensures s.Parsed(g, off, fuel) == s.SeqFrom(g, 0, off, fuel)
  {
    hide Source.SeqFrom;
  }

  lemma {:induction false} EolsLeave(text: string, off: nat, fuel: nat, count: nat)
    requires off <= |text| && NoNul(text)
    ensures Leaves(text, off, On(text).ItemFrom(Eol(), Star, off, fuel, count), Djan.Postval(text[off..]))
    decreases |text| - off
  {
    hide Source.Parsed, Source.ItemFrom, Djan.SkipEnds, Djan.SkipComment, Djan.SkipBlanks;
    EolLeaves(text, off, fuel);
    var r := Djan.SkipEnds(Djan.SkipComment(Djan.SkipBlanks(text[off..])));
    On(text).ItemIs(Eol(), Star, off, fuel, count);
    if |r| < |text| - off { EolsLeave(text, |text| - |r|, fuel, count + 1); }
  }

  /** _postval */
  lemma PostvalLeaves(text: string, off: nat, fuel: nat)
    requires off <= |text| && NoNul(text)
    ensures Leaves(text, off, On(text).Parsed(Postval(), off, fuel), Djan.Postval(text[off..]))
  {
    hide Source.Parsed, Source.ItemFrom, Source.SeqFrom, Djan.Postval;
    var s, g := On(text), Postval();
    SeqIs(s, g, off, fuel);
    EolsLeave(text, off, fuel, 0);
    StarItem(s, g, 0, off, fuel);
    ItemsEnd(s, g, |text| - |Djan.Postval(text[off..])|, fuel);
  }

  lemma StrIs(s: Source, x: string, off: nat, fuel: nat)
    requires off <= |s.text|
    ensures s.Parsed(Str(x), off, fuel) == if x <= s.text[off..] then Hit(|x|) else Miss
  {
  }

  /** _sep */
  lemma SepLeaves(text: string, off: nat, fuel: nat)
    requires off <= |text| && NoNul(text)
    ensures Leaves(text, off, On(text).Parsed(Sep(), off, fuel), Djan.Sep(text[off..]))
  {
    hide Source.Parsed, Source.SeqFrom, Djan.Postval;
    var s, g, t := On(text), Sep(), text[off..];
    SeqIs(s, g, off, fuel);
    StrIs(s, ",", off, fuel);
    MaybeItem(s, g, 0, off, fuel);
    var at := if "," <= t then off + 1 else off;
    assert text[at..] == if "," <= t then t[1..] else t;
    PostvalLeaves(text, at, fuel);
    OneItem(s, g, 1, at, fuel);
    ItemsEnd(s, g, |text| - |Djan.Sep(t)|, fuel);
  }

  // --- symbols ---------------------------------------------------------------------------------------------------------

  lemma RexIs(s: Source, rx: string, off: nat, fuel: nat)
    requires off <= |s.text|
    ensures s.Parsed(Rex(rx), off, fuel) == RegAlt(rx, s.text, off)
  {
    hide RegAlt;
  }

  lemma SymDolTakes(text: string, off: nat, fuel: nat)
    requires off <= |text|
    ensures
      var t := text[off..];
      var n := if "$(" <= t then Djan.DolName(t[2..]) else 0;
      On(text).Parsed(SymDol(), off, fuel) == if n > 0 && |t| > 2 + n && t[2 + n] == ')' then Hit(3 + n) else Miss
  {
    hide Source.Parsed, Source.SeqFrom, RegAlt, Djan.DolName;
    var s, g, t := On(text), SymDol(), text[off..];
    SeqIs(s, g, off, fuel);
    StrIs(s, "$(", off, fuel);
    OneItem(s, g, 0, off, fuel);
    if "$(" <= t {
      assert t[2..] == text[off + 2..];
      Lexemes.DolTakes(text, off + 2);
      RexIs(s, Lexemes.DOL_RX, off + 2, fuel);
      OneItem(s, g, 1, off + 2, fuel);
      var n := Djan.DolName(t[2..]);
      if n > 0 {
        var at := off + 2 + n;
        StrIs(s, ")", at, fuel);
        assert ")" <= text[at..] <==> at < |text| && text[at] == ')';
        OneItem(s, g, 2, at, fuel);
        if at < |text| { ItemsEnd(s, g, at + 1, fuel); }
      }
    }
  }

  lemma AltIs(s: Source, g: Grammar, off: nat, fuel: nat)
    requires off <= |s.text| && g.Alt?
    ensures s.Parsed(g, off, fuel) == s.AltFrom(g, 0, off, fuel, Values.None)
  {
    hide Source.AltFrom;
  }

  /** _symelt and _symeltk */
  lemma SymEltTakes(text: string, off: nat, fuel: nat, colon: bool)
    requires off <= |text|
    ensures On(text).Parsed(SymElt(colon), off, fuel) == Lexemes.AnswerOf(Djan.SymElement(text[off..], colon))
  {
    hide Source.Parsed, Source.AltFrom, RegAlt, Djan.DolName, Djan.Core;
    var s, g, t := On(text), SymElt(colon), text[off..];
    AltIs(s, g, off, fuel);
    OneChoice(s, g, 0, off, fuel);
    SymDolTakes(text, off, fuel);
    OneChoice(s, g, 1, off, fuel);
    RexIs(s, Lexemes.CORE_RX, off, fuel);
    Lexemes.CoreTakes(text, off);
    if colon {
      OneChoice(s, g, 2, off, fuel);
      StrIs(s, ":", off, fuel);
      assert ":" <= t <==> t != [] && t[0] == ':';
    }
    ChoicesEnd(s, g, off, fuel);
  }

  lemma {:induction false} SymEltsTake(text: string, off: nat, fuel: nat, colon: bool, count: nat)
    requires off <= |text|
    ensures
      var n := Djan.SymbolLength(text[off..], colon);
      On(text).RepFrom(SymElt(colon), off, fuel, count, 1, 0) == if n == 0 && count == 0 then Miss else Hit(n)
    decreases |text| - off
  {
    hide Source.Parsed, Source.RepFrom, SymElt, Djan.SymElement;
    SymEltTakes(text, off, fuel, colon);
    On(text).RepIs(SymElt(colon), off, fuel, count, 1, 0);
    var n := Djan.SymElement(text[off..], colon);
    if n > 0 {
      assert text[off..][n..] == text[off + n..];
      SymEltsTake(text, off + n, fuel, colon, count + 1);
    }
  }

  lemma SymbolTakes(text: string, off: nat, fuel: nat, colon: bool)
    requires off <= |text|
    ensures On(text).Parsed(Symbol(colon), off, fuel) == Lexemes.AnswerOf(Djan.SymbolLength(text[off..], colon))
  {
    hide Source.RepFrom, SymElt, Djan.SymbolLength;
    NamedIs(On(text), Symbol(colon), off, fuel);
    SymEltsTake(text, off, fuel, colon, 0);
  }

  // --- strings and numbers -----------------------------------------------------------------------------------------------

  lemma QuotedTakes(q: char, text: string, off: nat, fuel: nat)
    requires off <= |text| && Lexemes.IsQuote(q)
    ensures
      var t := text[off..];
      var r := Djan.Quoted(t, q);
      On(text).Parsed(StringOf(q), off, fuel) == Answered(t, r) && (r.Got? ==> EndOf(r.rest, t) && |r.rest| < |t|)
  {
    hide RegAlt, Lexemes.StringRx, Djan.StrBody;
    Lexemes.StringTakes(q, text, off);
    NamedIs(On(text), StringOf(q), off, fuel);
    RexIs(On(text), Lexemes.StringRx(q), off, fuel);
    var t := text[off..];
    if Djan.Quoted(t, q).Got? {
      var n := Djan.StrBody(t[1..], q);
      assert t[1..][n..] == t[1 + n..] && t[1 + n..][1..] == t[2 + n..];
    }
  }

  lemma NumberTakes(text: string, off: nat, fuel: nat)
    requires off <= |text|
    ensures On(text).Parsed(Number(), off, fuel) == Lexemes.AnswerOf(Djan.NumberLength(text[off..]))
  {
    hide RegAlt, Djan.NumberLength;
    Lexemes.NumberTakes(text, off);
    NamedIs(On(text), Number(), off, fuel);
    RexIs(On(text), Lexemes.NUMBER_RX, off, fuel);
  }

  // --- values --------------------------------------------------------------------------------------------------------------

  /** What a parser of the djan functions gives is what the grammar takes. */
  predicate Agrees<T>(text: string, off: nat, a: Answer, r: Djan.Parsed<T>)
    requires off <= |text|
  {
    if r.Got? then |r.rest| < |text| - off && Leaves(text, off, a, r.rest) else a == Miss
  }

  /** A greedy choice of two. */
  lemma TwoGreedy(s: Source, g: Grammar, off: nat, fuel: nat)
    requires off <= |s.text| && g.Alt? && g.greedy && |g.choices| == 2
    ensures
      var a, b := s.Parsed(g.choices[0], off, fuel), s.Parsed(g.choices[1], off, fuel);
      s.Parsed(g, off, fuel)
      == if a == Err || b == Err then Err else if a == Miss then b else if b == Miss then a
         else if b.length >= a.length then b else a
  {
    hide Source.Parsed, Source.AltFrom;
    AltIs(s, g, off, fuel);
    s.GreedyIsLongest(g, 0, off, fuel, Values.None);
    var a, b := s.Parsed(g.choices[0], off, fuel), s.Parsed(g.choices[1], off, fuel);
  }

  /** _value */
  lemma {:induction false} ValueTakes(text: string, off: nat, fuel: nat)
    requires off <= |text| && NoNul(text) && fuel >= |text| - off
    ensures Agrees(text, off, On(text).Parsed(ValueRule(), off, fuel), Djan.ReadValue(text[off..]))
    decreases |text| - off, 4
  {
    hide Source.Parsed, Symbol, Other, Djan.SymbolLength, Djan.ReadOther;
    SymbolTakes(text, off, fuel, true);
    OtherTakes(text, off, fuel);
    TwoGreedy(On(text), ValueRule(), off, fuel);
    var t := text[off..];
    var n := Djan.SymbolLength(t, true);
    assert t[n..] == text[off + n..];
  }

  function ReadArray(t: string): (r: Djan.Parsed<seq<Values.Value>>) {
    if "[" <= t then
      var (vs, rest) := Djan.ReadItems(t[1..]);
      if "]" <= rest then Djan.Got(vs, rest[1..]) else Djan.Fail
    else Djan.Fail
  }

  function ReadObject(t: string): (r: Djan.Parsed<seq<(string, Values.Value)>>) {
    if "{" <= t then
      var (es, rest) := Djan.ReadEntries(t[1..]);
      if "}" <= rest then Djan.Got(es, rest[1..]) else Djan.Fail
    else Djan.Fail
  }

  /** The alternatives of _v, in their order. */
  lemma ReadOtherIs(t: string)
    ensures
      var s, q, n, o, a := Djan.Quoted(t, '"'), Djan.Quoted(t, '\''), Djan.NumberLength(t), ReadObject(t), ReadArray(t);
      var r := Djan.ReadOther(t);
      && (s.Got? ==> r.Got? && r.rest == s.rest)
      && (s.Fail? && q.Got? ==> r.Got? && r.rest == q.rest)
      && (s.Fail? && q.Fail? && n > 0 ==> r.Got? && r.rest == t[n..])
      && (s.Fail? && q.Fail? && n == 0 && o.Got? ==> r.Got? && r.rest == o.rest)
      && (s.Fail? && q.Fail? && n == 0 && o.Fail? && a.Got? ==> r.Got? && r.rest == a.rest)
      && (s.Fail? && q.Fail? && n == 0 && o.Fail? && a.Fail? ==>
            if "true" <= t then r.Got? && r.rest == t[4..]
            else if "false" <= t then r.Got? && r.rest == t[5..]
            else if "null" <= t then r.Got? && r.rest == t[4..]
            else r.Fail?)
  {
    hide Djan.Quoted, Djan.NumberLength, Djan.ReadItems, Djan.ReadEntries, Djan.Unescape, Djan.SqUnescape;
    FirstLetters(t);
  }

  lemma FirstLetters(t: string)
    ensures "{" <= t <==> t != [] && t[0] == '{'
    ensures "[" <= t <==> t != [] && t[0] == '['
    ensures "true" <= t ==> t[0] == 't'
    ensures "false" <= t ==> t[0] == 'f'
    ensures "null" <= t ==> t[0] == 'n'
  {
    assert "true"[0] == 't' && "false"[0] == 'f' && "null"[0] == 'n';
  }

  /** _v */
  lemma {:induction false} OtherTakes(text: string, off: nat, fuel: nat)
    requires off <= |text| && NoNul(text) && fuel >= |text| - off
    ensures Agrees(text, off, On(text).Parsed(Other(), off, fuel), Djan.ReadOther(text[off..]))
    decreases |text| - off, 3, 1
  {
    hide Source.Parsed, Source.AltFrom, Other, ReadObject, ReadArray, Djan.Quoted, Djan.NumberLength, Djan.ReadOther;
    hide Agrees, Answered;
    var t := text[off..];
    var d, q, n, o, a := Djan.Quoted(t, '"'), Djan.Quoted(t, '\''), Djan.NumberLength(t), ReadObject(t), ReadArray(t);
    var r, ans := Djan.ReadOther(t), On(text).Parsed(Other(), off, fuel);
    ReadOtherIs(t);
    ScalarsTake(text, off, fuel);
    QuotedTakes('"', text, off, fuel);
    QuotedTakes('\'', text, off, fuel);
    CompoundsTake(text, off, fuel);
    if d.Got? {
      TextAgrees(text, off, d, r);
    } else if q.Got? {
      TextAgrees(text, off, q, r);
    } else if n > 0 {
      PlaceAgrees(text, off, n, r);
    } else if o.Got? {
      AlsoAgrees(text, off, ans, o, r);
    } else if a.Got? {
      AlsoAgrees(text, off, ans, a, r);
    } else {
      WordsTake(text, off, fuel);
      FirstLetters(t);
      if "true" <= t || "null" <= t {
        PlaceAgrees(text, off, 4, r);
      } else if "false" <= t {
        PlaceAgrees(text, off, 5, r);
      } else {
        NoneAgrees(text, off, r);
      }
    }
  }

  lemma TextAgrees<T, U>(text: string, off: nat, d: Djan.Parsed<T>, r: Djan.Parsed<U>)
    requires off <= |text| && d.Got? && r.Got? && r.rest == d.rest && EndOf(d.rest, text[off..]) && |d.rest| < |text| - off
    ensures Agrees(text, off, Answered(text[off..], d), r)
  {
  }

  lemma PlaceAgrees<T>(text: string, off: nat, n: nat, r: Djan.Parsed<T>)
    requires 0 < n && off + n <= |text| && r.Got? && r.rest == text[off..][n..]
    ensures Agrees(text, off, Hit(n), r)
  {
    assert text[off..][n..] == text[off + n..];
  }

  lemma AlsoAgrees<T, U>(text: string, off: nat, a: Answer, d: Djan.Parsed<T>, r: Djan.Parsed<U>)
    requires off <= |text| && Agrees(text, off, a, d) && d.Got? && r.Got? && r.rest == d.rest
    ensures Agrees(text, off, a, r)
  {
  }

  lemma NoneAgrees<T>(text: string, off: nat, r: Djan.Parsed<T>)
    requires off <= |text| && r.Fail?
    ensures Agrees(text, off, Miss, r)
  {
  }

  /** Strings and numbers come first. */
  lemma ScalarsTake(text: string, off: nat, fuel: nat)
    requires off <= |text|
    ensures
      var s, t := On(text), text[off..];
      var d, q, n := Djan.Quoted(t, '"'), Djan.Quoted(t, '\''), Djan.NumberLength(t);
      s.Parsed(Other(), off, fuel)
      == if d.Got? then Answered(t, d) else if q.Got? then Answered(t, q) else if n > 0 then Hit(n)
         else s.AltFrom(Other(), 3, off, fuel, Values.None)
  {
    hide Source.Parsed, Source.AltFrom, StringOf, Number, Object, Array, Djan.Quoted, Djan.NumberLength;
    var s, g := On(text), Other();
    AltIs(s, g, off, fuel);
    OneChoice(s, g, 0, off, fuel);
    QuotedTakes('"', text, off, fuel);
    OneChoice(s, g, 1, off, fuel);
    QuotedTakes('\'', text, off, fuel);
    OneChoice(s, g, 2, off, fuel);
    NumberTakes(text, off, fuel);
  }

  /** Then objects and arrays. */
  lemma {:induction false} CompoundsTake(text: string, off: nat, fuel: nat)
    requires off <= |text| && NoNul(text) && fuel >= |text| - off
    ensures
      var s, o, a := On(text), ReadObject(text[off..]), ReadArray(text[off..]);
      var r := s.AltFrom(Other(), 3, off, fuel, Values.None);
      if o.Got? then Agrees(text, off, r, o)
      else if a.Got? then Agrees(text, off, r, a)
      else r == s.AltFrom(Other(), 5, off, fuel, Values.None)
    decreases |text| - off, 3, 0
  {
    hide Source.Parsed, Source.AltFrom, StringOf, Number, Object, Array, ReadObject, ReadArray;
    var s, g := On(text), Other();
    OneChoice(s, g, 3, off, fuel);
    ObjectTakes(text, off, fuel);
    OneChoice(s, g, 4, off, fuel);
    ArrayTakes(text, off, fuel);
  }

  /** true, false, null */
  lemma WordsTake(text: string, off: nat, fuel: nat)
    requires off <= |text|
    ensures
      var t := text[off..];
      On(text).AltFrom(Other(), 5, off, fuel, Values.None)
      == if "true" <= t || "null" <= t then Hit(4) else if "false" <= t then Hit(5) else Miss
  {
    hide Source.Parsed, Source.AltFrom, StringOf, Number, Object, Array;
    var s, g := On(text), Other();
    OneChoice(s, g, 5, off, fuel);
    NamedIs(s, Word("true"), off, fuel);
    StrIs(s, "true", off, fuel);
    OneChoice(s, g, 6, off, fuel);
    NamedIs(s, Word("false"), off, fuel);
    StrIs(s, "false", off, fuel);
    OneChoice(s, g, 7, off, fuel);
    NamedIs(s, Word("null"), off, fuel);
    StrIs(s, "null", off, fuel);
    ChoicesEnd(s, g, off, fuel);
    FirstLetters(text[off..]);
  }

  /** _array */
  lemma {:induction false} ArrayTakes(text: string, off: nat, fuel: nat)
    requires off <= |text| && NoNul(text) && fuel >= |text| - off
    ensures Agrees(text, off, On(text).Parsed(Array(), off, fuel), ReadArray(text[off..]))
    decreases |text| - off, 2
  {
    hide Source.Parsed, Source.EseqFrom, Source.EseqAnswer, Djan.ReadItems;
    var s, g, t := On(text), Elements(), text[off..];
    NamedIs(s, Array(), off, fuel);
    EseqParsed(s, g, off, fuel);
    s.EseqAnswerIs(g, off, fuel);
    StrIs(s, "[", off, fuel);
    if "[" <= t {
      assert t[1..] == text[off + 1..];
      ItemsTake(text, off + 1, fuel);
      var rest := Djan.ReadItems(t[1..]).1;
      StrIs(s, "]", |text| - |rest|, fuel);
      if "]" <= rest { assert rest[1..] == text[|text| - |rest| + 1..]; }
    }
  }

  lemma EseqParsed(s: Source, g: Grammar, off: nat, fuel: nat)
    requires off <= |s.text| && g.Eseq?
    ensures s.Parsed(g, off, fuel) == s.EseqAnswer(g, off, fuel)
  {
    hide Source.EseqAnswer;
  }

  /** A rule under `fabr_rep(…, 0, 1)`. */
  lemma MaybeRep(s: Source, g: Grammar, off: nat, fuel: nat)
    requires off <= |s.text|
    ensures
      var a := s.Parsed(g, off, fuel);
      s.Parsed(Rep(g, 0, 1), off, fuel) == if a == Miss then Hit(0) else a
  {
    RepParsed(s, g, off, fuel);
    s.RepIs(g, off, fuel, 0, 0, 1);
  }

  lemma RepParsed(s: Source, g: Grammar, off: nat, fuel: nat)
    requires off <= |s.text|
    ensures s.Parsed(Rep(g, 0, 1), off, fuel) == s.RepFrom(g, off, fuel, 0, 0, 1)
  {
    hide Source.RepFrom;
  }

  lemma RefIs(text: string, off: nat, fuel: nat)
    requires off <= |text| && fuel > 0
    ensures On(text).Parsed(Ref(VALUE_RULE), off, fuel) == On(text).Parsed(ValueRule(), off, fuel - 1)
  {
    hide ValueRule;
  }

  /** _val: a value and the blanks behind it. */
  function ReadVal(t: string): (r: Djan.Parsed<Values.Value>)
    ensures r.Got? ==> |r.rest| < |t|
  {
    var r := Djan.ReadValue(t);
    if r.Got? then Djan.Got(r.v, Djan.Postval(r.rest)) else Djan.Fail
  }

  lemma {:induction false} ValTakes(text: string, off: nat, fuel: nat)
    requires off <= |text| && NoNul(text) && fuel > |text| - off
    ensures
      Agrees(text, off, On(text).Parsed(Val(), off, fuel), ReadVal(text[off..]))
    decreases |text| - off, 5
  {
    hide Source.Parsed, Source.SeqFrom, Postval, Djan.Postval, Djan.ReadValue;
    var s, g, t := On(text), Val(), text[off..];
    SeqIs(s, g, off, fuel);
    OneItem(s, g, 0, off, fuel);
    RefIs(text, off, fuel);
    ValueTakes(text, off, fuel - 1);
    var r := Djan.ReadValue(t);
    if r.Got? {
      var at := |text| - |r.rest|;
      PostvalLeaves(text, at, fuel);
      OneItem(s, g, 1, at, fuel);
      ItemsEnd(s, g, |text| - |Djan.Postval(r.rest)|, fuel);
    }
  }

  /** Elements that never fail: the first one, then the rest. */
  lemma FirstElement(s: Source, g: Grammar, off: nat, fuel: nat)
    requires off <= |s.text| && g.Eseq? && s.Parsed(g.elt, off, fuel).Hit?
    ensures
      var n := s.Parsed(g.elt, off, fuel).length;
      s.EseqFrom(g, off, fuel, true) == Then(n, s.EseqFrom(g, off + n, fuel, false))
  {
    hide Source.Parsed, Source.EseqFrom, Source.Round;
    s.EseqIs(g, off, fuel, true);
    s.RoundIs(g, off, fuel, true);
  }

  /** A separator and an element, neither of which fails: over when both are empty. */
  lemma NextElement(s: Source, g: Grammar, off: nat, fuel: nat)
    requires off <= |s.text| && g.Eseq? && s.Parsed(g.sep, off, fuel).Hit?
    requires s.Parsed(g.elt, off + s.Parsed(g.sep, off, fuel).length, fuel).Hit?
    ensures
      var m := s.Parsed(g.sep, off, fuel).length;
      var n := m + s.Parsed(g.elt, off + m, fuel).length;
      s.EseqFrom(g, off, fuel, false) == if n == 0 then Hit(0) else Then(n, s.EseqFrom(g, off + n, fuel, false))
  {
    hide Source.Parsed, Source.EseqFrom, Source.Round;
    s.EseqIs(g, off, fuel, false);
    s.RoundIs(g, off, fuel, false);
  }

  lemma LeavesThen(text: string, off: nat, at: nat, a: Answer, rest: string)
    requires off <= at <= |text| && Leaves(text, at, a, rest)
    ensures Leaves(text, off, Then(at - off, a), rest)
  {
  }

  /** Where the blanks end. */
  lemma PostvalAt(text: string, off: nat, fuel: nat) returns (at: nat)
    requires off <= |text| && NoNul(text)
    ensures off <= at <= |text| && text[at..] == Djan.Postval(text[off..])
    ensures On(text).Parsed(Postval(), off, fuel) == Hit(at - off)
  {
    hide Source.Parsed, Postval, Djan.Postval;
    PostvalLeaves(text, off, fuel);
    at := |text| - |Djan.Postval(text[off..])|;
  }

  lemma SepAt(text: string, off: nat, fuel: nat) returns (at: nat)
    requires off <= |text| && NoNul(text)
    ensures off <= at <= |text| && text[at..] == Djan.Sep(text[off..])
    ensures On(text).Parsed(Sep(), off, fuel) == Hit(at - off)
  {
    hide Source.Parsed, Sep, Djan.Sep;
    SepLeaves(text, off, fuel);
    at := |text| - |Djan.Sep(text[off..])|;
  }

  /** Where an optional value ends. */
  lemma {:induction false} ValAt(text: string, off: nat, fuel: nat) returns (at: nat)
    requires off <= |text| && NoNul(text) && fuel > |text| - off
    ensures off <= at <= |text| && On(text).Parsed(Rep(Val(), 0, 1), off, fuel) == Hit(at - off)
    ensures
      var r := ReadVal(text[off..]);
      if r.Got? then at > off && text[at..] == r.rest else at == off
    decreases |text| - off, 6
  {
    hide Source.Parsed, Val, ReadVal;
    ValTakes(text, off, fuel);
    MaybeRep(On(text), Val(), off, fuel);
    var r := ReadVal(text[off..]);
    at := if r.Got? then |text| - |r.rest| else off;
  }

  /** The items of an array. */
  lemma {:induction false} ItemsTake(text: string, off: nat, fuel: nat)
    requires off <= |text| && NoNul(text) && fuel > |text| - off
    ensures Leaves(text, off, On(text).EseqFrom(Elements(), off, fuel, true), Djan.ReadItems(text[off..]).1)
    decreases |text| - off, 8
  {
    hide Source.Parsed, Source.EseqFrom, Val, ReadVal, Leaves, Djan.MoreItems, Djan.ReadItems;
    var s := On(text);
    var next := ValAt(text, off, fuel);
    FirstElement(s, Elements(), off, fuel);
    ReadItemsIs(text[off..]);
    MoreItemsTake(text, next, fuel);
    LeavesThen(text, off, next, s.EseqFrom(Elements(), next, fuel, false), Djan.MoreItems(text[next..]).1);
  }

  lemma {:induction false} MoreItemsTake(text: string, off: nat, fuel: nat)
    requires off <= |text| && NoNul(text) && fuel > |text| - off
    ensures Leaves(text, off, On(text).EseqFrom(Elements(), off, fuel, false), Djan.MoreItems(text[off..]).1)
    decreases |text| - off, 7
  {
    hide Source.Parsed, Source.EseqFrom, Sep, Val, ReadVal, Leaves, Djan.Sep, Djan.MoreItems;
    var s := On(text);
    var at := SepAt(text, off, fuel);
    var next := ValAt(text, at, fuel);
    NextElement(s, Elements(), off, fuel);
    MoreItemsIs(text[off..]);
    if next > off {
      MoreItemsTake(text, next, fuel);
      LeavesThen(text, off, next, s.EseqFrom(Elements(), next, fuel, false), Djan.MoreItems(text[next..]).1);
    } else {
      NothingTaken(text, off);
    }
  }

  lemma NothingTaken(text: string, off: nat)
    requires off <= |text|
    ensures Leaves(text, off, Hit(0), text[off..])
  {
  }

  lemma ReadItemsIs(t: string)
    ensures
      var r := ReadVal(t);
      Djan.ReadItems(t).1 == Djan.MoreItems(if r.Got? then r.rest else t).1
  {
    hide Djan.MoreItems, Djan.ReadValue, Djan.Postval;
  }

  lemma MoreItemsIs(t: string)
    ensures
      var u := Djan.Sep(t);
      var r := ReadVal(u);
      Djan.MoreItems(t).1 == if r.Got? then Djan.MoreItems(r.rest).1 else if |u| == |t| then t else Djan.MoreItems(u).1
  {
    hide Djan.Sep, Djan.ReadValue, Djan.Postval;
  }

  /** _key */
  lemma KeyTakes(text: string, off: nat, fuel: nat)
    requires off <= |text|
    ensures Agrees(text, off, On(text).Parsed(Key(), off, fuel), Djan.ReadKey(text[off..]))
  {
    hide Source.Parsed, Source.AltFrom, StringOf, Symbol, Djan.Quoted, Djan.SymbolLength, Djan.Unescape;
    var s, g, t := On(text), Keys(), text[off..];
    NamedIs(s, Key(), off, fuel);
    AltIs(s, g, off, fuel);
    OneChoice(s, g, 0, off, fuel);
    QuotedTakes('"', text, off, fuel);
    OneChoice(s, g, 1, off, fuel);
    QuotedTakes('\'', text, off, fuel);
    OneChoice(s, g, 2, off, fuel);
    SymbolTakes(text, off, fuel, false);
    ChoicesEnd(s, g, off, fuel);
    var n := Djan.SymbolLength(t, false);
    assert t[n..] == text[off + n..];
  }

  /** _entry */
  lemma {:induction false} EntryTakes(text: string, off: nat, fuel: nat)
    requires off <= |text| && NoNul(text) && fuel > |text| - off
    ensures Agrees(text, off, On(text).Parsed(Entry(), off, fuel), Djan.ReadEntry(text[off..]))
    decreases |text| - off, 5
  {
    hide Source.Parsed, Source.SeqFrom, Postval, Key, ReadVal, Djan.Postval, Djan.ReadKey, Djan.ReadEntry;
    var s, g, t := On(text), EntryItems(), text[off..];
    NamedIs(s, Entry(), off, fuel);
    SeqIs(s, g, off, fuel);
    KeyTakes(text, off, fuel);
    OneItem(s, g, 0, off, fuel);
    ReadEntryIs(t);
    var k := Djan.ReadKey(t);
    if k.Got? {
      var at := |text| - |k.rest|;
      var at2 := PostvalAt(text, at, fuel);
      OneItem(s, g, 1, at, fuel);
      StrIs(s, ":", at2, fuel);
      OneItem(s, g, 2, at2, fuel);
      if ":" <= text[at2..] {
        assert text[at2..][1..] == text[at2 + 1..];
        AfterColon(text, at2 + 1, fuel);
      }
    }
  }

  lemma ReadEntryIs(t: string)
    ensures
      var k, r := Djan.ReadKey(t), Djan.ReadEntry(t);
      && (k.Fail? ==> r.Fail?)
      && (k.Got? ==>
            var colon := Djan.Postval(k.rest);
            if ":" <= colon then
              var v := ReadVal(Djan.Postval(colon[1..]));
              if v.Got? then r.Got? && r.rest == v.rest else r.Fail?
            else r.Fail?)
  {
    hide Djan.ReadKey, Djan.ReadValue, Djan.Postval;
  }

  /** What follows the colon of an entry. */
  lemma {:induction false} AfterColon(text: string, off: nat, fuel: nat)
    requires off <= |text| && NoNul(text) && fuel > |text| - off
    ensures
      Agrees(text, off, On(text).SeqFrom(EntryItems(), 3, off, fuel), ReadVal(Djan.Postval(text[off..])))
    decreases |text| - off, 5
  {
    hide Source.Parsed, Source.SeqFrom, Postval, Key, Djan.Postval, Djan.ReadValue, ValueRule;
    var s, g := On(text), EntryItems();
    var at := PostvalAt(text, off, fuel);
    OneItem(s, g, 3, off, fuel);
    RefIs(text, at, fuel);
    ValueTakes(text, at, fuel - 1);
    OneItem(s, g, 4, at, fuel);
    var r := Djan.ReadValue(text[at..]);
    if r.Got? {
      var end := |text| - |r.rest|;
      var last := PostvalAt(text, end, fuel);
      OneItem(s, g, 5, end, fuel);
      ItemsEnd(s, g, last, fuel);
    }
  }

  /** Where an optional entry ends. */
  lemma {:induction false} EntryAt(text: string, off: nat, fuel: nat) returns (at: nat)
    requires off <= |text| && NoNul(text) && fuel > |text| - off
    ensures off <= at <= |text| && On(text).Parsed(Rep(Entry(), 0, 1), off, fuel) == Hit(at - off)
    ensures
      var r := Djan.ReadEntry(text[off..]);
      if r.Got? then at > off && text[at..] == r.rest else at == off
    decreases |text| - off, 6
  {
    hide Source.Parsed, Entry, Djan.ReadEntry;
    EntryTakes(text, off, fuel);
    MaybeRep(On(text), Entry(), off, fuel);
    var r := Djan.ReadEntry(text[off..]);
    at := if r.Got? then |text| - |r.rest| else off;
  }

  /** _object */
  lemma {:induction false} ObjectTakes(text: string, off: nat, fuel: nat)
    requires off <= |text| && NoNul(text) && fuel >= |text| - off
    ensures Agrees(text, off, On(text).Parsed(Object(), off, fuel), ReadObject(text[off..]))
    decreases |text| - off, 2
  {
    hide Source.Parsed, Source.EseqFrom, Source.EseqAnswer, Djan.ReadEntries, RegAlt;
    var s, g, t := On(text), Entries(), text[off..];
    NamedIs(s, Object(), off, fuel);
    EseqParsed(s, g, off, fuel);
    s.EseqAnswerIs(g, off, fuel);
    StrIs(s, "{", off, fuel);
    if "{" <= t {
      assert t[1..] == text[off + 1..];
      EntriesTake(text, off + 1, fuel);
      var rest := Djan.ReadEntries(t[1..]).1;
      RexIs(s, "}", |text| - |rest|, fuel);
      Lexemes.BraceTakes(text, |text| - |rest|);
      if "}" <= rest { assert rest[1..] == text[|text| - |rest| + 1..]; }
    }
  }

  /** The entries of an object. */
  lemma {:induction false} EntriesTake(text: string, off: nat, fuel: nat)
    requires off <= |text| && NoNul(text) && fuel > |text| - off
    ensures Leaves(text, off, On(text).EseqFrom(Entries(), off, fuel, true), Djan.ReadEntries(text[off..]).1)
    decreases |text| - off, 8
  {
    hide Source.Parsed, Source.EseqFrom, Entry, Leaves, Djan.ReadEntry, Djan.MoreEntries, Djan.ReadEntries;
    var s := On(text);
    var next := EntryAt(text, off, fuel);
    FirstElement(s, Entries(), off, fuel);
    ReadEntriesIs(text[off..]);
    MoreEntriesTake(text, next, fuel);
    LeavesThen(text, off, next, s.EseqFrom(Entries(), next, fuel, false), Djan.MoreEntries(text[next..]).1);
  }

  lemma {:induction false} MoreEntriesTake(text: string, off: nat, fuel: nat)
    requires off <= |text| && NoNul(text) && fuel > |text| - off
    ensures Leaves(text, off, On(text).EseqFrom(Entries(), off, fuel, false), Djan.MoreEntries(text[off..]).1)
    decreases |text| - off, 7
  {
    hide Source.Parsed, Source.EseqFrom, Sep, Entry, Leaves, Djan.Sep, Djan.ReadEntry, Djan.MoreEntries;
    var s := On(text);
    var at := SepAt(text, off, fuel);
    var next := EntryAt(text, at, fuel);
    NextElement(s, Entries(), off, fuel);
    MoreEntriesIs(text[off..]);
    if next > off {
      MoreEntriesTake(text, next, fuel);
      LeavesThen(text, off, next, s.EseqFrom(Entries(), next, fuel, false), Djan.MoreEntries(text[next..]).1);
    } else {
      NothingTaken(text, off);
    }
  }

  lemma ReadEntriesIs(t: string)
    ensures
      var r := Djan.ReadEntry(t);
      Djan.ReadEntries(t).1 == Djan.MoreEntries(if r.Got? then r.rest else t).1
  {
    hide Djan.MoreEntries, Djan.ReadEntry;
  }

  lemma MoreEntriesIs(t: string)
    ensures
      var u := Djan.Sep(t);
      var r := Djan.ReadEntry(u);
      Djan.MoreEntries(t).1
      == if r.Got? then Djan.MoreEntries(r.rest).1 else if |u| == |t| then t else Djan.MoreEntries(u).1
  {
    hide Djan.Sep, Djan.ReadEntry;
  }

  /** The grammar of djan takes a whole text exactly when the parser gives a value. */
  lemma ParseTakes(text: string, fuel: nat)
    requires NoNul(text) && fuel > |text|
    ensures On(text).Parsed(Whole(), 0, fuel) == Hit(|text|) <==> Djan.Parse(text).Some?
    ensures On(text).Parsed(Whole(), 0, fuel) != Err
  {
    hide Source.Parsed, Source.SeqFrom, Postval, Val, Djan.Postval, Djan.ReadValue;
    var s, g := On(text), Whole();
    assert text[0..] == text;
    SeqIs(s, g, 0, fuel);
    PostvalLeaves(text, 0, fuel);
    OneItem(s, g, 0, 0, fuel);
    var u := Djan.Postval(text);
    var at := |text| - |u|;
    ValTakes(text, at, fuel);
    OneItem(s, g, 1, at, fuel);
    var r := Djan.ReadValue(u);
    if r.Got? { ItemsEnd(s, g, |text| - |Djan.Postval(r.rest)|, fuel); }
  }

  // --- no range of the grammar starts with a dot -----------------------------------------------------------------------------

  predicate NoDots(rx: string) { forall k :: 0 < k < |rx| && rx[k] == '.' ==> rx[k - 1] != '[' }

  lemma {:induction false} SeqNoDots(rx: string)
    requires NoDots(rx)
    ensures SeqUndotted(rx)
    decreases |rx|, 1
  {
    hide RangeEnd, GroupEnd, StrEnd, Quantified;
    if CharAt(rx, 0) != NUL {
      match Piece(rx)
      case None =>
      case Some((piece, end)) =>
        if rx[0] == '(' { AltNoDots(piece); }
        match Quantified(rx[end..])
        case None =>
        case Some(b) => SeqNoDots(rx[end + b.length..]);
    }
  }

  lemma {:induction false} AltNoDots(rx: string)
    requires NoDots(rx)
    ensures AltUndotted(rx)
    decreases |rx|, 2
  {
    hide Bar;
    var j := Bar(rx, 0, false, 0);
    SeqNoDots(rx[..j]);
    if CharAt(rx, j) != NUL { AltNoDots(rx[j + 1..]); }
  }

  lemma StringNoDots(q: char)
    requires Lexemes.IsQuote(q)
    ensures NoDots(Lexemes.StringRx(q))
  {
    assert '.' !in Lexemes.StringRx(q);
  }

  lemma NumberNoDots()
    ensures NoDots(Lexemes.NUMBER_RX)
  {
    var a, b := "-?[0-9]+(\\", "[0-9]+)?(" + Lexemes.EXPONENT_RX + ")?";
    assert Lexemes.NUMBER_RX == a + "." + b && '.' !in a && '.' !in b && a[|a| - 1] == '\\';
  }

  lemma SymbolNoDots()
    ensures NoDots(Lexemes.CORE_RX) && NoDots(Lexemes.DOL_RX)
  {
    assert '.' !in Lexemes.CORE_RX && '.' !in Lexemes.DOL_RX;
  }

  lemma CommentNoDots()
    ensures NoDots("#" + Lexemes.REST_RX) && NoDots("//" + Lexemes.REST_RX) && NoDots("}")
  {
    assert '.' !in "#" + Lexemes.REST_RX && '.' !in "//" + Lexemes.REST_RX && '.' !in "}";
  }

  lemma BlanksAdvance()
    ensures Advancing(Postval()) && Advancing(Sep())
  {
    hide AltUndotted;
    CommentNoDots();
    AltNoDots("#" + Lexemes.REST_RX);
    AltNoDots("//" + Lexemes.REST_RX);
    assert Advancing(Com()) && Advancing(Ws()) && Advancing(Rn());
    assert Advancing(Eol());
  }

  lemma SymbolsAdvance(colon: bool)
    ensures Advancing(Symbol(colon))
  {
    hide AltUndotted;
    SymbolNoDots();
    AltNoDots(Lexemes.CORE_RX);
    AltNoDots(Lexemes.DOL_RX);
    assert Advancing(SymDol()) && Advancing(SymCore());
    assert Advancing(SymElt(colon));
  }

  lemma ScalarsAdvance()
    ensures Advancing(StringOf('"')) && Advancing(StringOf('\'')) && Advancing(Number())
  {
    hide AltUndotted, NoDots;
    StringNoDots('"');
    StringNoDots('\'');
    AltNoDots(Lexemes.StringRx('"'));
    AltNoDots(Lexemes.StringRx('\''));
    NumberNoDots();
    AltNoDots(Lexemes.NUMBER_RX);
  }

  lemma ObjectsAdvance()
    ensures Advancing(Object())
  {
    hide AltUndotted, NoDots, Postval, Sep, StringOf, Symbol;
    BlanksAdvance();
    ScalarsAdvance();
    SymbolsAdvance(false);
    CommentNoDots();
    AltNoDots("}");
    assert Advancing(Key());
    assert Advancing(EntryItems());
    assert Advancing(Entry());
    assert Advancing(Rep(Entry(), 0, 1));
  }

  lemma ArraysAdvance()
    ensures Advancing(Array()) && Advancing(Val())
  {
    hide AltUndotted, NoDots, Postval, Sep;
    BlanksAdvance();
    assert Advancing(Val());
    assert Advancing(Rep(Val(), 0, 1));
  }

  lemma DjanAdvances()
    ensures Advancing(ValueRule()) && Advancing(Whole())
  {
    hide AltUndotted, NoDots, Postval, Symbol, StringOf, Number, Object, Array, Val;
    BlanksAdvance();
    ScalarsAdvance();
    SymbolsAdvance(true);
    ObjectsAdvance();
    ArraysAdvance();
    assert Advancing(Other());
  }

  /** fabr_parse_all on _djan: the combinators and the regex engine, run over the text, take all of it exactly when the
      parser gives a value. */
  method Accepts(text: string, prune: bool) returns (t: Combinators.Tree)
    requires NoNul(text)
    ensures t.result == if Djan.Parse(text).Some? then 1 else 0
  {
    hide Advancing, Djan.Parse, Source.Parsed;
    var input := new Combinators.Input(text, [ValueRule()], prune);
    DjanAdvances();
    ParseTakes(text, |text| + 1);
    t := input.ParseAll(Whole(), |text| + 1);
  }
}
