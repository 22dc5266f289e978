/** What the pieces of a regex stand for: classes, quantifiers with their bounds, and plain characters. */
module Regexes {
  import opened Values
  import opened Grammars
  import Lexemes

  // --- classes ---------------------------------------------------------------------------------------------

  /** The characters from `lo` to `hi`. */
  datatype Span = Span(lo: char, hi: char)

  predicate Simple(c: char) { c != NUL && c !in "\\-]" }

  predicate IsClass(spans: seq<Span>) {
    forall i :: 0 <= i < |spans| ==> Simple(spans[i].lo) && Simple(spans[i].hi) && spans[i].lo <= spans[i].hi
  }

  function SpanText(s: Span): string { if s.lo == s.hi then [s.lo] else [s.lo, '-', s.hi] }

  /** `a-z_0-9` and its like. */
  function ClassText(spans: seq<Span>): string {
    if spans == [] then "" else SpanText(spans[0]) + ClassText(spans[1..])
  }

  predicate Covers(spans: seq<Span>, c: char) { exists i :: 0 <= i < |spans| && spans[i].lo <= c <= spans[i].hi }

  lemma CoversFirst(spans: seq<Span>, c: char)
    requires spans != []
    ensures Covers(spans, c) <==> spans[0].lo <= c <= spans[0].hi || Covers(spans[1..], c)
  {
    if i :| 0 <= i < |spans| && spans[i].lo <= c <= spans[i].hi {
      if i > 0 { assert spans[1..][i - 1] == spans[i]; }
    }
    if i :| 0 <= i < |spans[1..]| && spans[1..][i].lo <= c <= spans[1..][i].hi {
      assert spans[i + 1] == spans[1..][i];
    }
  }

  /** No mark between two spans is a dash. */
  lemma NoDash(spans: seq<Span>)
    requires IsClass(spans)
    ensures CharAt(ClassText(spans), 0) != '-' && (spans != [] ==> ClassText(spans) != [] && ClassText(spans)[0] == spans[0].lo)
  {
  }

  lemma InOne(a: char, rest: string, c: char)
    requires a != NUL && a != '\\' && CharAt(rest, 0) != '-'
    ensures InRange([a] + rest, c) <==> c == a || InRange(rest, c)
  {
    var rx := [a] + rest;
    assert rx[1..] == rest && CharAt(rx, 1) == CharAt(rest, 0);
  }

  lemma InSpan(a: char, b: char, rest: string, c: char)
    requires a != NUL && a != '\\' && b != NUL && b != '\\'
    ensures InRange([a, '-', b] + rest, c) <==> a <= c <= b || InRange([b] + rest, c)
  {
    var rx := [a, '-', b] + rest;
    assert rx[2..] == [b] + rest;
    assert RngNext(rx) == (2, a, b);
  }

  /** A class holds the characters of its spans, and no other one. */
  lemma {:induction false} ClassIs(spans: seq<Span>, c: char)
    requires IsClass(spans)
    ensures InRange(ClassText(spans), c) <==> Covers(spans, c)
  {
    hide InRange, RngNext;
    if spans == [] {
      EmptyClass(c);
    } else {
      var s, rest := spans[0], ClassText(spans[1..]);
      NoDash(spans[1..]);
      ClassIs(spans[1..], c);
      CoversFirst(spans, c);
      if s.lo == s.hi {
        InOne(s.lo, rest, c);
      } else {
        InSpan(s.lo, s.hi, rest, c);
        InOne(s.hi, rest, c);
      }
    }
  }

  lemma EmptyClass(c: char)
    ensures !InRange([], c)
  {
  }

  /** An escaped character stands for itself, and so does an escaped upper end of a span; a span whose lower end is escaped
      holds the dash as well. */
  lemma EscapesInClass(a: char, b: char, rest: string, c: char)
    requires Simple(a) && Simple(b)
    ensures CharAt(rest, 0) != '-' ==> (InRange(['\\', a] + rest, c) <==> c == a || InRange(rest, c))
    ensures InRange([a, '-', '\\', b] + rest, c) <==> a <= c <= b || InRange(['\\', b] + rest, c)
    ensures InRange(['\\', a, '-', b] + rest, c) <==> a <= c <= b || InRange(['-', b] + rest, c)
    ensures InRange(['\\', a, '-', b] + rest, '-')
  {
    hide InRange;
    if CharAt(rest, 0) != '-' { EscapedOne(a, rest, c); }
    EscapedEnds(a, b, rest, c);
    EscapedEnds(a, b, rest, '-');
    Dashed(b, rest);
  }

  lemma EscapedOne(a: char, rest: string, c: char)
    requires Simple(a) && CharAt(rest, 0) != '-'
    ensures InRange(['\\', a] + rest, c) <==> c == a || InRange(rest, c)
  {
    hide InRange;
    var rx := ['\\', a] + rest;
    assert rx[1..] == [a] + rest && CharAt(rx, 2) == CharAt(rest, 0);
    assert RngNext(rx) == (1, a, a);
    RangeStep(rx, c);
    InOne(a, rest, c);
  }

  lemma RangeStep(rx: string, c: char)
    ensures var next := RngNext(rx); InRange(rx, c) <==> next.0 > 0 && (next.1 <= c <= next.2 || InRange(rx[next.0..], c))
  {
    hide RngNext;
  }

  lemma EscapedEnds(a: char, b: char, rest: string, c: char)
    requires Simple(a) && Simple(b)
    ensures InRange([a, '-', '\\', b] + rest, c) <==> a <= c <= b || InRange(['\\', b] + rest, c)
    ensures InRange(['\\', a, '-', b] + rest, c) <==> a <= c <= b || InRange(['-', b] + rest, c)
  {
    hide InRange;
    var x, y := [a, '-', '\\', b] + rest, ['\\', a, '-', b] + rest;
    assert x[2..] == ['\\', b] + rest && y[2..] == ['-', b] + rest;
    assert RngNext(x) == (2, a, b) && RngNext(y) == (2, a, b);
    RangeStep(x, c);
    RangeStep(y, c);
  }

  lemma Dashed(b: char, rest: string)
    requires Simple(b)
    ensures InRange(['-', b] + rest, '-')
  {
    hide InRange;
    var rx := ['-', b] + rest;
    assert CharAt(rx, 1) == b;
    RangeStep(rx, '-');
  }

  /** A class takes one character that it holds, a negated one any other; at the end of the text there is none. */
  lemma ClassTakes(spans: seq<Span>, text: string, off: nat)
    requires IsClass(spans) && spans != [] && spans[0].lo !in "$.^" && off <= |text|
    ensures
      var c := CharAt(text, off);
      && RangeAnswer(ClassText(spans), text, off) == (if c != NUL && Covers(spans, c) then Hit(1) else Miss)
      && RangeAnswer("^" + ClassText(spans), text, off) == (if c != NUL && !Covers(spans, c) then Hit(1) else Miss)
  {
    hide InRange, Covers, ClassText;
    var c, rx := CharAt(text, off), ClassText(spans);
    NoDash(spans);
    ClassIs(spans, c);
    assert ("^" + rx)[1..] == rx;
  }

  // --- quantifiers -----------------------------------------------------------------------------------------

  /** How many characters of the class there are from `off` on. */
  function Lead(spans: seq<Span>, text: string, off: nat): (n: nat)
    decreases |text| - off
  {
    var c := CharAt(text, off);
    if off < |text| && c != NUL && Covers(spans, c) then 1 + Lead(spans, text, off + 1) else 0
  }

  datatype Count = Maybe | Any | Many | Least(a: string) | Between(a: string, b: string)

  function CountText(q: Count): string {
    match q
    case Maybe => "?"
    case Any => "*"
    case Many => "+"
    case Least(a) => "{" + a + ",}"
    case Between(a, b) => "{" + a + "," + b + "}"
  }

  function Lowest(q: Count): nat {
    match q case Maybe | Any => 0 case Many => 1 case Least(a) => ReadDigits(a, 0) case Between(a, _) => ReadDigits(a, 0)
  }

  /** None is no bound. */
  function Highest(q: Count): Option<nat> {
    match q case Maybe => Some(1) case Any | Many | Least(_) => None case Between(_, b) => Some(ReadDigits(b, 0))
  }

  predicate IsCount(q: Count) {
    match q
    case Maybe | Any | Many => true
    case Least(a) => AllDigits(a) && ReadDigits(a, 0) < 0x1_0000_0000_0000_0000
    case Between(a, b) =>
      && AllDigits(a) && AllDigits(b)
      && ReadDigits(a, 0) < 0x1_0000_0000_0000_0000 && 0 < ReadDigits(b, 0) < 0x1_0000_0000_0000_0000
  }

  lemma {:induction false} BraceOver(rx: string, i: nat, n: nat, commas: nat)
    requires 0 < i <= n <= |rx| && forall k :: i <= k < n ==> IsDigit(rx[k])
    ensures BraceEnd(rx, i, commas) == BraceEnd(rx, n, commas)
    decreases n - i
  {
    if i < n { BraceOver(rx, i + 1, n, commas); }
  }

  lemma BoundsOf(a: string, b: string)
    requires AllDigits(a) && AllDigits(b)
    ensures
      var rx := "{" + a + "," + b + "}";
      Quantified(rx) == Some(Bounds(|rx|, SizeT(ReadDigits(a, 0)), SizeT(ReadDigits(b, 0))))
  {
    hide SizeT, ToLL, ReadDigits, FirstAt, BraceEnd;
    var rx := "{" + a + "," + b + "}";
    var m, n := |a| + 1, |rx| - 1;
    assert rx[0] == '{' && rx[m] == ',' && rx[n] == '}';
    assert (forall k :: 1 <= k < m ==> rx[k] == a[k - 1]) && forall k :: m < k < n ==> rx[k] == b[k - m - 1];
    BraceOver(rx, 1, m, 0);
    BraceOver(rx, m + 1, n, 1);
    BraceStops(rx, m, n);
    assert rx[1..] == [] + "" + a + ("," + b + "}") && rx[m + 1..] == [] + "" + b + "}";
    ToLLReads([], "", a, "," + b + "}");
    ToLLReads([], "", b, "}");
    assert rx == ("{" + a) + ("," + b + "}");
    assert ',' !in "{" + a;
    FirstAtPast(',', "{" + a, "," + b + "}");
    FirstHere(',', b + "}");
    assert [','] + (b + "}") == "," + b + "}";
    Braced(rx);
  }

  lemma FirstHere(c: char, s: string)
    ensures FirstAt(c, [c] + s) == Some(0)
  {
  }

  lemma BraceStops(rx: string, m: nat, n: nat)
    requires 0 < m < n < |rx| && rx[m] == ',' && rx[n] == '}'
    ensures BraceEnd(rx, m, 0) == BraceEnd(rx, m + 1, 1) && BraceEnd(rx, n, 1) == n
  {
  }

  lemma CountIs(q: Count)
    requires IsCount(q)
    ensures
      Quantified(CountText(q))
      == Some(Bounds(|CountText(q)|, Lowest(q), if Highest(q).None? then 0 else Highest(q).value))
  {
    hide ReadDigits, SizeT;
    match q
    case Maybe | Any | Many =>
    case Least(a) =>
      assert a + "," + "" + "}" == a + ",}";
      BoundsOf(a, "");
      NoNumber();
      Sized(ReadDigits(a, 0));
      assert "{" + a + "," + "" + "}" == CountText(q);
    case Between(a, b) =>
      BoundsOf(a, b);
      Sized(ReadDigits(a, 0));
      Sized(ReadDigits(b, 0));
  }

  lemma NoNumber()
    ensures ReadDigits("", 0) == 0 && SizeT(0) == 0
  {
  }

  lemma Sized(n: nat)
    requires n < 0x1_0000_0000_0000_0000
    ensures SizeT(n) == n
  {
  }

  /** The characters that a repetition takes: as many as there are, up to the highest count, if not too few. */
  function Taken(n: nat, min: nat, max: Option<nat>): Answer {
    var k := if max.Some? && max.value < n then max.value else n;
    if k < min then Miss else Hit(k)
  }

  lemma {:induction false} TimesIs(spans: seq<Span>, text: string, off: nat, count: nat, min: nat, max: nat)
    requires IsClass(spans) && spans != [] && spans[0].lo !in "$.^" && off <= |text| && (max == 0 || count < max)
    ensures
      var n := Lead(spans, text, off);
      var k := if max > 0 && max - count < n then max - count else n;
      Times('[', ClassText(spans), text, off, count, min, max) == if count + k < min then Miss else Hit(k)
    decreases |text| - off
  {
    hide RangeAnswer, Covers, ClassText;
    ClassTakes(spans, text, off);
    var c := CharAt(text, off);
    if c != NUL && Covers(spans, c) && count + 1 != max { TimesIs(spans, text, off + 1, count + 1, min, max); }
  }

  lemma {:induction false} BarToEnd(rx: string, j: nat)
    requires j <= |rx| && forall k :: j <= k < |rx| ==> rx[k] != NUL && rx[k] !in "\\[(|"
    ensures Bar(rx, j, false, 0) == |rx|
    decreases |rx| - j
  {
    if j < |rx| { BarToEnd(rx, j + 1); }
  }

  lemma CountChars(q: Count)
    requires IsCount(q)
    ensures forall k :: 0 <= k < |CountText(q)| ==> CountText(q)[k] != NUL && CountText(q)[k] !in "\\[(|"
  {
    forall k | 0 <= k < |CountText(q)| ensures CountText(q)[k] in "?*+{,}" || IsDigit(CountText(q)[k]) {
      assert q.Least? ==> CountText(q) == "{" + q.a + ",}";
    }
  }

  lemma {:induction false} ClassChars(spans: seq<Span>)
    requires IsClass(spans)
    ensures forall k :: 0 <= k < |ClassText(spans)| ==> ClassText(spans)[k] != NUL && ClassText(spans)[k] !in "\\]"
  {
    if spans != [] { ClassChars(spans[1..]); }
  }

  /** A class under a quantifier takes as many of its characters as there are, within the bounds, or fails. */
  lemma Repeats(spans: seq<Span>, q: Count, text: string, off: nat)
    requires IsClass(spans) && spans != [] && spans[0].lo !in "$.^" && IsCount(q) && off <= |text|
    ensures
      RegAlt("[" + ClassText(spans) + "]" + CountText(q), text, off)
      == Taken(Lead(spans, text, off), Lowest(q), Highest(q))
  {
    hide ClassText, CountText, RegAlt, RegSeq, Times, Lead, Bar, Quantified, RangeEnd, Lowest, Highest;
    var cls, n := ClassText(spans), CountText(q);
    var rx := "[" + cls + "]" + n;
    var z := |cls| + 1;
    ClassChars(spans);
    CountChars(q);
    CountIs(q);
    assert rx[z] == ']' && rx[1..z] == cls && rx[z + 1..] == n;
    assert forall k :: 1 <= k < z ==> rx[k] == cls[k - 1];
    assert forall k :: z < k < |rx| ==> rx[k] == n[k - z - 1];
    Lexemes.RangeEndAt(rx, 1, z);
    Lexemes.BarPastRange(rx, 1, 0);
    BarToEnd(rx, z + 1);
    BarStarts(rx);
    Lexemes.AltOnly(rx, text, off);
    var b := Bounds(|n|, Lowest(q), if Highest(q).None? then 0 else Highest(q).value);
    SomeCount(q);
    Lexemes.TimesFirst(rx, cls, z + 1, b, text, off, false);
    assert rx[z + 1 + |n|..] == [];
    TimesIs(spans, text, off, 0, b.min, b.max);
    var a := Times('[', cls, text, off, 0, b.min, b.max);
    if a.Hit? { Lexemes.SeqEnd(text, off + a.length); }
  }

  lemma SomeCount(q: Count)
    requires IsCount(q)
    ensures |CountText(q)| > 0 && (Highest(q).Some? ==> Highest(q).value > 0)
  {
  }

  lemma BarStarts(rx: string)
    requires rx != [] && rx[0] == '['
    ensures Bar(rx, 0, false, 0) == Bar(rx, 1, true, 0)
  {
  }

  // --- plain characters --------------------------------------------------------------------------------------

  /** A dot is any character but the ends of lines, another character itself. */
  predicate Reads(rx: string, text: string, off: nat) {
    && off + |rx| <= |text|
    && forall k :: 0 <= k < |rx| ==>
         if rx[k] == '.' then text[off + k] !in ['\n', '\r', NUL] else text[off + k] == rx[k]
  }

  lemma {:induction false} PlainIs(rx: string, end: string, ri: nat, text: string, at: nat)
    requires at <= |text| && ri <= |rx| && (forall k :: 0 <= k < |rx| ==> rx[k] != NUL && rx[k] !in "\\$")
    requires end in ["", "$", "\\Z"]
    ensures
      Plain(rx + end, ri, text, at)
      == if Reads(rx[ri..], text, at) then Plain(rx + end, |rx|, text, at + |rx| - ri) else None
    decreases |rx| - ri
  {
    if ri < |rx| {
      PlainIs(rx, end, ri + 1, text, if at < |text| then at + 1 else at);
      var all, rest, ic := rx[ri..], rx[ri + 1..], CharAt(text, at);
      assert (rx + end)[ri] == rx[ri] == all[0];
      if Reads(all, text, at) {
        assert forall k :: 0 <= k < |rest| ==> rest[k] == all[k + 1];
        assert text[at + 0] == ic;
        assert Reads(rest, text, at + 1) by {
          forall k | 0 <= k < |rest|
            ensures if rest[k] == '.' then text[at + 1 + k] !in ['\n', '\r', NUL] else text[at + 1 + k] == rest[k]
          {
            assert text[at + (k + 1)] == text[at + 1 + k];
          }
        }
      }
    } else {
      assert rx[ri..] == [];
    }
  }

  predicate AtEnd(text: string, at: nat) { CharAt(text, at) == NUL }

  /** Plain characters, at the end of a line when a `$` follows, at the end of the text when a `\Z` does; to match nothing
      is a failure. */
  lemma PlainTakes(rx: string, text: string, off: nat)
    requires off <= |text| && (forall k :: 0 <= k < |rx| ==> rx[k] != NUL && rx[k] !in "\\$")
    ensures
      var read := rx != [] && Reads(rx, text, off);
      var end := off + |rx|;
      && StrAnswer(rx, text, off) == (if read then Hit(|rx|) else Miss)
      && StrAnswer(rx + "$", text, off)
         == (if read && (AtEnd(text, end) || text[end] == '\n' || text[end] == '\r') then Hit(|rx|) else Miss)
      && StrAnswer(rx + "\\Z", text, off) == (if read && AtEnd(text, end) then Hit(|rx|) else Miss)
  {
    hide Plain, Reads;
    assert rx[0..] == rx;
    PlainIs(rx, "", 0, text, off);
    PlainIs(rx, "$", 0, text, off);
    PlainIs(rx, "\\Z", 0, text, off);
    assert rx + "" == rx;
    if Reads(rx, text, off) {
      ReadsFits(rx, text, off);
      PlainEnds(rx, text, off + |rx|);
    }
  }

  lemma ReadsFits(rx: string, text: string, off: nat)
    requires Reads(rx, text, off)
    ensures off + |rx| <= |text|
  {
  }

  lemma PlainEnds(rx: string, text: string, at: nat)
    requires at <= |text|
    ensures Plain(rx, |rx|, text, at) == Some(at)
    ensures Plain(rx + "$", |rx|, text, at)
         == if AtEnd(text, at) || text[at] == '\n' || text[at] == '\r' then Some(at) else None
    ensures Plain(rx + "\\Z", |rx|, text, at) == if AtEnd(text, at) then Some(at) else None
  {
    assert (rx + "$")[|rx|] == '$' && CharAt(rx + "\\Z", |rx|) == '\\' && CharAt(rx + "\\Z", |rx| + 1) == 'Z';
  }
}
