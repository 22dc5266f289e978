/** What the parser combinators and their regex engine answer, for any grammar at any place of any text, trees and
    pruning aside. */
module Grammars {
  import opened Values

  datatype Quantifier = One | Qmark | Star | Plus

  /** A parser built from the combinators; `Ref` stands for a rule, so that rules may be recursive, and `Named` for the
      name that a combinator gives to its trees. */
  datatype Grammar =
    | Str(s: string)
    | Rng(range: string)
    | Rex(regex: string)
    | Seq(items: seq<Item>)
    | Alt(greedy: bool, choices: seq<Grammar>)
    | Rep(of: Grammar, min: nat, max: nat)
    | Eseq(start: Option<Grammar>, elt: Grammar, sep: Grammar, end: Option<Grammar>)
    | Ref(rule: nat)
    | Named(name: string, of: Grammar)

  datatype Item = Item(g: Grammar, q: Quantifier)

  /** A match of some length, a failure (0 in the source), or an error (-1). */
  datatype Answer = Hit(length: nat) | Miss | Err

  const NUL := 0 as char

  /** The answer after a match of length `n`. */
  function Then(n: nat, a: Answer): Answer { if a.Hit? then Hit(n + a.length) else a }

  function Sum(ls: seq<nat>): nat { if ls == [] then 0 else ls[0] + Sum(ls[1..]) }

  predicate Fits(a: Answer, text: string, off: nat) { a.Hit? ==> off + a.length <= |text| }

  function CharAt(s: string, i: nat): char { if i < |s| then s[i] else NUL }

  // --- the pieces of a regex -----------------------------------------------------------------------------

  /** rng_next: the length of the next piece of a range, and its bounds. */
  function RngNext(rx: string): (r: (nat, char, char))
    ensures r.0 <= |rx| && (rx != [] && rx[0] != NUL && (rx[0] == '\\' ==> CharAt(rx, 1) != NUL) ==> r.0 > 0)
  {
    var escaped := CharAt(rx, 0) == '\\';
    var a := if escaped then CharAt(rx, 1) else CharAt(rx, 0);
    var i := if escaped then 2 else 1;
    if a == NUL then (0, NUL, NUL) else
    var b := CharAt(rx, i);
    var c := if b != NUL then CharAt(rx, i + 1) else 'X';
    if b != '-' || c == NUL then (1, a, a)
    else
      var d := CharAt(rx, i + 1);
      (2, a, if d == '\\' then CharAt(rx, i + 2) else d)
  }

  predicate InRange(rx: string, c: char) {
    var next := RngNext(rx);
    next.0 > 0 && (next.1 <= c <= next.2 || InRange(rx[next.0..], c))
  }

  /** rng; a range that starts with a dot claims a length it does not advance by. */
  function RangeAnswer(range: string, text: string, off: nat): (a: Answer)
    requires off <= |text|
    ensures Fits(a, text, off)
  {
    var c, first := CharAt(text, off), CharAt(range, 0);
    if first == '$' then if c == NUL then Hit(0) else Miss
    else if c == NUL then Miss
    else if first == '.' then if c != '\n' then Hit(1) else Miss
    else if first == '^' then if InRange(range[1..], c) then Miss else Hit(1)
    else if InRange(range, c) then Hit(1) else Miss
  }

  /** The end of a range, from `i` on; 0 when it is not closed. */
  function RangeEnd(rx: string, i: nat): (z: nat)
    requires i > 0
    ensures z == 0 || (i <= z < |rx| && rx[z] == ']')
    decreases |rx| - i
  {
    var c := CharAt(rx, i);
    if c == NUL then 0 else if c == '\\' then RangeEnd(rx, i + 2) else if c == ']' then i else RangeEnd(rx, i + 1)
  }

  /** The end of a group, from `i` on; 0 when it is not closed. */
  function GroupEnd(rx: string, i: nat, range: bool, groups: nat): (z: nat)
    requires i > 0
    ensures z == 0 || (i <= z < |rx| && rx[z] == ')')
    decreases |rx| - i
  {
    var c := CharAt(rx, i);
    if c == NUL then 0
    else if c == '\\' then GroupEnd(rx, i + 2, range, groups)
    else if !range && c == '[' then GroupEnd(rx, i + 1, true, groups)
    else if range then GroupEnd(rx, i + 1, c != ']', groups)
    else if c == '(' then GroupEnd(rx, i + 1, false, groups + 1)
    else if c == ')' && groups == 0 then i
    else GroupEnd(rx, i + 1, false, if c == ')' then groups - 1 else groups)
  }

  /** The end of a plain piece, from `i` on; None for a quantifier with nothing before it. A quantified letter is a
      piece of its own, and an escaped one is cut in two. */
  function StrEnd(rx: string, i: nat): (z: Option<nat>)
    requires rx != [] && rx[0] != NUL && rx[0] != '[' && rx[0] != '('
    ensures z.Some? ==> 0 < z.value <= |rx|
    decreases |rx| - i
  {
    var c := CharAt(rx, i);
    if c == NUL then Some(if i <= |rx| then i else |rx|)
    else if c == '[' || c == '(' then Some(i)
    else if c == '\\' then StrEnd(rx, i + 2)
    else if c == '?' || c == '*' || c == '+' || c == '{' then
      if i == 0 then None else if i == 1 then Some(1) else Some(i - 1)
    else StrEnd(rx, i + 1)
  }

  /** The piece a regex starts with, and where it ends. */
  function Piece(rx: string): (r: Option<(string, nat)>)
    requires rx != [] && rx[0] != NUL
    ensures r.Some? ==> 0 < r.value.1 <= |rx| && (rx[0] == '(' ==> |r.value.0| + 2 <= |rx|)
  {
    if rx[0] == '[' then
      var z := RangeEnd(rx, 1);
      if z == 0 then None else Some((rx[1..z], z + 1))
    else if rx[0] == '(' then
      var z := GroupEnd(rx, 1, false, 0);
      if z == 0 then None else Some((rx[1..z], z + 1))
    else
      match StrEnd(rx, 0)
      case None => None
      case Some(z) => Some((rx[..z], z))
  }

  function SizeT(i: int): nat { i % 0x1_0000_0000_0000_0000 }

  function FirstAt(c: char, s: string): (r: Option<nat>)
    ensures r.Some? ==> r.value < |s|
  {
    if s == [] then None else if s[0] == c then Some(0) else
    var r := FirstAt(c, s[1..]);
    if r.None? then None else Some(r.value + 1)
  }

  /** The closing brace of `{min,max}`, from `i` on; 0 when it is malformed. */
  function BraceEnd(rx: string, i: nat, commas: nat): (z: nat)
    requires i > 0
    ensures z == 0 || i <= z < |rx|
    decreases |rx| - i
  {
    var c := CharAt(rx, i);
    if c == NUL then 0
    else if c == ',' then if commas > 0 then 0 else BraceEnd(rx, i + 1, 1)
    else if c == '}' then i
    else if c < '0' || c > '9' then 0
    else BraceEnd(rx, i + 1, commas)
  }

  datatype Bounds = Bounds(length: nat, min: nat, max: nat)

  /** A quantifier: its length, 0 when there is none, and its bounds, of which the upper one is 0 for no bound; None
      when it is malformed. Without a comma of its own, `{n}` takes its upper bound from a later comma. */
  function Quantified(rx: string): (r: Option<Bounds>)
    ensures r.Some? ==> r.value.length <= |rx|
  {
    var c := CharAt(rx, 0);
    if c == '?' then Some(Bounds(1, 0, 1))
    else if c == '*' then Some(Bounds(1, 0, 0))
    else if c == '+' then Some(Bounds(1, 1, 0))
    else if c != '{' then Some(Bounds(0, 0, 0))
    else
      var end := BraceEnd(rx, 1, 0);
      if end == 0 then None else
      var min, comma := SizeT(ToLL(rx[1..])), FirstAt(',', rx);
      Some(Bounds(end + 1, min, if comma.None? then min else SizeT(ToLL(rx[comma.value + 1..]))))
  }

  /** The end of the next alternative, from `j` on: a `|` outside of ranges and groups, or the end. */
  function Bar(rx: string, j: nat, range: bool, groups: nat): (z: nat)
    ensures z <= |rx| && (z < |rx| ==> rx[z] == '|' || rx[z] == NUL)
    decreases |rx| - j
  {
    var c := CharAt(rx, j);
    if c == NUL then if j <= |rx| then j else |rx|
    else if c == '\\' then Bar(rx, j + 2, range, groups)
    else if !range && c == '[' then Bar(rx, j + 1, true, groups)
    else if range then Bar(rx, j + 1, c != ']', groups)
    else if c == '(' then Bar(rx, j + 1, false, groups + 1)
    else if groups > 0 then Bar(rx, j + 1, false, if c == ')' then groups - 1 else groups)
    else if c == '|' then j
    else Bar(rx, j + 1, false, 0)
  }

  // --- the regex engine ----------------------------------------------------------------------------------

  /** Where a plain piece, from `ri` on, has matched up to. */
  function Plain(rx: string, ri: nat, text: string, at: nat): (r: Option<nat>)
    requires at <= |text|
    ensures r.Some? ==> at <= r.value <= |text|
    decreases |rx| - ri
  {
    var escaped := CharAt(rx, ri) == '\\';
    var c := if escaped then CharAt(rx, ri + 1) else CharAt(rx, ri);
    var next := if escaped then ri + 2 else ri + 1;
    var ic := CharAt(text, at);
    if c == NUL then Some(at)
    else if c == 'Z' && escaped then if ic == NUL then Some(at) else None
    else if c == '$' && !escaped then if ic == '\n' || ic == '\r' || ic == NUL then Some(at) else None
    else if ic == NUL then None
    else if (c == '.' && !escaped && ic != '\n' && ic != '\r') || ic == c then Plain(rx, next, text, at + 1)
    else None
  }

  /** rex_str: a match of length 0 is a failure. */
  function StrAnswer(rx: string, text: string, off: nat): (a: Answer)
    requires off <= |text|
    ensures Fits(a, text, off)
  {
    match Plain(rx, 0, text, off)
    case None => Miss
    case Some(end) => if end == off then Miss else Hit(end - off)
  }

  function PieceAnswer(kind: char, piece: string, text: string, off: nat): (a: Answer)
    requires off <= |text|
    ensures Fits(a, text, off)
    decreases if kind == '(' then |piece| + 1 else 0, 0, 0
  {
    if kind == '[' then RangeAnswer(piece, text, off)
    else if kind == '(' then RegAlt(piece, text, off)
    else StrAnswer(piece, text, off)
  }

  /** As often as it matches, up to `max` times, until a match has no length. */
  function Times(kind: char, piece: string, text: string, off: nat, count: nat, min: nat, max: nat): (a: Answer)
    requires off <= |text|
    ensures Fits(a, text, off)
    decreases if kind == '(' then |piece| + 1 else 0, 1, |text| - off
  {
    match PieceAnswer(kind, piece, text, off)
    case Err => Err
    case Miss => if count < min then Miss else Hit(0)
    case Hit(n) =>
      if count + 1 == max || n == 0 then if count + 1 < min then Miss else Hit(n)
      else Then(n, Times(kind, piece, text, off + n, count + 1, min, max))
  }

  /** rex_rep: a piece and its quantifier, and the length of both. */
  function RegRep(rx: string, text: string, off: nat): (r: (Answer, nat))
    requires off <= |text| && rx != [] && rx[0] != NUL
    ensures Fits(r.0, text, off) && (r.0.Hit? ==> 0 < r.1 <= |rx|)
    decreases |rx|, 2, 0
  {
    match Piece(rx)
    case None => (Err, 0)
    case Some((piece, end)) =>
      match Quantified(rx[end..])
      case None => (Err, 0)
      case Some(Bounds(length, min, max)) =>
        if length == 0 then (PieceAnswer(rx[0], piece, text, off), end)
        else (Times(rx[0], piece, text, off, 0, min, max), end + length)
  }

  /** rex_seq: piece after piece; `any` tells whether there was one before. */
  function RegSeq(rx: string, text: string, off: nat, any: bool): (a: Answer)
    requires off <= |text|
    ensures Fits(a, text, off)
    decreases |rx|, 3, 0
  {
    if CharAt(rx, 0) == NUL then if any then Hit(0) else Miss
    else
      var (a, length) := RegRep(rx, text, off);
      if a.Hit? then Then(a.length, RegSeq(rx[length..], text, off + a.length, true)) else a
  }

  /** rex_alt: the first alternative that does not fail. */
  function RegAlt(rx: string, text: string, off: nat): (a: Answer)
    requires off <= |text|
    ensures Fits(a, text, off)
    decreases |rx|, 4, 0
  {
    var j := Bar(rx, 0, false, 0);
    var a := RegSeq(rx[..j], text, off, false);
    if a != Miss || CharAt(rx, j) == NUL then a else RegAlt(rx[j + 1..], text, off)
  }

  // --- ranges that start with a dot ----------------------------------------------------------------------

  /** Such a range succeeds without advancing. */
  predicate Dotted(range: string) { range != [] && range[0] == '.' }

  /** A piece that is no such range, and holds none. */
  predicate PieceUndotted(kind: char, piece: string)
    decreases if kind == '(' then |piece| + 1 else 0, 0
  {
    (kind == '[' ==> !Dotted(piece)) && (kind == '(' ==> AltUndotted(piece))
  }

  /** None of the pieces that rex_seq cuts. */
  predicate SeqUndotted(rx: string)
    decreases |rx|, 1
  {
    CharAt(rx, 0) != NUL ==>
      match Piece(rx)
      case None => true
      case Some((piece, end)) =>
        match Quantified(rx[end..])
        case None => true
        case Some(b) => PieceUndotted(rx[0], piece) && SeqUndotted(rx[end + b.length..])
  }

  /** None of the alternatives that rex_alt cuts. */
  predicate AltUndotted(rx: string)
    decreases |rx|, 2
  {
    var j := Bar(rx, 0, false, 0);
    SeqUndotted(rx[..j]) && (CharAt(rx, j) != NUL ==> AltUndotted(rx[j + 1..]))
  }

  predicate Advancing(g: Grammar)
    decreases g
  {
    match g
    case Str(_) => true
    case Rng(range) => !Dotted(range)
    case Rex(regex) => AltUndotted(regex)
    case Seq(items) => forall i :: 0 <= i < |items| ==> Advancing(items[i].g)
    case Alt(_, choices) => choices != [] && forall i :: 0 <= i < |choices| ==> Advancing(choices[i])
    case Rep(of, _, _) => Advancing(of)
    case Eseq(start, elt, sep, end) =>
      && (start.Some? ==> Advancing(start.value)) && Advancing(elt) && Advancing(sep)
      && (end.Some? ==> Advancing(end.value))
    case Ref(_) => true
    case Named(_, of) => Advancing(of)
  }

  /** An escaped bracket, or one within a range, opens no range. */
  lemma UndottedExamples()
    ensures AltUndotted("\\[.") && AltUndotted("[a[.]") && !AltUndotted("[.]")
  {
    var x, y, z := "\\[.", "[a[.]", "[.]";
    assert Bar(x, 0, false, 0) == Bar(x, 2, false, 0) == Bar(x, 3, false, 0) == 3 && x[..3] == x;
    assert StrEnd(x, 0) == StrEnd(x, 2) == StrEnd(x, 3) == Some(3);
    assert Piece(x) == Some((x, 3)) && x[3..] == "" && Quantified("") == Some(Bounds(0, 0, 0));
    assert SeqUndotted("") && SeqUndotted(x);
    assert Bar(y, 0, false, 0) == Bar(y, 1, true, 0) == Bar(y, 2, true, 0) == Bar(y, 3, true, 0) == Bar(y, 4, true, 0);
    assert Bar(y, 4, true, 0) == Bar(y, 5, false, 0) == 5 && y[..5] == y;
    assert RangeEnd(y, 1) == RangeEnd(y, 2) == RangeEnd(y, 3) == RangeEnd(y, 4) == 4;
    assert Piece(y) == Some((y[1..4], 5)) && y[5..] == "" && SeqUndotted(y);
    assert Bar(z, 0, false, 0) == Bar(z, 1, true, 0) == Bar(z, 2, true, 0) == Bar(z, 3, false, 0) == 3 && z[..3] == z;
    assert RangeEnd(z, 1) == RangeEnd(z, 2) == 2;
    assert Piece(z) == Some((z[1..2], 3)) && z[3..] == "" && z[1..2] == "." && !SeqUndotted(z);
  }

  // --- bounds between braces -----------------------------------------------------------------------------

  lemma {:induction false} FirstAtPast(c: char, a: string, b: string)
    requires c !in a
    ensures FirstAt(c, b).None? <==> c !in b
    ensures FirstAt(c, a + b)
      == match FirstAt(c, b) case None => None case Some(k) => Some(|a| + k)
  {
    if a == [] {
      assert a + b == b;
      FirstAtSome(c, b);
    } else {
      assert (a + b)[1..] == a[1..] + b;
      FirstAtPast(c, a[1..], b);
    }
  }

  lemma {:induction false} FirstAtSome(c: char, s: string)
    ensures FirstAt(c, s).None? <==> c !in s
  {
    if s != [] { FirstAtSome(c, s[1..]); }
  }

  lemma {:induction false} BraceEndPast(rx: string, n: nat, i: nat)
    requires 1 <= i <= n < |rx| && rx[n] == '}' && forall k :: 1 <= k < n ==> IsDigit(rx[k])
    ensures BraceEnd(rx, i, 0) == n
    decreases n - i
  {
    if i < n { BraceEndPast(rx, n, i + 1); }
  }

  /** `{n}` has its number for both bounds if and only if what follows holds no comma, or has that same number after its
      first one: the source looks for the comma beyond the brace. */
  lemma BraceBounds(rx: string, digits: string, rest: string)
    requires rx == "{" + digits + "}" + rest && forall k :: 0 <= k < |digits| ==> IsDigit(digits[k])
    ensures
      var b, comma := Quantified(rx), FirstAt(',', rest);
      && b.Some? && b.value.length == |digits| + 2 && b.value.min == SizeT(ReadDigits(digits, 0))
      && (comma.None? <==> ',' !in rest)
      && (b.value.max == b.value.min <==> comma.None? || SizeT(ToLL(rest[comma.value + 1..])) == b.value.min)
  {
    hide SizeT, ReadDigits, Quantified, BraceEnd, FirstAt, ToLL;
    BraceNumber(rx, digits, rest);
    BraceComma(rx, digits, rest);
    Braced(rx);
  }

  lemma BraceNumber(rx: string, digits: string, rest: string)
    requires rx == "{" + digits + "}" + rest && forall k :: 0 <= k < |digits| ==> IsDigit(digits[k])
    ensures rx[0] == '{' && BraceEnd(rx, 1, 0) == |digits| + 1 && ToLL(rx[1..]) == ReadDigits(digits, 0)
  {
    hide ReadDigits, BraceEnd, ToLL;
    var n := |digits| + 1;
    assert forall k :: 1 <= k < n ==> rx[k] == digits[k - 1];
    BraceEndPast(rx, n, 1);
    DigitsToLL(rx[1..], |digits|);
    assert rx[1..][..|digits|] == digits;
  }

  lemma BraceComma(rx: string, digits: string, rest: string)
    requires rx == "{" + digits + "}" + rest && forall k :: 0 <= k < |digits| ==> IsDigit(digits[k])
    ensures
      var here, there := FirstAt(',', rx), FirstAt(',', rest);
      && (here.None? <==> there.None?) && (there.None? <==> ',' !in rest)
      && (here.Some? ==> rx[here.value + 1..] == rest[there.value + 1..])
  {
    hide FirstAt;
    var head := "{" + digits + "}";
    assert ',' !in head && rx == head + rest;
    FirstAtPast(',', head, rest);
    var there := FirstAt(',', rest);
    if there.Some? { assert (head + rest)[|head| + there.value + 1..] == rest[there.value + 1..]; }
  }

  lemma Braced(rx: string)
    requires rx != [] && rx[0] == '{' && BraceEnd(rx, 1, 0) > 0
    ensures
      var min, comma := SizeT(ToLL(rx[1..])), FirstAt(',', rx);
      Quantified(rx) == Some(Bounds(BraceEnd(rx, 1, 0) + 1, min,
        if comma.None? then min else SizeT(ToLL(rx[comma.value + 1..]))))
  {
    hide SizeT, ToLL, BraceEnd, FirstAt;
  }

  lemma DigitsToLL(s: string, n: nat)
    requires n < |s| && s[n] == '}' && forall k :: 0 <= k < n ==> IsDigit(s[k])
    ensures ToLL(s) == ReadDigits(s[..n], 0)
  {
    assert s == s[..n] + s[n..];
    ReadStops(s[..n], s[n..], 0);
  }

  /** In `{2}b,9` the upper bound is 9. */
  lemma BraceExample()
    ensures Quantified("{2}b,9") == Some(Bounds(3, 2, 9))
  {
    hide SizeT;
    var rx := "{2}b,9";
    assert BraceEnd(rx, 1, 0) == BraceEnd(rx, 2, 0) == 2;
    assert FirstAt(',', rx) == Some(4) by {
      FirstAtPast(',', "{2}b", ",9");
      assert "{2}b" + ",9" == rx;
    }
    assert rx[1..] == "2}b,9" && rx[5..] == "9";
    DigitsToLL(rx[1..], 1);
    assert rx[1..][..1] == "2";
    assert ReadDigits("2", 0) == 2 && ReadDigits("9", 0) == 9 && ToLL("9") == 9;
    SmallSize();
  }

  lemma SmallSize()
    ensures SizeT(2) == 2 && SizeT(9) == 9
  {
  }

  // --- escapes under a quantifier --------------------------------------------------------------------------

  /** A character that find_str_end goes over. */
  predicate Ordinary(c: char) { c != NUL && c !in "[(\\?*+{" }

  const SIGNS := "?*+{"

  /** What find_str_end goes over: ordinary characters and escaped ones. */
  predicate Scanned(p: string) {
    p == []
    || if p[0] == '\\' then |p| > 1 && p[1] != NUL && Scanned(p[2..]) else Ordinary(p[0]) && Scanned(p[1..])
  }

  /** A regex with a quantified escaped character behind a scanned prefix. */
  function EscapeRx(p: string, c: char, q: char, rest: string): string { p + "\\" + [c, q] + rest }

  lemma {:induction false} StrEndPast(rx: string, i: nat, p: string)
    requires rx != [] && rx[0] != NUL && rx[0] != '[' && rx[0] != '('
    requires i + |p| <= |rx| && rx[i..i + |p|] == p && Scanned(p)
    ensures StrEnd(rx, i) == StrEnd(rx, i + |p|)
    decreases |p|
  {
    if p != [] {
      var n := if p[0] == '\\' then 2 else 1;
      assert rx[i] == p[0] by { assert rx[i..i + |p|][0] == p[0]; }
      assert p[n..] == rx[i + n..i + n + |p[n..]|];
      StrEndPast(rx, i + n, p[n..]);
    }
  }

  /** A lone backslash at the end of a piece is nothing. */
  lemma {:induction false} LoneBackslash(p: string, ri: nat, text: string, at: nat)
    requires ri <= |p| && Scanned(p[ri..]) && at <= |text|
    ensures Plain(p + "\\", ri, text, at) == Plain(p, ri, text, at)
    decreases |p| - ri
  {
    var rx := p + "\\";
    if ri < |p| {
      var n := if p[ri] == '\\' then 2 else 1;
      assert p[ri..][n..] == p[ri + n..];
      assert CharAt(rx, ri) == CharAt(p, ri) == p[ri] && CharAt(rx, ri + n - 1) == CharAt(p, ri + n - 1);
      if at < |text| { LoneBackslash(p, ri + n, text, at + 1); }
    } else {
      assert CharAt(rx, ri) == '\\' && CharAt(rx, ri + 1) == NUL && CharAt(p, ri) == NUL;
    }
  }

  lemma EscapeShape(p: string, c: char, q: char, rest: string)
    requires Scanned(p) && c != NUL && q in SIGNS
    ensures
      var rx, n := EscapeRx(p, c, q, rest), |p|;
      && |rx| == n + 3 + |rest| && CharAt(rx, n) == '\\' && rx[..n + 1] == p + "\\" && rx[n + 1..] == [c, q] + rest
      && rx[n + 2..] == [q] + rest && rx[0] != NUL && rx[0] != '[' && rx[0] != '(' && StrEnd(rx, 0) == Some(n + 1)
      && Piece(rx) == Some((p + "\\", n + 1))
  {
    hide StrEnd, Scanned;
    var rx, n := EscapeRx(p, c, q, rest), |p|;
    EscapeText(p, c, q, rest);
    if p != [] { ScannedFirst(p); }
    assert rx[0] == if p == [] then '\\' else p[0];
    StrEndPast(rx, 0, p);
    EscapeCut(rx, n);
  }

  lemma ScannedFirst(p: string)
    requires Scanned(p) && p != []
    ensures p[0] != NUL && p[0] != '[' && p[0] != '('
  {
  }

  lemma EscapeCut(rx: string, n: nat)
    requires n + 2 < |rx| && rx[n] == '\\' && rx[n + 1] != NUL && rx[n + 2] in SIGNS
    requires rx[0] != NUL && rx[0] != '[' && rx[0] != '('
    ensures StrEnd(rx, n) == Some(n + 1)
  {
    assert StrEnd(rx, n) == StrEnd(rx, n + 2);
  }

  lemma EscapeText(p: string, c: char, q: char, rest: string)
    ensures
      var rx, n := EscapeRx(p, c, q, rest), |p|;
      && |rx| == n + 3 + |rest| && rx[0..n] == p && (n > 0 ==> rx[0] == p[0])
      && rx[n] == '\\' && rx[n + 1] == c && rx[n + 2] == q
      && rx[..n + 1] == p + "\\" && rx[n + 1..] == [c, q] + rest && rx[n + 2..] == [q] + rest
  {
  }

  /** An escaped character under a quantifier: the piece is cut after the backslash, and the rest of the regex starts
      with the character, its escape lost. */
  lemma EscapeLost(p: string, c: char, q: char, rest: string, text: string, off: nat, any: bool)
    requires Scanned(p) && c != NUL && c !in SIGNS && q in SIGNS && off <= |text|
    ensures
      var a := StrAnswer(p, text, off);
      RegSeq(EscapeRx(p, c, q, rest), text, off, any)
      == if a.Hit? then Then(a.length, RegSeq([c, q] + rest, text, off + a.length, true)) else Miss
  {
    hide StrEnd, Plain, Piece;
    var rx, n := EscapeRx(p, c, q, rest), |p|;
    EscapeShape(p, c, q, rest);
    assert CharAt(rx[n + 1..], 0) == c;
    assert p[0..] == p;
    LoneBackslash(p, 0, text, off);
    assert StrAnswer(p + "\\", text, off) == StrAnswer(p, text, off);
    hide StrAnswer;
    assert RegRep(rx, text, off) == (StrAnswer(p, text, off), n + 1);
  }

  /** An ordinary character is then under the quantifier, bare. */
  lemma BareUnder(c: char, q: char, rest: string)
    requires Ordinary(c) && q in SIGNS
    ensures Piece([c, q] + rest) == Some(([c], 1)) && ([c, q] + rest)[1..] == [q] + rest
  {
    var rx := [c, q] + rest;
    assert StrEnd(rx, 0) == StrEnd(rx, 1) == Some(1);
    assert rx[..1] == [c];
  }

  /** A backslash escapes the quantifier: what comes next is that sign, literally. */
  lemma SignEscaped(q: char, rest: string, text: string, at: nat)
    requires q in SIGNS && Scanned(rest) && at <= |text|
    ensures
      var rx := ['\\', q] + rest;
      && RegSeq(rx, text, at, true) == StrAnswer(rx, text, at)
      && Plain(rx, 0, text, at) == if CharAt(text, at) == q then Plain(rx, 2, text, at + 1) else None
  {
    var rx := ['\\', q] + rest;
    assert CharAt(rx, 0) == '\\' && CharAt(rx, 1) == q && rx[2..2 + |rest|] == rest;
    StrEndPast(rx, 2, rest);
    assert StrEnd(rx, 0) == StrEnd(rx, 2) == StrEnd(rx, |rx|) == Some(|rx|) && rx[..|rx|] == rx && rx[|rx|..] == [];
    hide StrEnd, StrAnswer, Plain;
    assert RegRep(rx, text, at) == (StrAnswer(rx, text, at), |rx|);
    hide RegRep;
    if StrAnswer(rx, text, at).Hit? { SeqLast(rx, text, at); }
  }

  /** A bracket or a parenthesis opens a range or a group, an error when nothing closes it. */
  lemma OpenBracket(c: char, q: char, rest: string, text: string, at: nat)
    requires (c == '[' || c == '(') && at <= |text|
    requires (if c == '[' then RangeEnd([c, q] + rest, 1) else GroupEnd([c, q] + rest, 1, false, 0)) == 0
    ensures RegSeq([c, q] + rest, text, at, true) == Err
  {
    hide RangeEnd, GroupEnd;
    assert Piece([c, q] + rest) == None;
  }

  /** When the escaped character is a quantifier itself, it quantifies the piece, and the next one, alone, is an error;
      an open brace is one at once. */
  lemma EscapedSign(p: string, c: char, q: char, rest: string, text: string, off: nat, any: bool)
    requires Scanned(p) && c in SIGNS && q in SIGNS && off <= |text|
    ensures
      RegSeq(EscapeRx(p, c, q, rest), text, off, any) == if c == '+' && StrAnswer(p, text, off) == Miss then Miss else Err
  {
    hide StrEnd, Plain;
    var rx, n := EscapeRx(p, c, q, rest), |p|;
    EscapeShape(p, c, q, rest);
    assert CharAt(rx[n + 1..], 0) == c && CharAt(rx[n + 1..], 1) == q;
    if c == '{' {
      assert BraceEnd(rx[n + 1..], 1, 0) == 0;
      assert Quantified(rx[n + 1..]) == None;
      assert RegRep(rx, text, off) == (Err, 0);
    } else {
      assert p[0..] == p;
      LoneBackslash(p, 0, text, off);
      assert StrAnswer(p + "\\", text, off) == StrAnswer(p, text, off);
      var min, max := if c == '+' then 1 else 0, if c == '?' then 1 else 0;
      assert Quantified(rx[n + 1..]) == Some(Bounds(1, min, max));
      var a := Times(rx[0], p + "\\", text, off, 0, min, max);
      PlainTimes(rx[0], p + "\\", text, off, 0, min, max);
      hide Times, StrAnswer;
      assert RegRep(rx, text, off) == (a, n + 2);
      LoneSign(q, rest, text);
    }
  }

  /** A plain piece under a quantifier never errs, and misses only below the lower bound. */
  lemma {:induction false} PlainTimes(kind: char, piece: string, text: string, off: nat, count: nat, min: nat, max: nat)
    requires off <= |text| && kind != '[' && kind != '('
    ensures
      var a := Times(kind, piece, text, off, count, min, max);
      && a != Err && (min <= count ==> a != Miss)
      && (count == 0 && min == 1 ==> (a == Miss <==> StrAnswer(piece, text, off) == Miss))
    decreases |text| - off
  {
    hide StrAnswer;
    var a := StrAnswer(piece, text, off);
    assert a != Err by { StrNeverErrs(piece, text, off); }
    if a.Hit? && a.length > 0 { PlainTimes(kind, piece, text, off + a.length, count + 1, min, max); }
  }

  lemma StrNeverErrs(piece: string, text: string, off: nat)
    requires off <= |text|
    ensures StrAnswer(piece, text, off) != Err
  {
  }

  lemma LoneSign(q: char, rest: string, text: string)
    requires q in SIGNS
    ensures forall at: nat :: at <= |text| ==> RegSeq([q] + rest, text, at, true) == Err
  {
    assert StrEnd([q] + rest, 0) == None;
    assert Piece([q] + rest) == None;
  }

  /** With nothing before the escape its alternative never matches: the answer is that of the alternatives behind the
      first bar, no match if there is none, and an error for most of the escaped quantifiers. */
  lemma EscapeFirst(c: char, q: char, rest: string, text: string, off: nat)
    requires c != NUL && q in SIGNS && off <= |text|
    ensures
      var rx := EscapeRx([], c, q, rest);
      var j := Bar(rx, 0, false, 0);
      RegAlt(rx, text, off)
      == if c in SIGNS && c != '+' then Err else if CharAt(rx, j) == NUL then Miss else RegAlt(rx[j + 1..], text, off)
  {
    var rx := EscapeRx([], c, q, rest);
    var j := Bar(rx, 0, false, 0);
    assert rx == "\\" + [c, q] + rest && rx[0] == '\\' && rx[2] == q;
    assert j == Bar(rx, 2, false, 0) == Bar(rx, 3, false, 0);
    BarFrom(rx, 3, false, 0);
    var tail := rx[3..j];
    assert rx[..j] == EscapeRx([], c, q, tail);
    assert StrAnswer([], text, off) == Miss;
    hide RegSeq, Bar, StrAnswer;
    if c in SIGNS {
      EscapedSign([], c, q, tail, text, off, false);
    } else {
      EscapeLost([], c, q, tail, text, off, false);
    }
  }

  lemma {:induction false} BarFrom(rx: string, i: nat, range: bool, groups: nat)
    requires i <= |rx|
    ensures Bar(rx, i, range, groups) >= i
    decreases |rx| - i
  {
    if i < |rx| && rx[i] != NUL {
      var c := rx[i];
      if c == '\\' {
        if i + 2 <= |rx| { BarFrom(rx, i + 2, range, groups); }
      } else if !range && c == '[' {
        BarFrom(rx, i + 1, true, groups);
      } else if range {
        BarFrom(rx, i + 1, c != ']', groups);
      } else if c == '(' {
        BarFrom(rx, i + 1, false, groups + 1);
      } else if groups > 0 {
        BarFrom(rx, i + 1, false, if c == ')' then groups - 1 else groups);
      } else if c != '|' {
        BarFrom(rx, i + 1, false, 0);
      }
    }
  }

  predicate Literal(c: char) { Ordinary(c) && c != '.' && c != '$' }

  predicate Literals(p: string) { forall k :: 0 <= k < |p| ==> Literal(p[k]) && p[k] != '|' }

  lemma {:induction false} LiteralMatches(p: string, ri: nat, post: string)
    requires ri <= |p| && Literals(p)
    ensures Plain(p, ri, p + post, ri) == Some(|p|)
    decreases |p| - ri
  {
    if ri < |p| {
      assert CharAt(p + post, ri) == p[ri];
      LiteralMatches(p, ri + 1, post);
    }
  }

  lemma {:induction false} LiteralsScan(p: string)
    requires Literals(p)
    ensures Scanned(p)
  {
    if p != [] { LiteralsScan(p[1..]); }
  }

  lemma {:induction false} BarPastLiterals(rx: string, n: nat, i: nat)
    requires i <= n <= |rx| && Literals(rx[..n])
    ensures Bar(rx, i, false, 0) == Bar(rx, n, false, 0)
    decreases n - i
  {
    if i < n {
      assert rx[..n][i] == rx[i];
      BarPastLiterals(rx, n, i + 1);
    }
  }

  lemma OneAlternative(p: string, c: char, q: char, text: string)
    requires Literals(p) && q in "?*+"
    ensures RegAlt(EscapeRx(p, c, q, []), text, 0) == RegSeq(EscapeRx(p, c, q, []), text, 0, false)
  {
    hide RegSeq;
    var rx, n := EscapeRx(p, c, q, []), |p|;
    assert |rx| == n + 3 && rx[..n] == p && rx[n] == '\\' && rx[n + 2] == q;
    BarPastLiterals(rx, n, 0);
    assert Bar(rx, n, false, 0) == Bar(rx, n + 2, false, 0) == Bar(rx, n + 3, false, 0) == n + 3;
    assert rx[..n + 3] == rx;
  }

  lemma LiteralsThenOne(p: string, c: char, q: char)
    requires Literals(p) && Literal(c) && q in "?*+" && p != []
    ensures RegAlt(EscapeRx(p, c, q, []), p + [c], 0) == Hit(|p| + 1)
  {
    hide RegSeq, RegAlt, Plain, EscapeRx;
    var text, n := p + [c], |p|;
    OneAlternative(p, c, q, text);
    LiteralsScan(p);
    EscapeLost(p, c, q, [], text, 0, false);
    LiteralMatches(p, 0, [c]);
    assert StrAnswer(p, text, 0) == Hit(n);
    assert [c, q] + [] == [c, q];
    LetterOnce(c, q, text, n);
  }

  /** Behind literals, with no other alternative, such a regex matches some text exactly when there is a literal. */
  lemma EscapedMatches(p: string, c: char, q: char)
    requires Literals(p) && Literal(c) && q in "?*+"
    ensures (exists text :: RegAlt(EscapeRx(p, c, q, []), text, 0).Hit?) <==> p != []
  {
    hide RegSeq, RegAlt, EscapeRx;
    forall text | p == [] ensures !RegAlt(EscapeRx(p, c, q, []), text, 0).Hit? {
      OneAlternative(p, c, q, text);
      EscapeLost(p, c, q, [], text, 0, false);
      assert StrAnswer([], text, 0) == Miss;
    }
    if p != [] {
      LiteralsThenOne(p, c, q);
    }
  }

  /** One letter under a quantifier takes the last letter of a text. */
  lemma LetterOnce(c: char, q: char, text: string, at: nat)
    requires Literal(c) && q in "?*+" && |text| == at + 1 && text[at] == c
    ensures RegSeq([c, q], text, at, true) == Hit(1)
  {
    var rx := [c, q];
    var min, max := if q == '+' then 1 else 0, if q == '?' then 1 else 0;
    BareUnder(c, q, []);
    assert rx + [] == rx && [q] + [] == [q] && Quantified([q]) == Some(Bounds(1, min, max));
    LetterTimes(c, text, at, min, max);
    hide Times, Piece, Quantified;
    assert RegRep(rx, text, at) == (Hit(1), 2);
    SeqLast(rx, text, at);
  }

  lemma LetterTimes(c: char, text: string, at: nat, min: nat, max: nat)
    requires Literal(c) && |text| == at + 1 && text[at] == c && min <= 1 && max <= 1
    ensures Times(c, [c], text, at, 0, min, max) == Hit(1)
  {
    assert Plain([c], 0, text, at) == Plain([c], 1, text, at + 1) == Some(at + 1);
    assert Plain([c], 0, text, at + 1) == None;
    assert PieceAnswer(c, [c], text, at) == Hit(1) && PieceAnswer(c, [c], text, at + 1) == Miss;
    if max == 0 { assert Times(c, [c], text, at + 1, 1, min, max) == Hit(0); }
  }

  /** The last piece of a regex. */
  lemma SeqLast(rx: string, text: string, off: nat)
    requires off <= |text| && rx != [] && rx[0] != NUL
    requires RegRep(rx, text, off).0.Hit? && RegRep(rx, text, off).1 == |rx|
    ensures RegSeq(rx, text, off, true) == RegRep(rx, text, off).0
  {
    hide RegRep;
    assert rx[|rx|..] == [];
  }

  /** `a\.*` matches `ab`, its `\.*` having become `.*`; `\.*` alone matches nothing, not even `..`, but with another
      alternative behind it, that one may; `a\\*` matches `a*`, its `\\*` having become `\*`. */
  lemma EscapeExamples()
    ensures RegAlt("a\\.*", "ab", 0) == Hit(2)
    ensures RegAlt("\\.*", "..", 0) == Miss
    ensures RegAlt("\\.*|b", "b", 0) == Hit(1)
    ensures RegAlt("a\\\\*", "a*", 0) == Hit(2)
  {
    hide RegSeq, Bar, RegAlt;
    DotEscaped();
    Bars();
    EscapeFirst('.', '*', "", "..", 0);
    assert EscapeRx("", '.', '*', "") == "\\.*";
    EscapeFirst('.', '*', "|b", "b", 0);
    assert EscapeRx("", '.', '*', "|b") == "\\.*|b" && "\\.*|b"[4..] == "b";
  }

  lemma DotEscaped()
    ensures RegSeq("a\\.*", "ab", 0, false) == Hit(2) && RegSeq("a\\\\*", "a*", 0, false) == Hit(2)
  {
    hide RegSeq;
    EscapeLost("a", '.', '*', "", "ab", 0, false);
    assert EscapeRx("a", '.', '*', "") == "a\\.*" && ['.', '*'] + "" == ".*";
    OneLetter();
    DotStar();
    EscapeLost("a", '\\', '*', "", "a*", 0, false);
    assert EscapeRx("a", '\\', '*', "") == "a\\\\*" && ['\\', '*'] + "" == "\\*";
    SignEscaped('*', "", "a*", 1);
    StarLetter();
  }

  lemma Bars()
    ensures RegAlt("a\\.*", "ab", 0) == RegSeq("a\\.*", "ab", 0, false)
    ensures RegAlt("a\\\\*", "a*", 0) == RegSeq("a\\\\*", "a*", 0, false)
    ensures Bar("\\.*", 0, false, 0) == 3 && Bar("\\.*|b", 0, false, 0) == 3
    ensures RegAlt("b", "b", 0) == Hit(1)
  {
    hide RegSeq;
    var x, y, z, b, w := "a\\.*", "\\.*", "\\.*|b", "b", "a\\\\*";
    assert Bar(x, 0, false, 0) == Bar(x, 1, false, 0) == Bar(x, 3, false, 0) == Bar(x, 4, false, 0) == 4;
    assert Bar(w, 0, false, 0) == Bar(w, 1, false, 0) == Bar(w, 3, false, 0) == Bar(w, 4, false, 0) == 4;
    assert Bar(y, 0, false, 0) == Bar(y, 2, false, 0) == Bar(y, 3, false, 0) == 3;
    assert Bar(z, 0, false, 0) == Bar(z, 2, false, 0) == Bar(z, 3, false, 0) == 3;
    assert Bar(b, 0, false, 0) == Bar(b, 1, false, 0) == 1;
    assert x[..4] == x && w[..4] == w && b[..1] == b;
    LetterB();
  }

  lemma LetterB()
    ensures RegSeq("b", "b", 0, false) == Hit(1)
  {
    var b := "b";
    assert StrEnd(b, 0) == StrEnd(b, 1) == Some(1) && b[..1] == b && b[1..] == [];
    assert Plain(b, 0, b, 0) == Plain(b, 1, b, 1) == Some(1);
    assert RegRep(b, b, 0) == (Hit(1), 1);
    assert RegSeq([], b, 1, true) == Hit(0);
  }

  lemma StarLetter()
    ensures StrAnswer("a", "a*", 0) == Hit(1) && StrAnswer("\\*", "a*", 1) == Hit(1)
  {
    assert Plain("a", 0, "a*", 0) == Plain("a", 1, "a*", 1) == Some(1);
    assert Plain("\\*", 0, "a*", 1) == Plain("\\*", 2, "a*", 2) == Some(2);
  }

  lemma OneLetter()
    ensures StrAnswer("a", "ab", 0) == Hit(1) && StrAnswer("", "..", 0) == Miss
  {
    assert Plain("a", 0, "ab", 0) == Plain("a", 1, "ab", 1) == Some(1);
  }

  lemma DotStar()
    ensures RegSeq(".*", "ab", 1, true) == Hit(1)
  {
    hide Times, Piece, Quantified, RegRep, StrEnd;
    DotRep();
    SeqLast(".*", "ab", 1);
  }

  lemma DotRep()
    ensures RegRep(".*", "ab", 1) == (Hit(1), 2)
  {
    hide Times, Piece, StrEnd;
    BareUnder('.', '*', []);
    assert ['.', '*'] + [] == ".*" && ['*'] + [] == "*" && Quantified("*") == Some(Bounds(1, 0, 0));
    DotTimes();
  }

  lemma DotTimes()
    ensures Times('.', ".", "ab", 1, 0, 0, 0) == Hit(1)
  {
    assert Plain(".", 0, "ab", 1) == Plain(".", 1, "ab", 2) == Some(2);
    assert Plain(".", 0, "ab", 2) == None;
    assert Times('.', ".", "ab", 2, 1, 0, 0) == Hit(0);
  }

  // --- the combinators -----------------------------------------------------------------------------------

  /** The tree of a match, with what pruning leaves of it; no name is the empty one. */
  datatype Branch = Branch(name: string, off: nat, length: nat, kids: seq<Branch>)

  /** A text and the rules; `fuel` bounds the depth of references to rules. */
  datatype Source = Source(text: string, rules: seq<Grammar>) {
    function Parsed(g: Grammar, off: nat, fuel: nat): (a: Answer)
      requires off <= |text|
      ensures Fits(a, text, off)
      decreases fuel, g, 1, 0
    {
      match g
      case Str(s) => if s <= text[off..] then Hit(|s|) else Miss
      case Rng(range) => RangeAnswer(range, text, off)
      case Rex(regex) => RegAlt(regex, text, off)
      case Seq(items) => SeqFrom(g, 0, off, fuel)
      case Alt(_, _) => AltFrom(g, 0, off, fuel, None)
      case Rep(of, min, max) => RepFrom(of, off, fuel, 0, min, max)
      case Eseq(start, elt, sep, end) => EseqAnswer(g, off, fuel)
      case Ref(rule) => if fuel == 0 || rule >= |rules| then Err else Parsed(rules[rule], off, fuel - 1)
      case Named(_, of) => Parsed(of, off, fuel)
    }

    /** fabr_rep, after `count` matches. */
    function RepFrom(of: Grammar, off: nat, fuel: nat, count: nat, min: nat, max: nat): (a: Answer)
      requires off <= |text|
      ensures Fits(a, text, off)
      decreases fuel, of, 2, |text| - off
    {
      match Parsed(of, off, fuel)
      case Err => Err
      case Miss => if count < min then Miss else Hit(0)
      case Hit(n) =>
        if count + 1 == max || n == 0 then if count + 1 < min then Miss else Hit(n)
        else Then(n, RepFrom(of, off + n, fuel, count + 1, min, max))
    }

    /** An item of fabr_seq, after `count` matches. */
    function ItemFrom(of: Grammar, q: Quantifier, off: nat, fuel: nat, count: nat): (a: Answer)
      requires off <= |text|
      ensures Fits(a, text, off)
      decreases fuel, of, 2, |text| - off
    {
      match Parsed(of, off, fuel)
      case Err => Err
      case Miss => if q == One || (q == Plus && count == 0) then Miss else Hit(0)
      case Hit(n) =>
        if q == One || q == Qmark || n == 0 then Hit(n)
        else Then(n, ItemFrom(of, q, off + n, fuel, count + 1))
    }

    function SeqFrom(g: Grammar, i: nat, off: nat, fuel: nat): (a: Answer)
      requires off <= |text| && g.Seq? && i <= |g.items|
      ensures Fits(a, text, off)
      decreases fuel, g, 0, |g.items| - i
    {
      if i == |g.items| then Hit(0) else
      var a := ItemFrom(g.items[i].g, g.items[i].q, off, fuel, 0);
      if a.Hit? then Then(a.length, SeqFrom(g, i + 1, off + a.length, fuel)) else a
    }

    /** fabr_altgr: the first match, or, when greedy, the longest one; `best` is the longest so far. */
    function AltFrom(g: Grammar, i: nat, off: nat, fuel: nat, best: Option<nat>): (a: Answer)
      requires off <= |text| && g.Alt? && i <= |g.choices| && (best.Some? ==> off + best.value <= |text|)
      ensures Fits(a, text, off)
      decreases fuel, g, 0, |g.choices| - i
    {
      if i == |g.choices| then if best.Some? then Hit(best.value) else Miss
      else
        match Parsed(g.choices[i], off, fuel)
        case Err => Err
        case Miss => AltFrom(g, i + 1, off, fuel, best)
        case Hit(n) =>
          if !g.greedy then Hit(n)
          else AltFrom(g, i + 1, off, fuel, if best.None? || n >= best.value then Some(n) else best)
    }

    /** One round of fabr_eseq: its answer, and whether it is the last one. */
    function Round(g: Grammar, off: nat, fuel: nat, first: bool): (r: (Answer, bool))
      requires off <= |text| && g.Eseq?
      ensures Fits(r.0, text, off) && (r.0.Hit? && !r.1 && !first ==> r.0.length > 0)
      decreases fuel, g, 0, 0
    {
      if first then
        match Parsed(g.elt, off, fuel)
        case Miss => if g.start.None? && g.end.None? then (Miss, true) else (Hit(0), true)
        case a => (a, false)
      else
        match Parsed(g.sep, off, fuel)
        case Err => (Err, true)
        case Miss => (Hit(0), true)
        case Hit(m) =>
          var a := Parsed(g.elt, off + m, fuel);
          if m == 0 && (a == Miss || a == Hit(0)) then (Hit(0), true) else (Then(m, a), false)
    }

    function EseqFrom(g: Grammar, off: nat, fuel: nat, first: bool): (a: Answer)
      requires off <= |text| && g.Eseq?
      ensures Fits(a, text, off)
      decreases fuel, g, 0, 2 * (|text| - off) + if first then 2 else 1
    {
      var (a, over) := Round(g, off, fuel, first);
      if !a.Hit? || over then a else Then(a.length, EseqFrom(g, off + a.length, fuel, false))
    }

    /** fabr_eseq, and fabr_jseq when there is neither start nor end: elements between separators. */
    function EseqAnswer(g: Grammar, off: nat, fuel: nat): (a: Answer)
      requires off <= |text| && g.Eseq?
      ensures Fits(a, text, off)
      decreases fuel, g, 0, 2 * |text| + 3
    {
      var s := if g.start.Some? then Parsed(g.start.value, off, fuel) else Hit(0);
      if !s.Hit? then s else
      var e := EseqFrom(g, off + s.length, fuel, true);
      if !e.Hit? then e else
      var n := s.length + e.length;
      if g.end.Some? then Then(n, Parsed(g.end.value, off + n, fuel)) else Hit(n)
    }

    // --- the trees of matches, when pruned ---------------------------------------------------------------

    /** The choice that fabr_altgr takes: the first match, or, when greedy, the last of the longest ones. */
    function Winner(g: Grammar, i: nat, off: nat, fuel: nat, best: Option<nat>): (k: Option<nat>)
      requires off <= |text| && g.Alt? && i <= |g.choices|
      requires best.Some? ==> best.value < |g.choices| && Parsed(g.choices[best.value], off, fuel).Hit?
      ensures k.Some? ==> k.value < |g.choices| && Parsed(g.choices[k.value], off, fuel).Hit?
      decreases |g.choices| - i
    {
      if i == |g.choices| then best
      else
        match Parsed(g.choices[i], off, fuel)
        case Err => None
        case Miss => Winner(g, i + 1, off, fuel, best)
        case Hit(n) =>
          if !g.greedy then Some(i)
          else
            var better := best.None? || n >= Parsed(g.choices[best.value], off, fuel).length;
            Winner(g, i + 1, off, fuel, if better then Some(i) else best)
    }

    /** The tree of a match: failures are freed, and the match of a regex keeps no children. */
    function Kept(g: Grammar, off: nat, fuel: nat): Branch
      requires off <= |text|
      decreases fuel, g, 1, 0
    {
      var n := if Parsed(g, off, fuel).Hit? then Parsed(g, off, fuel).length else 0;
      match g
      case Seq(_) => Branch("", off, n, SeqKept(g, 0, off, fuel))
      case Alt(_, choices) =>
        var k := Winner(g, 0, off, fuel, None);
        Branch("", off, n, if k.Some? then [Kept(choices[k.value], off, fuel)] else [])
      case Rep(of, _, max) => Branch("", off, n, RepKept(of, off, fuel, 0, max))
      case Eseq(start, _, _, end) =>
        var s := if start.Some? then Parsed(start.value, off, fuel) else Hit(0);
        if !s.Hit? then Branch("", off, n, []) else
        var e := EseqFrom(g, off + s.length, fuel, true);
        if !e.Hit? then Branch("", off, n, []) else
        Branch("", off, n,
          (if start.Some? then [Kept(start.value, off, fuel)] else [])
          + EseqKept(g, off + s.length, fuel, true)
          + (if end.Some? then [Kept(end.value, off + s.length + e.length, fuel)] else []))
      case Ref(rule) => if fuel == 0 || rule >= |rules| then Branch("", off, 0, []) else Kept(rules[rule], off, fuel - 1)
      case Named(name, of) => Kept(of, off, fuel).(name := name)
      case _ => Branch("", off, n, [])
    }

    function RepKept(of: Grammar, off: nat, fuel: nat, count: nat, max: nat): seq<Branch>
      requires off <= |text|
      decreases fuel, of, 2, |text| - off
    {
      match Parsed(of, off, fuel)
      case Hit(n) =>
        [Kept(of, off, fuel)] + if count + 1 == max || n == 0 then [] else RepKept(of, off + n, fuel, count + 1, max)
      case _ => []
    }

    function ItemKept(of: Grammar, q: Quantifier, off: nat, fuel: nat): seq<Branch>
      requires off <= |text|
      decreases fuel, of, 2, |text| - off
    {
      match Parsed(of, off, fuel)
      case Hit(n) =>
        [Kept(of, off, fuel)] + if q == One || q == Qmark || n == 0 then [] else ItemKept(of, q, off + n, fuel)
      case _ => []
    }

    function SeqKept(g: Grammar, i: nat, off: nat, fuel: nat): seq<Branch>
      requires off <= |text| && g.Seq? && i <= |g.items|
      decreases fuel, g, 0, |g.items| - i
    {
      if i == |g.items| then [] else
      var a := ItemFrom(g.items[i].g, g.items[i].q, off, fuel, 0);
      ItemKept(g.items[i].g, g.items[i].q, off, fuel) + if a.Hit? then SeqKept(g, i + 1, off + a.length, fuel) else []
    }

    function RoundKept(g: Grammar, off: nat, fuel: nat, first: bool): seq<Branch>
      requires off <= |text| && g.Eseq?
      decreases fuel, g, 0, 0
    {
      if first then
        if Parsed(g.elt, off, fuel).Hit? then [Kept(g.elt, off, fuel)] else []
      else
        match Parsed(g.sep, off, fuel)
        case Hit(m) =>
          var a := Parsed(g.elt, off + m, fuel);
          if m == 0 && (a == Miss || a == Hit(0)) then []
          else [Kept(g.sep, off, fuel)] + if a.Hit? then [Kept(g.elt, off + m, fuel)] else []
        case _ => []
    }

    function EseqKept(g: Grammar, off: nat, fuel: nat, first: bool): seq<Branch>
      requires off <= |text| && g.Eseq?
      decreases fuel, g, 0, 2 * (|text| - off) + if first then 2 else 1
    {
      var (a, over) := Round(g, off, fuel, first);
      RoundKept(g, off, fuel, first) + if !a.Hit? || over then [] else EseqKept(g, off + a.length, fuel, false)
    }

    // --- one step at a time ------------------------------------------------------------------------------

    lemma RepIs(of: Grammar, off: nat, fuel: nat, count: nat, min: nat, max: nat)
      requires off <= |text|
      ensures
        var a := Parsed(of, off, fuel);
        RepFrom(of, off, fuel, count, min, max)
        == if a == Err then Err
           else if a == Miss then if count < min then Miss else Hit(0)
           else if count + 1 == max || a.length == 0 then if count + 1 < min then Miss else a
           else Then(a.length, RepFrom(of, off + a.length, fuel, count + 1, min, max))
    {
      hide Parsed;
    }

    lemma ItemIs(of: Grammar, q: Quantifier, off: nat, fuel: nat, count: nat)
      requires off <= |text|
      ensures
        var a := Parsed(of, off, fuel);
        ItemFrom(of, q, off, fuel, count)
        == if a == Err then Err
           else if a == Miss then if q == One || (q == Plus && count == 0) then Miss else Hit(0)
           else if q == One || q == Qmark || a.length == 0 then a
           else Then(a.length, ItemFrom(of, q, off + a.length, fuel, count + 1))
    {
      hide Parsed;
    }

    lemma RoundIs(g: Grammar, off: nat, fuel: nat, first: bool)
      requires off <= |text| && g.Eseq?
      ensures first ==>
        var e := Parsed(g.elt, off, fuel);
        Round(g, off, fuel, first)
        == if e != Miss then (e, false) else if g.start.None? && g.end.None? then (Miss, true) else (Hit(0), true)
      ensures !first ==>
        var s := Parsed(g.sep, off, fuel);
        Round(g, off, fuel, first)
        == if s == Err then (Err, true)
           else if s == Miss then (Hit(0), true)
           else
             var e := Parsed(g.elt, off + s.length, fuel);
             if s.length == 0 && (e == Miss || e == Hit(0)) then (Hit(0), true) else (Then(s.length, e), false)
    {
      hide Parsed;
    }

    lemma EseqIs(g: Grammar, off: nat, fuel: nat, first: bool)
      requires off <= |text| && g.Eseq?
      ensures
        var (a, over) := Round(g, off, fuel, first);
        && (a.Hit? && !over && !first ==> a.length > 0)
        && EseqFrom(g, off, fuel, first)
           == if !a.Hit? || over then a else Then(a.length, EseqFrom(g, off + a.length, fuel, false))
    {
      hide Parsed;
    }

    lemma EseqAnswerIs(g: Grammar, off: nat, fuel: nat)
      requires off <= |text| && g.Eseq?
      ensures
        var s := if g.start.Some? then Parsed(g.start.value, off, fuel) else Hit(0);
        EseqAnswer(g, off, fuel)
        == if !s.Hit? then s else
           var e := EseqFrom(g, off + s.length, fuel, true);
           if !e.Hit? then e else
           if g.end.None? then Hit(s.length + e.length)
           else Then(s.length + e.length, Parsed(g.end.value, off + s.length + e.length, fuel))
    {
      hide Parsed, EseqFrom;
    }

    lemma WinnerIs(g: Grammar, i: nat, off: nat, fuel: nat, best: Option<nat>)
      requires off <= |text| && g.Alt? && i < |g.choices|
      requires best.Some? ==> best.value < |g.choices| && Parsed(g.choices[best.value], off, fuel).Hit?
      ensures
        var a := Parsed(g.choices[i], off, fuel);
        Winner(g, i, off, fuel, best)
        == if a == Err then None
           else if a == Miss then Winner(g, i + 1, off, fuel, best)
           else if !g.greedy then Some(i)
           else
             var better := best.None? || a.length >= Parsed(g.choices[best.value], off, fuel).length;
             Winner(g, i + 1, off, fuel, if better then Some(i) else best)
    {
      hide Parsed;
    }

    lemma WinnerOver(g: Grammar, off: nat, fuel: nat, best: Option<nat>)
      requires off <= |text| && g.Alt?
      requires best.Some? ==> best.value < |g.choices| && Parsed(g.choices[best.value], off, fuel).Hit?
      ensures Winner(g, |g.choices|, off, fuel, best) == best
    {
      hide Parsed;
    }

    lemma SeqKeptOver(g: Grammar, off: nat, fuel: nat)
      requires off <= |text| && g.Seq?
      ensures SeqKept(g, |g.items|, off, fuel) == []
    {
    }

    lemma AltParsed(g: Grammar, off: nat, fuel: nat)
      requires off <= |text| && g.Alt?
      ensures Parsed(g, off, fuel) == AltFrom(g, 0, off, fuel, None)
    {
      hide AltFrom;
    }

    lemma EseqParsed(g: Grammar, off: nat, fuel: nat)
      requires off <= |text| && g.Eseq?
      ensures Parsed(g, off, fuel) == EseqAnswer(g, off, fuel)
    {
      hide EseqAnswer;
    }

    lemma RepKeptIs(of: Grammar, off: nat, fuel: nat, count: nat, max: nat)
      requires off <= |text|
      ensures
        var a := Parsed(of, off, fuel);
        RepKept(of, off, fuel, count, max)
        == if !a.Hit? then []
           else if count + 1 == max || a.length == 0 then [Kept(of, off, fuel)]
           else [Kept(of, off, fuel)] + RepKept(of, off + a.length, fuel, count + 1, max)
    {
      hide Parsed, Kept;
    }

    lemma ItemKeptIs(of: Grammar, q: Quantifier, off: nat, fuel: nat)
      requires off <= |text|
      ensures
        var a := Parsed(of, off, fuel);
        ItemKept(of, q, off, fuel)
        == if !a.Hit? then []
           else if q == One || q == Qmark || a.length == 0 then [Kept(of, off, fuel)]
           else [Kept(of, off, fuel)] + ItemKept(of, q, off + a.length, fuel)
    {
      hide Parsed, Kept;
    }

    lemma SeqKeptIs(g: Grammar, i: nat, off: nat, fuel: nat)
      requires off <= |text| && g.Seq? && i < |g.items|
      ensures
        var a := ItemFrom(g.items[i].g, g.items[i].q, off, fuel, 0);
        SeqKept(g, i, off, fuel)
        == ItemKept(g.items[i].g, g.items[i].q, off, fuel) + if a.Hit? then SeqKept(g, i + 1, off + a.length, fuel) else []
    {
      hide ItemFrom, ItemKept;
    }

    lemma RoundKeptIs(g: Grammar, off: nat, fuel: nat, first: bool)
      requires off <= |text| && g.Eseq?
      ensures first ==>
        RoundKept(g, off, fuel, first) == if Parsed(g.elt, off, fuel).Hit? then [Kept(g.elt, off, fuel)] else []
      ensures !first ==>
        var s := Parsed(g.sep, off, fuel);
        RoundKept(g, off, fuel, first)
        == if !s.Hit? then []
           else
             var e := Parsed(g.elt, off + s.length, fuel);
             if s.length == 0 && (e == Miss || e == Hit(0)) then []
             else [Kept(g.sep, off, fuel)] + if e.Hit? then [Kept(g.elt, off + s.length, fuel)] else []
    {
      hide Parsed, Kept;
    }

    lemma EseqKeptIs(g: Grammar, off: nat, fuel: nat, first: bool)
      requires off <= |text| && g.Eseq?
      ensures
        var (a, over) := Round(g, off, fuel, first);
        EseqKept(g, off, fuel, first)
        == RoundKept(g, off, fuel, first) + if !a.Hit? || over then [] else EseqKept(g, off + a.length, fuel, false)
    {
      hide Round, RoundKept;
    }

    lemma KeptIs(g: Grammar, off: nat, fuel: nat)
      requires off <= |text| && Parsed(g, off, fuel).Hit?
      ensures
        var n := Parsed(g, off, fuel).length;
        && (g.Str? || g.Rng? || g.Rex? ==> Kept(g, off, fuel) == Branch("", off, n, []))
        && (g.Seq? ==> Kept(g, off, fuel) == Branch("", off, n, SeqKept(g, 0, off, fuel)))
        && (g.Rep? ==> Kept(g, off, fuel) == Branch("", off, n, RepKept(g.of, off, fuel, 0, g.max)))
        && (g.Ref? ==> fuel > 0 && g.rule < |rules| && Kept(g, off, fuel) == Kept(rules[g.rule], off, fuel - 1))
        && (g.Named? ==> Kept(g, off, fuel) == Kept(g.of, off, fuel).(name := g.name))
    {
      hide RepKept, SeqKept, EseqKept, Winner;
    }

    lemma AltKept(g: Grammar, off: nat, fuel: nat)
      requires off <= |text| && g.Alt? && Parsed(g, off, fuel).Hit?
      ensures
        var k := Winner(g, 0, off, fuel, None);
        Kept(g, off, fuel)
        == Branch("", off, Parsed(g, off, fuel).length, if k.Some? then [Kept(g.choices[k.value], off, fuel)] else [])
    {
      hide Winner;
    }

    lemma EseqTree(g: Grammar, off: nat, fuel: nat)
      requires off <= |text| && g.Eseq? && Parsed(g, off, fuel).Hit?
      ensures
        var s := if g.start.Some? then Parsed(g.start.value, off, fuel) else Hit(0);
        && s.Hit?
        && var e := EseqFrom(g, off + s.length, fuel, true);
           && e.Hit?
           && Kept(g, off, fuel)
              == Branch("", off, Parsed(g, off, fuel).length,
                   (if g.start.Some? then [Kept(g.start.value, off, fuel)] else [])
                   + EseqKept(g, off + s.length, fuel, true)
                   + (if g.end.Some? then [Kept(g.end.value, off + s.length + e.length, fuel)] else []))
    {
      hide EseqKept, EseqFrom;
    }

    // --- laws --------------------------------------------------------------------------------------------

    /** The quantifiers of a sequence are repetitions: `*` any number, `+` at least one. */
    lemma {:induction false} StarsAreRepetitions(of: Grammar, q: Quantifier, off: nat, fuel: nat, count: nat)
      requires off <= |text| && (q == Star || q == Plus)
      ensures ItemFrom(of, q, off, fuel, count) == RepFrom(of, off, fuel, count, if q == Plus then 1 else 0, 0)
      decreases |text| - off
    {
      hide Parsed, RepFrom;
      RepStep(of, off, fuel, count, if q == Plus then 1 else 0, 0);
      var a := Parsed(of, off, fuel);
      if a.Hit? && a.length > 0 { StarsAreRepetitions(of, q, off + a.length, fuel, count + 1); }
    }

    /** The lengths of matches one after the other, none but the last one empty. */
    ghost predicate Row(of: Grammar, off: nat, fuel: nat, ls: seq<nat>)
      requires off <= |text|
      decreases |ls|
    {
      ls != [] ==>
        Parsed(of, off, fuel) == Hit(ls[0]) && (|ls| > 1 ==> ls[0] > 0) && Row(of, off + ls[0], fuel, ls[1..])
    }

    lemma {:induction false} RowFits(of: Grammar, off: nat, fuel: nat, ls: seq<nat>)
      requires off <= |text| && Row(of, off, fuel, ls)
      ensures off + Sum(ls) <= |text|
      decreases |ls|
    {
      hide Parsed;
      if ls != [] { RowFits(of, off + ls[0], fuel, ls[1..]); }
    }

    /** A repetition goes on up to its upper bound, an empty match, or what does not match; it fails when it has matched
        too few times by then, and errs where its grammar does. */
    lemma {:induction false} RepetitionIs(of: Grammar, off: nat, fuel: nat, count: nat, min: nat, max: nat) returns (ls: seq<nat>)
      requires off <= |text| && (max == 0 || count < max)
      ensures Row(of, off, fuel, ls) && off + Sum(ls) <= |text|
      ensures
        var a, n, next := RepFrom(of, off, fuel, count, min, max), count + |ls|, Parsed(of, off + Sum(ls), fuel);
        && (max == 0 || n <= max)
        && (a == Err ==> next == Err && (max == 0 || n < max) && (ls != [] ==> ls[|ls| - 1] > 0))
        && (a != Err ==> (max > 0 && n == max) || (ls != [] && ls[|ls| - 1] == 0) || next == Miss)
        && (a == Miss ==> n < min)
        && (a.Hit? ==> n >= min && a.length == Sum(ls))
      decreases |text| - off
    {
      hide Parsed, Row, Sum, RepFrom;
      RepStep(of, off, fuel, count, min, max);
      NoRow(of, off, fuel);
      var a := Parsed(of, off, fuel);
      ls := [];
      if a.Hit? {
        var rest: seq<nat> := [];
        if count + 1 == max || a.length == 0 {
          NoRow(of, off + a.length, fuel);
        } else {
          rest := RepetitionIs(of, off + a.length, fuel, count + 1, min, max);
        }
        RowMore(of, off, fuel, a.length, rest);
        ls := [a.length] + rest;
      }
    }

    lemma RepStep(of: Grammar, off: nat, fuel: nat, count: nat, min: nat, max: nat)
      requires off <= |text|
      ensures
        RepFrom(of, off, fuel, count, min, max)
        == match Parsed(of, off, fuel)
           case Err => Err
           case Miss => if count < min then Miss else Hit(0)
           case Hit(n) =>
             if count + 1 == max || n == 0 then if count + 1 < min then Miss else Hit(n)
             else Then(n, RepFrom(of, off + n, fuel, count + 1, min, max))
    {
      hide Parsed;
    }

    lemma NoRow(of: Grammar, off: nat, fuel: nat)
      requires off <= |text|
      ensures Row(of, off, fuel, []) && Sum([]) == 0
    {
    }

    lemma RowMore(of: Grammar, off: nat, fuel: nat, n: nat, rest: seq<nat>)
      requires off + n <= |text| && Parsed(of, off, fuel) == Hit(n) && (rest != [] ==> n > 0)
      requires Row(of, off + n, fuel, rest)
      ensures Row(of, off, fuel, [n] + rest) && Sum([n] + rest) == n + Sum(rest)
    {
      hide Parsed;
      assert ([n] + rest)[1..] == rest;
    }

    /** The lengths of separators and elements in turn, no such pair empty. */
    ghost predicate Pairs(g: Grammar, off: nat, fuel: nat, ls: seq<nat>)
      requires off <= |text| && g.Eseq?
      decreases |ls|
    {
      ls != [] ==>
        var s := Parsed(g.sep, off, fuel);
        && s.Hit? && s.length <= ls[0] && ls[0] > 0
        && Parsed(g.elt, off + s.length, fuel) == Hit(ls[0] - s.length) && Pairs(g, off + ls[0], fuel, ls[1..])
    }

    lemma {:induction false} PairsFit(g: Grammar, off: nat, fuel: nat, ls: seq<nat>)
      requires off <= |text| && g.Eseq? && Pairs(g, off, fuel, ls)
      ensures off + Sum(ls) <= |text|
      decreases |ls|
    {
      hide Parsed;
      if ls != [] { PairsFit(g, off + ls[0], fuel, ls[1..]); }
    }

    /** Behind its first element a list goes on by a separator and an element, to where there is no separator, or an empty
        one before an empty element or none; a separator that takes something and no element behind it are a failure. */
    lemma {:induction false} RoundsAre(g: Grammar, off: nat, fuel: nat) returns (ls: seq<nat>)
      requires off <= |text| && g.Eseq?
      ensures Pairs(g, off, fuel, ls) && off + Sum(ls) <= |text|
      ensures
        var a, at := EseqFrom(g, off, fuel, false), off + Sum(ls);
        var s := Parsed(g.sep, at, fuel);
        match a
        case Hit(n) =>
          n == Sum(ls) && (s == Miss || (s == Hit(0) && (Parsed(g.elt, at, fuel) == Miss || Parsed(g.elt, at, fuel) == Hit(0))))
        case Miss => s.Hit? && s.length > 0 && Parsed(g.elt, at + s.length, fuel) == Miss
        case Err => s == Err || (s.Hit? && Parsed(g.elt, at + s.length, fuel) == Err)
      decreases |text| - off
    {
      hide Parsed;
      var (a, over) := Round(g, off, fuel, false);
      if a.Hit? && !over {
        var rest := RoundsAre(g, off + a.length, fuel);
        ls := [a.length] + rest;
        PairsFit(g, off, fuel, ls);
      } else {
        ls := [];
      }
    }

    /** Between no marks there has to be a first element. */
    lemma FirstElement(elt: Grammar, sep: Grammar, off: nat, fuel: nat)
      requires off <= |text|
      ensures
        var g, a := Eseq(None, elt, sep, None), Parsed(elt, off, fuel);
        Parsed(g, off, fuel) == if a.Hit? then Then(a.length, EseqFrom(g, off + a.length, fuel, false)) else a
    {
      hide RangeAnswer, RegAlt, EseqAnswer, EseqFrom;
      var g := Eseq(None, elt, sep, None);
      Unmarked(g, off, fuel);
      FirstRound(g, off, fuel);
    }

    lemma Unmarked(g: Grammar, off: nat, fuel: nat)
      requires off <= |text| && g.Eseq? && g.start == None && g.end == None
      ensures EseqAnswer(g, off, fuel) == EseqFrom(g, off, fuel, true)
    {
      hide EseqFrom;
    }

    lemma FirstRound(g: Grammar, off: nat, fuel: nat)
      requires off <= |text| && g.Eseq? && g.start == None && g.end == None
      ensures
        var a := Parsed(g.elt, off, fuel);
        EseqFrom(g, off, fuel, true) == if a.Hit? then Then(a.length, EseqFrom(g, off + a.length, fuel, false)) else a
    {
      hide Parsed;
      var a := Parsed(g.elt, off, fuel);
      assert Round(g, off, fuel, true) == (a, a == Miss);
    }

    /** A greedy alternative errs when a choice does, fails when all choices fail, and otherwise matches as much as the
        longest of them, whatever their order. */
    lemma {:induction false} GreedyIsLongest(g: Grammar, i: nat, off: nat, fuel: nat, best: Option<nat>)
      requires off <= |text| && g.Alt? && g.greedy && i <= |g.choices| && (best.Some? ==> off + best.value <= |text|)
      ensures
        var a := AltFrom(g, i, off, fuel, best);
        && (a == Err <==> exists k :: i <= k < |g.choices| && Parsed(g.choices[k], off, fuel) == Err)
        && (a == Miss <==> best == None && forall k :: i <= k < |g.choices| ==> Parsed(g.choices[k], off, fuel) == Miss)
        && (a.Hit? ==>
              && (best == Some(a.length) || exists k :: i <= k < |g.choices| && Parsed(g.choices[k], off, fuel) == a)
              && (best.Some? ==> best.value <= a.length)
              && forall k :: i <= k < |g.choices| && Parsed(g.choices[k], off, fuel).Hit?
                   ==> Parsed(g.choices[k], off, fuel).length <= a.length)
      decreases |g.choices| - i
    {
      if i < |g.choices| {
        var a := Parsed(g.choices[i], off, fuel);
        if a != Err {
          GreedyIsLongest(g, i + 1, off, fuel,
            if a.Hit? && (best.None? || a.length >= best.value) then Some(a.length) else best);
        }
      }
    }

    /** Without greed it is the first choice that does not fail. */
    lemma {:induction false} FirstIsTaken(g: Grammar, i: nat, k: nat, off: nat, fuel: nat)
      requires off <= |text| && g.Alt? && !g.greedy && i <= k <= |g.choices|
      requires forall j :: i <= j < k ==> Parsed(g.choices[j], off, fuel) == Miss
      requires k < |g.choices| ==> Parsed(g.choices[k], off, fuel) != Miss
      ensures AltFrom(g, i, off, fuel, None) == if k < |g.choices| then Parsed(g.choices[k], off, fuel) else Miss
      decreases k - i
    {
      hide Parsed;
      if i < k { FirstIsTaken(g, i + 1, k, off, fuel); }
    }

    /** More fuel changes no answer but an error, so that the depth of references is no part of what a grammar means. */
    lemma {:induction false} FuelIsEnough(g: Grammar, off: nat, fuel: nat, more: nat)
      requires off <= |text| && fuel <= more && Parsed(g, off, fuel) != Err
      ensures Parsed(g, off, more) == Parsed(g, off, fuel)
      decreases fuel, g, 1, 0
    {
      hide SeqFrom, AltFrom, RepFrom, EseqFrom, Round, RangeAnswer, RegAlt;
      match g
      case Seq(_) => SeqFuel(g, 0, off, fuel, more);
      case Alt(_, _) => AltFuel(g, 0, off, fuel, more, None);
      case Rep(of, min, max) => RepFuel(of, off, fuel, more, 0, min, max);
      case Eseq(start, _, _, end) =>
        if start.Some? { FuelIsEnough(start.value, off, fuel, more); }
        var s := if start.Some? then Parsed(start.value, off, fuel) else Hit(0);
        if s.Hit? {
          EseqFuel(g, off + s.length, fuel, more, true);
          var e := EseqFrom(g, off + s.length, fuel, true);
          if e.Hit? && end.Some? { FuelIsEnough(end.value, off + s.length + e.length, fuel, more); }
        }
      case Ref(rule) => FuelIsEnough(rules[rule], off, fuel - 1, more - 1);
      case Named(_, of) => FuelIsEnough(of, off, fuel, more);
      case _ =>
    }

    lemma {:induction false} RepFuel(of: Grammar, off: nat, fuel: nat, more: nat, count: nat, min: nat, max: nat)
      requires off <= |text| && fuel <= more && RepFrom(of, off, fuel, count, min, max) != Err
      ensures RepFrom(of, off, more, count, min, max) == RepFrom(of, off, fuel, count, min, max)
      decreases fuel, of, 2, |text| - off
    {
      FuelIsEnough(of, off, fuel, more);
      var a := Parsed(of, off, fuel);
      if a.Hit? && count + 1 != max && a.length > 0 {
        RepFuel(of, off + a.length, fuel, more, count + 1, min, max);
      }
    }

    lemma {:induction false} ItemFuel(of: Grammar, q: Quantifier, off: nat, fuel: nat, more: nat, count: nat)
      requires off <= |text| && fuel <= more && ItemFrom(of, q, off, fuel, count) != Err
      ensures ItemFrom(of, q, off, more, count) == ItemFrom(of, q, off, fuel, count)
      decreases fuel, of, 2, |text| - off
    {
      hide ItemFrom, Parsed;
      ItemIs(of, q, off, fuel, count);
      ItemIs(of, q, off, more, count);
      FuelIsEnough(of, off, fuel, more);
      var a := Parsed(of, off, fuel);
      if a.Hit? && q != One && q != Qmark && a.length > 0 {
        ItemFuel(of, q, off + a.length, fuel, more, count + 1);
      }
    }

    lemma {:induction false} SeqFuel(g: Grammar, i: nat, off: nat, fuel: nat, more: nat)
      requires off <= |text| && g.Seq? && i <= |g.items| && fuel <= more && SeqFrom(g, i, off, fuel) != Err
      ensures SeqFrom(g, i, off, more) == SeqFrom(g, i, off, fuel)
      decreases fuel, g, 0, |g.items| - i
    {
      if i < |g.items| {
        ItemFuel(g.items[i].g, g.items[i].q, off, fuel, more, 0);
        var a := ItemFrom(g.items[i].g, g.items[i].q, off, fuel, 0);
        if a.Hit? { SeqFuel(g, i + 1, off + a.length, fuel, more); }
      }
    }

    lemma {:induction false} AltFuel(g: Grammar, i: nat, off: nat, fuel: nat, more: nat, best: Option<nat>)
      requires off <= |text| && g.Alt? && i <= |g.choices| && (best.Some? ==> off + best.value <= |text|)
      requires fuel <= more && AltFrom(g, i, off, fuel, best) != Err
      ensures AltFrom(g, i, off, more, best) == AltFrom(g, i, off, fuel, best)
      decreases fuel, g, 0, |g.choices| - i
    {
      if i < |g.choices| {
        FuelIsEnough(g.choices[i], off, fuel, more);
        var a := Parsed(g.choices[i], off, fuel);
        if a == Miss || g.greedy {
          AltFuel(g, i + 1, off, fuel, more,
            if a.Hit? && (best.None? || a.length >= best.value) then Some(a.length) else best);
        }
      }
    }

    lemma {:induction false} RoundFuel(g: Grammar, off: nat, fuel: nat, more: nat, first: bool)
      requires off <= |text| && g.Eseq? && fuel <= more && Round(g, off, fuel, first).0 != Err
      ensures Round(g, off, more, first) == Round(g, off, fuel, first)
      decreases fuel, g, 0, 0
    {
      if first {
        FuelIsEnough(g.elt, off, fuel, more);
      } else {
        FuelIsEnough(g.sep, off, fuel, more);
        var s := Parsed(g.sep, off, fuel);
        if s.Hit? { FuelIsEnough(g.elt, off + s.length, fuel, more); }
      }
    }

    lemma {:induction false} EseqFuel(g: Grammar, off: nat, fuel: nat, more: nat, first: bool)
      requires off <= |text| && g.Eseq? && fuel <= more && EseqFrom(g, off, fuel, first) != Err
      ensures EseqFrom(g, off, more, first) == EseqFrom(g, off, fuel, first)
      decreases fuel, g, 0, 2 * (|text| - off) + if first then 2 else 1
    {
      RoundFuel(g, off, fuel, more, first);
      var (a, over) := Round(g, off, fuel, first);
      if a.Hit? && !over { EseqFuel(g, off + a.length, fuel, more, false); }
    }
  }
}
