/** The parser combinators and their regex engine, over any grammar and any input: what a result says of the
    offset, how the trees tile, and the progress that ends every loop. */
module Combinators {
  import opened Values
  import opened Grammars

  /** How the children of a tree relate to it. */
  datatype Kind = Leaf | Chain | Choice

  datatype Tree = Tree(kind: Kind, result: int, off: nat, length: nat, children: seq<Tree>, name: string := "")

  /** What a tree answers. */
  function AnswerOf(t: Tree): Answer {
    if t.result == 1 then Hit(t.length) else if t.result == 0 then Miss else Err
  }

  // --- trees -------------------------------------------------------------------------------------------

  /** The children follow one another, from `off` to `end`. */
  predicate Tiles(ts: seq<Tree>, off: nat, end: nat) {
    if ts == [] then off == end else
    var n := |ts| - 1;
    ts[n].off + ts[n].length == end && Tiles(ts[..n], off, ts[n].off)
  }

  lemma TilesMore(ts: seq<Tree>, off: nat, t: Tree)
    requires Tiles(ts, off, t.off)
    ensures Tiles(ts + [t], off, t.off + t.length)
  {
    assert (ts + [t])[..|ts|] == ts;
  }

  lemma Tiles0(off: nat)
    ensures Tiles([], off, off)
  {
  }

  lemma {:induction false} TilesJoin(a: seq<Tree>, off: nat, mid: nat, b: seq<Tree>, end: nat)
    requires Tiles(a, off, mid) && Tiles(b, mid, end)
    ensures Tiles(a + b, off, end)
    decreases |b|
  {
    if b == [] {
      assert a + b == a;
    } else {
      var n := |b| - 1;
      TilesJoin(a, off, mid, b[..n], b[n].off);
      assert (a + b)[..|a + b| - 1] == a + b[..n];
    }
  }

  lemma WinsAt(ts: seq<Tree>, k: nat, off: nat)
    requires k < |ts| && Leads(ts, k, off)
    ensures Wins(ts, off, ts[k].length)
  {
  }

  /** The one child that succeeds spans its parent. */
  predicate Wins(ts: seq<Tree>, off: nat, length: nat) {
    exists k :: 0 <= k < |ts| && ts[k].result == 1 && ts[k].off == off && ts[k].length == length
      && forall j :: 0 <= j < |ts| && j != k ==> ts[j].result == 0
  }

  /** A tree, when it is a success, is made of its children, and these of theirs. */
  predicate Whole(t: Tree)
    decreases t
  {
    && (t.result == 1 && t.kind == Chain ==> Tiles(t.children, t.off, t.off + t.length))
    && (t.result == 1 && t.kind == Choice ==> Wins(t.children, t.off, t.length))
    && forall k :: 0 <= k < |t.children| ==> Whole(t.children[k])
  }

  /** A result: success advances by the length, anything else leaves the offset, with length 0. */
  predicate Steps(t: Tree, from: nat, to: nat) {
    && t.off == from
    && t.result in {-1, 0, 1}
    && (if t.result == 1 then to == from + t.length else to == from && t.length == 0)
  }

  /** What extraction looks at. */
  function Trimmed(t: Tree): Branch { Branch(t.name, t.off, t.length, AllTrimmed(t.children)) }

  function AllTrimmed(ts: seq<Tree>): seq<Branch> {
    if ts == [] then [] else
    var n := |ts| - 1;
    AllTrimmed(ts[..n]) + [Trimmed(ts[n])]
  }

  lemma TrimmedMore(ts: seq<Tree>, t: Tree)
    ensures AllTrimmed(ts + [t]) == AllTrimmed(ts) + [Trimmed(t)]
  {
    assert (ts + [t])[..|ts|] == ts;
  }

  lemma {:induction false} TrimmedJoin(a: seq<Tree>, b: seq<Tree>)
    ensures AllTrimmed(a + b) == AllTrimmed(a) + AllTrimmed(b)
    decreases |b|
  {
    if b == [] {
      assert a + b == a;
    } else {
      var n := |b| - 1;
      TrimmedJoin(a, b[..n]);
      assert (a + b)[..|a + b| - 1] == a + b[..n];
    }
  }

  // --- the pieces of a regex -----------------------------------------------------------------------------

  /** find_range_end. */
  method FindRangeEnd(rx: string) returns (z: nat)
    ensures z == RangeEnd(rx, 1)
  {
    var i := 1;
    while true
      invariant i > 0 && RangeEnd(rx, 1) == RangeEnd(rx, i)
      decreases |rx| - i
    {
      var c := CharAt(rx, i);
      if c == NUL { return 0; }
      if c == '\\' { i := i + 2; continue; }
      if c == ']' { return i; }
      i := i + 1;
    }
  }

  /** find_group_end. */
  method FindGroupEnd(rx: string) returns (z: nat)
    ensures z == GroupEnd(rx, 1, false, 0)
  {
    var i, range, groups := 1, false, 0;
    while true
      invariant i > 0 && GroupEnd(rx, 1, false, 0) == GroupEnd(rx, i, range, groups)
      decreases |rx| - i
    {
      var c := CharAt(rx, i);
      if c == NUL { return 0; }
      if c == '\\' { i := i + 2; continue; }
      if !range && c == '[' { range := true; }
      else if range && c == ']' { range := false; }
      else if range {}
      else if c == '(' { groups := groups + 1; }
      else if c == ')' {
        if groups == 0 { return i; }
        groups := groups - 1;
      }
      i := i + 1;
    }
  }

  /** find_str_end; -1 for a quantifier with nothing before it. */
  method FindStrEnd(rx: string) returns (z: int)
    requires rx != [] && rx[0] != NUL && rx[0] != '[' && rx[0] != '('
    ensures StrEnd(rx, 0) == if z == -1 then None else Some(z)
  {
    var i := 0;
    while true
      invariant StrEnd(rx, 0) == StrEnd(rx, i)
      decreases |rx| + 1 - i
    {
      var c := CharAt(rx, i);
      if c == NUL { return if i <= |rx| then i else |rx|; }
      if c == '[' || c == '(' { return i; }
      if c == '\\' { i := i + 2; continue; }
      if c == '?' || c == '*' || c == '+' || c == '{' {
        if i == 0 { return -1; }
        if i == 1 { return i; }
        return i - 1;
      }
      i := i + 1;
    }
  }

  /** quantify; -1 when the quantifier is malformed. */
  method Quantify(rx: string) returns (z: int, min: nat, max: nat)
    ensures
      match Quantified(rx)
      case None => z == -1
      case Some(b) => (z, min, max) == (b.length, b.min, b.max)
  {
    hide ToLL, SizeT;
    var c := CharAt(rx, 0);
    if c == '?' { return 1, 0, 1; }
    if c == '*' { return 1, 0, 0; }
    if c == '+' { return 1, 1, 0; }
    if c != '{' { return 0, 0, 0; }
    var end, i, commas := 0, 1, 0;
    while true
      invariant i > 0 && end == 0 && commas <= 1 && BraceEnd(rx, 1, 0) == BraceEnd(rx, i, commas)
      decreases |rx| - i
    {
      var cc := CharAt(rx, i);
      if cc == NUL { break; }
      if cc == ',' {
        commas := commas + 1;
        if commas > 1 { break; }
        i := i + 1;
        continue;
      }
      if cc == '}' { end := i; break; }
      if cc < '0' || cc > '9' { break; }
      i := i + 1;
    }
    assert end == BraceEnd(rx, 1, 0);
    if end == 0 { return -1, 0, 0; }
    min := SizeT(ToLL(rx[1..]));
    var comma := FirstAt(',', rx);
    max := if comma.None? then min else SizeT(ToLL(rx[comma.value + 1..]));
    return end + 1, min, max;
  }

  /** The inner loop of rex_alt. */
  method FindBar(rx: string) returns (j: nat)
    ensures j == Bar(rx, 0, false, 0)
  {
    var range, groups := false, 0;
    j := 0;
    while true
      invariant Bar(rx, 0, false, 0) == Bar(rx, j, range, groups)
      decreases |rx| - j
    {
      var c := CharAt(rx, j);
      if c == NUL { return if j <= |rx| then j else |rx|; }
      if c == '\\' { j := j + 2; continue; }
      if !range && c == '[' { range := true; }
      else if range && c == ']' { range := false; }
      else if range {}
      else if c == '(' { groups := groups + 1; }
      else if groups > 0 { if c == ')' { groups := groups - 1; } }
      else if c == '|' { return; }
      j := j + 1;
    }
  }

  // --- the input -----------------------------------------------------------------------------------------

  class Input {
    const text: string
    const rules: seq<Grammar>
    const prune: bool
    var offset: nat

    constructor (text: string, rules: seq<Grammar>, prune: bool)
      ensures this.text == text && this.rules == rules && this.prune == prune && offset == 0
    {
      this.text, this.rules, this.prune := text, rules, prune;
      offset := 0;
    }

    function Src(): Source { Source(text, rules) }

    /** With pruning, the tree of a match is the one the grammar has. */
    predicate KeptBy(t: Tree, g: Grammar, off: nat, fuel: nat)
      requires off <= |text|
    {
      prune && t.result == 1 ==> Trimmed(t) == Src().Kept(g, off, fuel)
    }

    /** str: succeeds exactly on its text. */
    method ParseStr(s: string) returns (t: Tree)
      requires offset <= |text|
      modifies this`offset
      ensures Steps(t, old(offset), offset) && offset <= |text| && Whole(t)
      ensures AnswerOf(t) == if s <= text[old(offset)..] then Hit(|s|) else Miss
      ensures t.children == [] && t.name == ""
    {
      if s <= text[offset..] {
        t := Tree(Leaf, 1, offset, |s|, []);
        offset := offset + |s|;
      } else {
        t := Tree(Leaf, 0, offset, 0, []);
      }
    }

    /** rng: a dotted range succeeds with length 1 and leaves the offset, which breaks what every other parser
        does; any other range takes one character, or none at the end for `$`. */
    method ParseRng(range: string) returns (t: Tree)
      requires offset <= |text|
      modifies this`offset
      ensures offset <= |text| && Whole(t)
      ensures Steps(t, old(offset), offset) <==> !Dotted(range) || AnswerOf(t) == Miss
      ensures Dotted(range) ==> offset == old(offset)
      ensures AnswerOf(t) == RangeAnswer(range, text, old(offset))
      ensures t.children == [] && t.name == ""
    {
      var c := CharAt(text, offset);
      var first := CharAt(range, 0);
      if first == '$' { return Tree(Leaf, if c == NUL then 1 else 0, offset, 0, []); }
      if c == NUL { return Tree(Leaf, 0, offset, 0, []); }
      if first == '.' {
        var any := c != '\n';
        return Tree(Leaf, if any then 1 else 0, offset, if any then 1 else 0, []);
      }
      var negated := first == '^';
      var rx := if negated then range[1..] else range;
      var found := false;
      while true
        invariant !found && InRange(if negated then range[1..] else range, c) == InRange(rx, c)
        decreases |rx|
      {
        hide RngNext;
        var next := RngNext(rx);
        if next.0 == 0 { break; }
        if next.1 <= c <= next.2 { found := true; break; }
        rx := rx[next.0..];
      }
      if negated { found := !found; }
      t := Tree(Leaf, if found then 1 else 0, offset, if found then 1 else 0, []);
      if found { offset := offset + 1; }
    }

    // --- the regex engine --------------------------------------------------------------------------------

    /** rex_str: a plain piece of a regex; a match of length 0 is a failure. */
    method RexStr(rx: string) returns (t: Tree)
      requires offset <= |text|
      modifies this`offset
      ensures Steps(t, old(offset), offset) && offset <= |text| && Whole(t)
      ensures AnswerOf(t) == StrAnswer(rx, text, old(offset))
    {
      var ii, ri, result := 0, 0, 1;
      while true
        invariant offset == old(offset) && offset + ii <= |text| && result == 1
        invariant Plain(rx, 0, text, offset) == Plain(rx, ri, text, offset + ii)
        decreases |rx| - ri
      {
        var rc := CharAt(rx, ri);
        var prc := rc;
        ri := ri + 1;
        if rc == '\\' {
          rc := CharAt(rx, ri);
          ri := ri + 1;
        }
        if rc == NUL { break; }
        var ic := CharAt(text, offset + ii);
        if rc == 'Z' && prc == '\\' {
          if ic != NUL { result := 0; }
          break;
        }
        if rc == '$' && prc == rc {
          if ic != '\n' && ic != '\r' && ic != NUL { result := 0; }
          break;
        }
        if ic == NUL { result := 0; break; }
        ii := ii + 1;
        if rc == '.' && prc == rc && ic != '\n' && ic != '\r' { continue; }
        if ic != rc { result := 0; break; }
      }
      if result == 1 && ii == 0 { result := 0; }
      t := Tree(Leaf, result, offset, if result == 1 then ii else 0, []);
      if result == 1 { offset := offset + ii; }
    }

    /** What rex_rep ensures: on a failure the offset may be anywhere, rex_seq puts it back. */
    static predicate Rough(t: Tree, from: nat, to: nat) {
      && t.off == from
      && t.result in {-1, 0, 1}
      && (if t.result == 1 then to == from + t.length else t.length == 0)
    }

    /** One piece of a regex with its quantifier, and the length of both. */
    method RexRep(rx: string) returns (t: Tree, rexlen: nat)
      requires offset <= |text| && rx != [] && rx[0] != NUL && SeqUndotted(rx)
      modifies this`offset
      ensures Rough(t, old(offset), offset) && old(offset) <= offset <= |text| && Whole(t)
      ensures (AnswerOf(t), rexlen) == RegRep(rx, text, old(offset))
      decreases |rx|, 1
    {
      hide PieceAnswer, PieceUndotted, Times, Quantified, RangeEnd, GroupEnd, StrEnd;
      var kind := rx[0];
      var z, off := 0, 0;
      if kind == '[' {
        z := FindRangeEnd(rx);
        off := 1;
      } else if kind == '(' {
        z := FindGroupEnd(rx);
        off := 1;
      } else {
        z := FindStrEnd(rx);
      }
      if (off == 1 && z == 0) || z == -1 { return Tree(Leaf, -1, offset, 0, []), 0; }
      assert off <= z && z + off <= |rx|;
      var mml, min, max := Quantify(rx[z + off..]);
      if mml == -1 { return Tree(Leaf, -1, offset, 0, []), 0; }
      var piece := rx[off..z];
      assert Piece(rx) == Some((piece, z + off));
      rexlen := z + off + mml;
      if mml == 0 {
        t := RexPiece(kind, piece);
        return;
      }
      t := RexTimes(kind, piece, min, max);
    }

    /** The loop of rex_rep. */
    method RexTimes(kind: char, piece: string, min: nat, max: nat) returns (t: Tree)
      requires offset <= |text| && PieceUndotted(kind, piece)
      modifies this`offset
      ensures Rough(t, old(offset), offset) && old(offset) <= offset <= |text| && Whole(t)
      ensures AnswerOf(t) == Times(kind, piece, text, old(offset), 0, min, max)
      decreases if kind == '(' then |piece| + 1 else 0, 1
    {
      hide PieceAnswer, PieceUndotted, Times, Tiles, Whole, AllWhole;
      var from := offset;
      var children: seq<Tree> := [];
      Tiles0(from);
      NoneWhole();
      var result, length: nat, count: nat := 1, 0, 0;
      while true
        invariant from <= offset <= |text| && offset == from + length && result == 1
        invariant Tiles(children, from, offset) && AllWhole(children)
        invariant Times(kind, piece, text, from, 0, min, max) == Then(length, Times(kind, piece, text, offset, count, min, max))
        decreases |text| - offset
      {
        var ffo := offset;
        TimesStep(kind, piece, text, offset, count, min, max);
        var child := RexPiece(kind, piece);
        TilesMore(children, from, child);
        AllWholeMore(children, child);
        children := children + [child];
        if child.result == -1 { result := -1; break; }
        if child.result == 0 { break; }
        length := length + child.length;
        count := count + 1;
        if count == max { break; }
        if ffo == offset { break; }
      }
      if result == 1 && count < min { result := 0; }
      t := Tree(Chain, result, from, if result == 1 then length else 0, children);
      ChainWhole(t);
    }

    method RexPiece(kind: char, piece: string) returns (t: Tree)
      requires offset <= |text| && PieceUndotted(kind, piece)
      modifies this`offset
      ensures Steps(t, old(offset), offset) && offset <= |text| && Whole(t)
      ensures AnswerOf(t) == PieceAnswer(kind, piece, text, old(offset))
      decreases if kind == '(' then |piece| + 1 else 0, 0
    {
      if kind == '[' {
        t := ParseRng(piece);
      } else if kind == '(' {
        t := RexAlt(piece);
      } else {
        t := RexStr(piece);
      }
    }

    method RexSeq(rx: string) returns (t: Tree)
      requires offset <= |text| && SeqUndotted(rx)
      modifies this`offset
      ensures Steps(t, old(offset), offset) && offset <= |text| && Whole(t)
      ensures AnswerOf(t) == RegSeq(rx, text, old(offset), false)
      decreases |rx|, 2
    {
      hide RegSeq, RegRep, Tiles, Whole, AllWhole, SeqUndotted;
      var from := offset;
      var children: seq<Tree> := [];
      Tiles0(from);
      NoneWhole();
      var length: nat, result := 0, 0;
      var crx := rx;
      while true
        invariant |crx| <= |rx| && SeqUndotted(crx)
        invariant old(offset) <= offset <= |text| && offset == old(offset) + length
        invariant result == if children == [] then 0 else 1
        invariant RegSeq(rx, text, from, false) == Then(length, RegSeq(crx, text, offset, children != []))
        invariant Tiles(children, from, offset) && AllWhole(children)
        decreases |crx|
      {
        RegSeqStep(crx, text, offset, children != []);
        if CharAt(crx, 0) == NUL { break; }
        ghost var at := offset;
        var child, rexlen := RexRep(crx);
        result := child.result;
        if result == 1 { TilesMore(children, from, child); }
        AllWholeMore(children, child);
        children := children + [child];
        if result != 1 { break; }
        length := length + child.length;
        UndottedRest(crx, text, at);
        crx := crx[rexlen..];
      }
      if result != 1 {
        length := 0;
        offset := from;
      }
      t := Tree(Chain, result, from, length, children);
      ChainWhole(t);
    }

    /** The alternatives of a regex: the first one that does not fail. */
    method RexAlt(rx: string) returns (t: Tree)
      requires offset <= |text| && AltUndotted(rx)
      modifies this`offset
      ensures Steps(t, old(offset), offset) && offset <= |text| && Whole(t)
      ensures AnswerOf(t) == RegAlt(rx, text, old(offset))
      ensures t.name == ""
      decreases |rx|, 3
    {
      hide SeqUndotted, RegSeq;
      var from := offset;
      var children: seq<Tree> := [];
      var crx := rx;
      while true
        invariant |crx| <= |rx| && AltUndotted(crx) && offset == old(offset)
        invariant RegAlt(rx, text, offset) == RegAlt(crx, text, offset)
        invariant forall k :: 0 <= k < |children| ==> children[k].result == 0 && Whole(children[k])
        decreases |crx|
      {
        var j := FindBar(crx);
        var child := RexSeq(crx[..j]);
        ghost var before := children;
        children := children + [child];
        if child.result != 0 || CharAt(crx, j) == NUL {
          if child.result == 1 {
            assert children[|before|] == child;
            assert Wins(children, old(offset), child.length);
          }
          return Tree(Choice, child.result, from, child.length, children);
        }
        crx := crx[j + 1..];
      }
    }

    /** fabr_rex: when pruning, a match keeps no children. */
    method ParseRex(regex: string) returns (t: Tree)
      requires offset <= |text| && AltUndotted(regex)
      modifies this`offset
      ensures Steps(t, old(offset), offset) && offset <= |text| && Whole(t)
      ensures AnswerOf(t) == RegAlt(regex, text, old(offset))
      ensures prune && t.result == 1 ==> t.children == [] && t.name == ""
    {
      t := RexAlt(regex);
      if prune && t.result == 1 { t := t.(kind := Leaf, children := []); }
    }

    // --- the combinators ---------------------------------------------------------------------------------

    /** Any grammar on any input: success advances by exactly the length, anything else leaves the offset, the trees
        tile, and the answer is the same whether trees are pruned or not. `fuel` bounds the depth of references to
        rules. */
    method Parse(g: Grammar, fuel: nat) returns (t: Tree)
      requires offset <= |text| && Advancing(g) && forall r :: r in rules ==> Advancing(r)
      modifies this`offset
      ensures Steps(t, old(offset), offset) && offset <= |text| && Whole(t)
      ensures AnswerOf(t) == Src().Parsed(g, old(offset), fuel)
      ensures KeptBy(t, g, old(offset), fuel)
      decreases fuel, g, 3
    {
      hide Source.Kept, Tiles, Wins, Source.SeqFrom, Source.RepFrom, Source.EseqAnswer, Source.AltFrom, RegAlt, RangeAnswer;
      ghost var off := offset;
      NoneTrimmed();
      match g {
        case Str(s) => t := ParseStr(s);
        case Rng(range) => t := ParseRng(range);
        case Rex(regex) => t := ParseRex(regex);
        case Seq(items) => t := ParseSeq(items, fuel, g);
        case Alt(greedy, choices) => t := ParseAlt(greedy, choices, fuel, g);
        case Rep(of, min, max) => t := ParseRep(of, min, max, fuel, g);
        case Eseq(start, elt, sep, end) => t := ParseEseq(start, elt, sep, end, fuel, g);
        case Ref(rule) =>
          if fuel == 0 || rule >= |rules| { return Tree(Leaf, -1, offset, 0, []); }
          t := Parse(rules[rule], fuel - 1);
        case Named(name, of) =>
          t := Parse(of, fuel);
          t := t.(name := name);
      }
      if t.result == 1 { Src().KeptIs(g, off, fuel); }
    }

    /** fabr_all: nothing may be left. */
    method ParseAll(g: Grammar, fuel: nat) returns (t: Tree)
      requires offset <= |text| && Advancing(g) && forall r :: r in rules ==> Advancing(r)
      modifies this`offset
      ensures offset <= |text| && Whole(t) && t.off == old(offset)
      ensures AnswerOf(t) == match Src().Parsed(g, old(offset), fuel)
        case Hit(n) => if n == |text| - old(offset) then Hit(n) else Miss
        case a => a
      ensures t.name == "" && (prune && t.result == 1 ==> AllTrimmed(t.children) == [Src().Kept(g, old(offset), fuel)])
    {
      hide Source.Kept;
      var start := offset;
      var c := Parse(g, fuel);
      OneTrimmed(c);
      if c.result == 1 {
        var all := c.length == |text| - start;
        t := Tree(Chain, if all then 1 else 0, start, if all then c.length else 0, [c]);
        Tiles0(start);
        TilesMore([], start, c);
        assert [] + [c] == [c];
      } else {
        t := Tree(Chain, c.result, start, 0, [c]);
      }
    }

    /** fabr_rep. */
    method ParseRep(of: Grammar, min: nat, max: nat, fuel: nat, ghost g: Grammar) returns (t: Tree)
      requires offset <= |text| && Advancing(of) && (forall r :: r in rules ==> Advancing(r)) && of < g
      modifies this`offset
      ensures Steps(t, old(offset), offset) && offset <= |text| && Whole(t)
      ensures AnswerOf(t) == Src().RepFrom(of, old(offset), fuel, 0, min, max)
      ensures t.name == "" && (prune && t.result == 1 ==> AllTrimmed(t.children) == Src().RepKept(of, old(offset), fuel, 0, max))
      decreases fuel, g, 1
    {
      hide Tiles, Whole, AllWhole, Advancing, Source.RepFrom, Source.RepKept, AllTrimmed;
      var off := offset;
      var result, children, length := Repeat(of, min, max, fuel, g);
      if result != 1 {
        length := 0;
        offset := off;
      }
      t := Tree(Chain, result, off, length, children);
      ChainWhole(t);
    }

    /** The loop of fabr_rep. */
    method Repeat(of: Grammar, min: nat, max: nat, fuel: nat, ghost g: Grammar)
      returns (result: int, children: seq<Tree>, length: nat)
      requires offset <= |text| && Advancing(of) && (forall r :: r in rules ==> Advancing(r)) && of < g
      modifies this`offset
      ensures old(offset) <= offset <= |text| && result in {-1, 0, 1} && AllWhole(children)
      ensures result == 1 ==> offset == old(offset) + length && Tiles(children, old(offset), offset)
      ensures Src().RepFrom(of, old(offset), fuel, 0, min, max)
        == if result == 1 then Hit(length) else if result == 0 then Miss else Err
      ensures prune && result == 1 ==> AllTrimmed(children) == Src().RepKept(of, old(offset), fuel, 0, max)
      decreases fuel, g, 0
    {
      hide Tiles, Whole, AllWhole, Advancing, Source.Parsed, Source.RepFrom, Source.RepKept, Source.Kept, AllTrimmed, Trimmed;
      ghost var off := offset;
      Tiles0(off);
      NoneWhole();
      NoneTrimmed();
      result, children, length := 1, [], 0;
      var count := 0;
      while true
        invariant off <= offset <= |text| && offset == off + length && result == 1
        invariant Tiles(children, off, offset) && AllWhole(children)
        invariant Src().RepFrom(of, off, fuel, 0, min, max)
          == Then(length, Src().RepFrom(of, offset, fuel, count, min, max))
        invariant prune ==>
          Src().RepKept(of, off, fuel, 0, max) == AllTrimmed(children) + Src().RepKept(of, offset, fuel, count, max)
        decreases |text| - offset
      {
        var ffo := offset;
        Src().RepIs(of, offset, fuel, count, min, max);
        Src().RepKeptIs(of, offset, fuel, count, max);
        var child := Parse(of, fuel);
        AllWholeMore(children, child);
        TilesMore(children, off, child);
        if child.result == 0 {
          if !prune { children := children + [child]; }
          break;
        }
        TrimmedMore(children, child);
        children := children + [child];
        if child.result == -1 { result := -1; break; }
        length := length + child.length;
        count := count + 1;
        if count == max { break; }
        if ffo == offset { break; }
      }
      if result == 1 && count < min { result := 0; }
    }

    /** fabr_seq: each item as often as its quantifier asks. */
    method ParseSeq(items: seq<Item>, fuel: nat, ghost g: Grammar) returns (t: Tree)
      requires offset <= |text| && g == Seq(items)
      requires forall i :: 0 <= i < |items| ==> Advancing(items[i].g) && items[i].g < g
      requires forall r :: r in rules ==> Advancing(r)
      modifies this`offset
      ensures Steps(t, old(offset), offset) && offset <= |text| && Whole(t)
      ensures AnswerOf(t) == Src().SeqFrom(g, 0, old(offset), fuel)
      ensures t.name == "" && (prune && t.result == 1 ==> AllTrimmed(t.children) == Src().SeqKept(g, 0, old(offset), fuel))
      decreases fuel, g, 1
    {
      hide Tiles, Whole, AllWhole, Advancing, Source.SeqKept, Source.ItemKept, AllTrimmed;
      var off := offset;
      var children: seq<Tree> := [];
      Tiles0(off);
      NoneWhole();
      NoneTrimmed();
      var result, length: nat, i := 1, 0, 0;
      while i < |items| && result == 1
        invariant i <= |items| && off <= offset <= |text| && result in {-1, 0, 1}
        invariant result == 1 ==> offset == off + length && Tiles(children, off, offset)
        invariant AllWhole(children)
        invariant Src().SeqFrom(g, 0, off, fuel)
          == if result == 1 then Then(length, Src().SeqFrom(g, i, offset, fuel)) else if result == 0 then Miss else Err
        invariant prune && result == 1 ==>
          Src().SeqKept(g, 0, off, fuel) == AllTrimmed(children) + Src().SeqKept(g, i, offset, fuel)
        decreases |items| - i, result
      {
        ghost var before := offset;
        var added, more;
        result, added, more := ParseItem(items[i], fuel, g);
        if result == 1 { TilesJoin(children, off, before, added, offset); }
        AllWholeJoin(children, added);
        TrimmedJoin(children, added);
        Src().SeqKeptIs(g, i, before, fuel);
        children := children + added;
        length := length + more;
        i := i + 1;
      }
      if i == |items| { Src().SeqKeptOver(g, offset, fuel); }
      if result != 1 {
        length := 0;
        offset := off;
      }
      t := Tree(Chain, result, off, length, children);
      ChainWhole(t);
    }

    /** The inner loop of fabr_seq: what one item adds. */
    method ParseItem(item: Item, fuel: nat, ghost g: Grammar) returns (result: int, added: seq<Tree>, length: nat)
      requires offset <= |text| && Advancing(item.g) && item.g < g
      requires forall r :: r in rules ==> Advancing(r)
      modifies this`offset
      ensures old(offset) <= offset <= |text| && result in {-1, 0, 1} && AllWhole(added)
      ensures result == 1 ==> offset == old(offset) + length && Tiles(added, old(offset), offset)
      ensures Src().ItemFrom(item.g, item.q, old(offset), fuel, 0)
        == if result == 1 then Hit(length) else if result == 0 then Miss else Err
      ensures prune && result == 1 ==> AllTrimmed(added) == Src().ItemKept(item.g, item.q, old(offset), fuel)
      decreases fuel, g, 0
    {
      hide Tiles, Whole, AllWhole, Advancing, Source.Parsed, Source.ItemFrom, Source.ItemKept, Source.Kept, AllTrimmed, Trimmed;
      var off, count := offset, 0;
      result, added, length := 1, [], 0;
      Tiles0(off);
      NoneWhole();
      NoneTrimmed();
      while true
        invariant off <= offset <= |text| && result == 1
        invariant offset == off + length && Tiles(added, off, offset) && AllWhole(added)
        invariant Src().ItemFrom(item.g, item.q, off, fuel, 0)
          == Then(length, Src().ItemFrom(item.g, item.q, offset, fuel, count))
        invariant prune ==>
          Src().ItemKept(item.g, item.q, off, fuel) == AllTrimmed(added) + Src().ItemKept(item.g, item.q, offset, fuel)
        decreases |text| - offset
      {
        var ffo := offset;
        Src().ItemIs(item.g, item.q, offset, fuel, count);
        Src().ItemKeptIs(item.g, item.q, offset, fuel);
        var child := Parse(item.g, fuel);
        if child.result == -1 { result := -1; break; }
        if !(child.result == 0 && prune) {
          TilesMore(added, off, child);
          AllWholeMore(added, child);
          TrimmedMore(added, child);
          added := added + [child];
          length := length + child.length;
        }
        if item.q == Qmark { break; }
        if item.q == Star {
          if child.result == 0 || offset == ffo { break; }
        } else if item.q == Plus {
          if child.result == 0 {
            if count == 0 { result := 0; }
            break;
          }
          if offset == ffo { break; }
        } else {
          if child.result == 0 { result := 0; }
          break;
        }
        count := count + 1;
      }
    }

    /** One round of fabr_eseq: a separator but for the first one, an element, what to add, and whether it is over. */
    method Round(elt: Grammar, sep: Grammar, first: bool, jseq: bool, fuel: nat, ghost g: Grammar)
      returns (over: bool, result: int, added: seq<Tree>, length: nat)
      requires g.Eseq? && elt == g.elt && sep == g.sep && jseq == (g.start.None? && g.end.None?)
      requires offset <= |text| && Advancing(elt) && elt < g && Advancing(sep) && sep < g
      requires forall r :: r in rules ==> Advancing(r)
      modifies this`offset
      ensures old(offset) <= offset <= |text| && result in {-1, 0, 1} && AllWhole(added)
      ensures result == 1 ==> offset == old(offset) + length && Tiles(added, old(offset), offset)
      ensures
        var (a, last) := Src().Round(g, old(offset), fuel, first);
        a == (if result == 1 then Hit(length) else if result == 0 then Miss else Err) && (result == 1 ==> over == last)
      ensures prune && result == 1 ==> AllTrimmed(added) == Src().RoundKept(g, old(offset), fuel, first)
      decreases fuel, g, 0
    {
      hide Tiles, Whole, AllWhole, Advancing, Source.Parsed, Source.Round, Source.RoundKept, Source.Kept, AllTrimmed, Trimmed;
      NoneWhole();
      NoneTrimmed();
      ghost var off := offset;
      Tiles0(off);
      over, result, added, length := false, 1, [], 0;
      Src().RoundIs(g, off, fuel, first);
      Src().RoundKeptIs(g, off, fuel, first);
      if !first {
        var st := Parse(sep, fuel);
        AllWholeMore(added, st);
        TrimmedMore(added, st);
        TilesMore(added, off, st);
        if st.result != 1 {
          if st.result == -1 { result := -1; }
          over := st.result == 0;
          if st.result == -1 || !prune { added := added + [st]; }
          return;
        }
        added, length := added + [st], st.length;
      }
      var et := Parse(elt, fuel);
      if !first && length == 0 && (et.result == 0 || (et.result == 1 && et.length == 0)) {
        return true, 1, [], 0;
      }
      if first && et.result == 0 && !jseq {
        over := true;
      } else if et.result != 1 {
        result := et.result;
      }
      if et.result != 0 || !prune {
        AllWholeMore(added, et);
        TrimmedMore(added, et);
        TilesMore(added, off, et);
        added, length := added + [et], length + et.length;
      }
    }

    /** The loop of fabr_eseq: elements between separators, until nothing is taken any more. */
    method Rounds(elt: Grammar, sep: Grammar, jseq: bool, fuel: nat, ghost g: Grammar)
      returns (result: int, children: seq<Tree>, length: nat)
      requires g.Eseq? && elt == g.elt && sep == g.sep && jseq == (g.start.None? && g.end.None?)
      requires offset <= |text| && Advancing(elt) && elt < g && Advancing(sep) && sep < g
      requires forall r :: r in rules ==> Advancing(r)
      modifies this`offset
      ensures old(offset) <= offset <= |text| && result in {-1, 0, 1} && AllWhole(children)
      ensures result == 1 ==> offset == old(offset) + length && Tiles(children, old(offset), offset)
      ensures Src().EseqFrom(g, old(offset), fuel, true)
        == if result == 1 then Hit(length) else if result == 0 then Miss else Err
      ensures prune && result == 1 ==> AllTrimmed(children) == Src().EseqKept(g, old(offset), fuel, true)
      decreases fuel, g, 1
    {
      hide Tiles, Whole, AllWhole, Advancing, Source.Round, Source.EseqFrom, Source.EseqKept, Source.RoundKept, AllTrimmed;
      ghost var off := offset;
      Tiles0(off);
      NoneWhole();
      NoneTrimmed();
      result, children, length := 1, [], 0;
      var j, over := 0, false;
      ghost var kids: seq<Branch> := [];
      while !over && result == 1
        invariant off <= offset <= |text| && result in {-1, 0, 1}
        invariant result == 1 ==> offset == off + length && Tiles(children, off, offset)
        invariant AllWhole(children)
        invariant Src().EseqFrom(g, off, fuel, true)
          == if result == 0 then Miss else if result == -1 then Err
             else if over then Hit(length) else Then(length, Src().EseqFrom(g, offset, fuel, j == 0))
        invariant prune && result == 1 ==> kids == AllTrimmed(children)
        invariant prune && result == 1 ==>
          Src().EseqKept(g, off, fuel, true) == kids + if over then [] else Src().EseqKept(g, offset, fuel, j == 0)
        decreases if !over && result == 1 then 1 else 0, |text| - offset, if j == 0 then 1 else 0
      {
        ghost var before := offset;
        Src().EseqIs(g, offset, fuel, j == 0);
        Src().EseqKeptIs(g, offset, fuel, j == 0);
        var added, more;
        over, result, added, more := Round(elt, sep, j == 0, jseq, fuel, g);
        if result == 1 { TilesJoin(children, off, before, added, offset); }
        AllWholeJoin(children, added);
        TrimmedJoin(children, added);
        children := children + added;
        kids := kids + AllTrimmed(added);
        length := length + more;
        j := j + 1;
      }
    }

    /** fabr_eseq, and fabr_jseq when there is neither start nor end. */
    method ParseEseq(start: Option<Grammar>, elt: Grammar, sep: Grammar, end: Option<Grammar>, fuel: nat, ghost g: Grammar)
      returns (t: Tree)
      requires g == Eseq(start, elt, sep, end)
      requires offset <= |text| && Advancing(elt) && elt < g && Advancing(sep) && sep < g
      requires start.Some? ==> Advancing(start.value) && start.value < g
      requires end.Some? ==> Advancing(end.value) && end.value < g
      requires forall r :: r in rules ==> Advancing(r)
      modifies this`offset
      ensures Steps(t, old(offset), offset) && offset <= |text| && Whole(t)
      ensures AnswerOf(t) == Src().EseqAnswer(g, old(offset), fuel)
      ensures t.name == "" && KeptBy(t, g, old(offset), fuel)
      decreases fuel, g, 2
    {
      hide Tiles, Whole, AllWhole, Advancing, Source.Parsed, Source.EseqFrom, Source.EseqAnswer, Source.EseqKept, Source.Kept;
      hide AllTrimmed, Trimmed;
      var off := offset;
      var result, children, length := 1, [], 0;
      ghost var head: seq<Branch>, tail: seq<Branch> := [], [];
      Src().EseqAnswerIs(g, off, fuel);
      if start.Some? {
        result, children, length := ParseEnd(start.value, fuel, g);
        if result != 1 {
          t := Tree(Chain, result, off, 0, children);
          ChainWhole(t);
          return;
        }
        head := AllTrimmed(children);
      } else {
        Tiles0(off);
        NoneWhole();
        NoneTrimmed();
      }
      ghost var from := offset;
      var added, more;
      result, added, more := Rounds(elt, sep, start.None? && end.None?, fuel, g);
      ghost var mid := AllTrimmed(added);
      if result == 1 { TilesJoin(children, off, from, added, offset); }
      AllWholeJoin(children, added);
      TrimmedJoin(children, added);
      children, length := children + added, length + more;
      if result == 1 && end.Some? {
        ghost var before := offset;
        result, added, more := ParseEnd(end.value, fuel, g);
        tail := AllTrimmed(added);
        if result == 1 { TilesJoin(children, off, before, added, offset); }
        AllWholeJoin(children, added);
        TrimmedJoin(children, added);
        children, length := children + added, length + more;
      }
      if result != 1 {
        length := 0;
        offset := off;
      }
      t := Tree(Chain, result, off, length, children);
      ChainWhole(t);
      if result == 1 {
        assert AllTrimmed(children) == head + mid + tail;
        Src().EseqParsed(g, off, fuel);
        Src().EseqTree(g, off, fuel);
        TrimmedIs(t);
      }
    }

    /** What stands before or behind the elements. */
    method ParseEnd(of: Grammar, fuel: nat, ghost g: Grammar) returns (result: int, added: seq<Tree>, length: nat)
      requires offset <= |text| && Advancing(of) && of < g && forall r :: r in rules ==> Advancing(r)
      modifies this`offset
      ensures old(offset) <= offset <= |text| && result in {-1, 0, 1} && AllWhole(added)
      ensures result == 1 ==> offset == old(offset) + length && Tiles(added, old(offset), offset)
      ensures result != 1 ==> offset == old(offset)
      ensures Src().Parsed(of, old(offset), fuel) == if result == 1 then Hit(length) else if result == 0 then Miss else Err
      ensures prune && result == 1 ==> AllTrimmed(added) == [Src().Kept(of, old(offset), fuel)]
      decreases fuel, g, 0
    {
      hide Tiles, Whole, AllWhole, Advancing, Source.Parsed, Source.Kept;
      Tiles0(offset);
      NoneWhole();
      ghost var off := offset;
      var t := Parse(of, fuel);
      AllWholeMore([], t);
      TilesMore([], off, t);
      OneTrimmed(t);
      assert [] + [t] == [t];
      result, added, length := t.result, [t], t.length;
    }

    /** fabr_altgr: the first success, or the longest one, the last of those when `greedy`. */
    method ParseAlt(greedy: bool, choices: seq<Grammar>, fuel: nat, ghost g: Grammar) returns (t: Tree)
      requires offset <= |text| && choices != [] && g == Alt(greedy, choices)
      requires forall i :: 0 <= i < |choices| ==> Advancing(choices[i]) && choices[i] < g
      requires forall r :: r in rules ==> Advancing(r)
      modifies this`offset
      ensures Steps(t, old(offset), offset) && offset <= |text| && Whole(t)
      ensures AnswerOf(t) == Src().AltFrom(g, 0, old(offset), fuel, None)
      ensures t.name == "" && KeptBy(t, g, old(offset), fuel)
      decreases fuel, g, 2
    {
      hide Advancing, Tiles, Source.Parsed, Source.AltFrom, Source.Kept, Source.Winner, AllTrimmed;
      var off := offset;
      var children, winner := Choose(greedy, choices, fuel, g);
      if winner.None? { return Tree(Choice, 0, off, 0, children); }
      var w := children[winner.value];
      offset := off + w.length;
      if w.result == 1 { WinsAt(children, winner.value, off); }
      t := Tree(Choice, w.result, off, w.length, children);
      if t.result == 1 && prune {
        t := t.(children := [w]);
        WinsAt([w], 0, off);
        Src().AltParsed(g, off, fuel);
        Src().AltKept(g, off, fuel);
        OneTrimmed(w);
      }
    }

    /** The loop of fabr_altgr: what the choices give, and which one is taken. */
    method Choose(greedy: bool, choices: seq<Grammar>, fuel: nat, ghost g: Grammar)
      returns (children: seq<Tree>, winner: Option<nat>)
      requires offset <= |text| && choices != [] && g == Alt(greedy, choices)
      requires forall i :: 0 <= i < |choices| ==> Advancing(choices[i]) && choices[i] < g
      requires forall r :: r in rules ==> Advancing(r)
      modifies this`offset
      ensures winner.None? ==> offset == old(offset)
      ensures AllWhole(children) && (winner.None? ==> forall k :: 0 <= k < |children| ==> children[k].result == 0)
      ensures winner.Some? ==> winner.value < |children| && winner.value < |choices|
      ensures Src().AltFrom(g, 0, old(offset), fuel, None)
        == if winner.None? then Miss else AnswerOf(children[winner.value])
      ensures winner.Some? ==>
        var w := children[winner.value];
        && (w.result == 1 || (w.result == -1 && w.length == 0))
        && (w.result == 1 ==>
              Leads(children, winner.value, old(offset)) && Src().Winner(g, 0, old(offset), fuel, None) == winner
              && KeptBy(w, choices[winner.value], old(offset), fuel))
      decreases fuel, g, 1
    {
      hide Advancing, Tiles, Whole, AllWhole, Source.Kept, Source.Winner, AllTrimmed, Trimmed;
      ghost var off := offset;
      var start := offset;
      children, winner := [], None;
      NoneWhole();
      var i := 0;
      while true
        invariant i == |children| < |choices| && offset == off == start && AllWhole(children)
        invariant winner.None? ==> forall k :: 0 <= k < i ==> children[k].result == 0
        invariant winner.Some? ==> winner.value < i && Leads(children, winner.value, off)
        invariant winner.Some? ==> greedy && off + children[winner.value].length <= |text|
        invariant Src().AltFrom(g, 0, off, fuel, None)
          == Src().AltFrom(g, i, off, fuel, if winner.None? then None else Some(children[winner.value].length))
        invariant winner.Some? ==> AnswerOf(children[winner.value]) == Src().Parsed(choices[winner.value], off, fuel)
        invariant winner.Some? ==> KeptBy(children[winner.value], choices[winner.value], off, fuel)
        invariant Src().Winner(g, 0, off, fuel, None) == Src().Winner(g, i, off, fuel, winner)
        decreases |choices| - i
      {
        Src().WinnerIs(g, i, off, fuel, winner);
        var child := Parse(choices[i], fuel);
        AllWholeMore(children, child);
        children := children + [child];
        if child.result == -1 {
          winner := Some(i);
          break;
        }
        if child.result == 1 {
          if !greedy {
            winner := Some(i);
            break;
          }
          if winner.None? || child.length >= children[winner.value].length {
            if winner.Some? {
              AllWholeAt(children, winner.value);
              children := children[winner.value := children[winner.value].(result := 0, length := 0)];
            }
            winner := Some(i);
          } else {
            AllWholeAt(children, i);
            children := children[i := child.(result := 0)];
          }
        }
        i := i + 1;
        if i == |choices| {
          Src().WinnerOver(g, off, fuel, winner);
          break;
        }
        offset := start;
      }
    }
  }

  /** A success that is beaten is still made of its children. */
  lemma AllWholeAt(ts: seq<Tree>, k: nat)
    requires AllWhole(ts) && k < |ts|
    ensures AllWhole(ts[k := ts[k].(result := 0)]) && AllWhole(ts[k := ts[k].(result := 0, length := 0)])
  {
  }

  /** The one success so far. */
  predicate Leads(ts: seq<Tree>, w: nat, off: nat)
    requires w < |ts|
  {
    ts[w].result == 1 && ts[w].off == off && forall k :: 0 <= k < |ts| && k != w ==> ts[k].result == 0
  }

  lemma UndottedRest(rx: string, text: string, off: nat)
    requires off <= |text| && rx != [] && rx[0] != NUL && SeqUndotted(rx) && RegRep(rx, text, off).0.Hit?
    ensures RegRep(rx, text, off).1 <= |rx| && SeqUndotted(rx[RegRep(rx, text, off).1..])
  {
    hide PieceAnswer, PieceUndotted, Times;
  }

  /** `.` takes `a` and leaves the offset where it was. */
  method DottedExample() returns (t: Tree, to: nat)
    ensures AnswerOf(t) == Hit(1) && !Steps(t, 0, to)
  {
    var input := new Input("a", [], false);
    t := input.ParseRng(".");
    to := input.offset;
  }

  lemma TimesStep(kind: char, piece: string, text: string, off: nat, count: nat, min: nat, max: nat)
    requires off <= |text|
    ensures
      var a := PieceAnswer(kind, piece, text, off);
      Times(kind, piece, text, off, count, min, max)
      == if a == Err then Err
         else if a == Miss then if count < min then Miss else Hit(0)
         else if count + 1 == max || a.length == 0 then if count + 1 < min then Miss else a
         else Then(a.length, Times(kind, piece, text, off + a.length, count + 1, min, max))
  {
    hide PieceAnswer;
  }

  lemma RegSeqStep(rx: string, text: string, off: nat, any: bool)
    requires off <= |text|
    ensures
      RegSeq(rx, text, off, any)
      == if CharAt(rx, 0) == NUL then if any then Hit(0) else Miss
         else
           var (a, length) := RegRep(rx, text, off);
           if a.Hit? then Then(a.length, RegSeq(rx[length..], text, off + a.length, true)) else a
  {
    hide RegRep;
  }

  lemma NoneTrimmed()
    ensures AllTrimmed([]) == []
  {
  }

  lemma TrimmedIs(t: Tree)
    ensures Trimmed(t) == Branch(t.name, t.off, t.length, AllTrimmed(t.children))
  {
  }

  lemma OneTrimmed(t: Tree)
    ensures AllTrimmed([t]) == [Trimmed(t)]
  {
    assert [t][..0] == [];
  }

  predicate AllWhole(ts: seq<Tree>) { forall k :: 0 <= k < |ts| ==> Whole(ts[k]) }

  lemma NoneWhole()
    ensures AllWhole([])
  {
  }

  lemma AllWholeMore(ts: seq<Tree>, t: Tree)
    requires AllWhole(ts) && Whole(t)
    ensures AllWhole(ts + [t])
  {
  }

  lemma AllWholeJoin(a: seq<Tree>, b: seq<Tree>)
    requires AllWhole(a) && AllWhole(b)
    ensures AllWhole(a + b)
  {
  }

  lemma ChainWhole(t: Tree)
    requires t.kind == Chain && AllWhole(t.children)
    requires t.result == 1 ==> Tiles(t.children, t.off, t.off + t.length)
    ensures Whole(t)
  {
  }
}
