/** The value that is made of the tree the combinators build over a djan text: it is the one the parser reads. */
module Extraction {
  import Values
  import opened Grammars
  import Combinators
  import Djan
  import opened DjanGrammar
  import Lexemes

  // --- looking into trees ------------------------------------------------------------------------------------------

  function Size(b: Branch): (n: nat)
    ensures n > 0
    decreases b, 0
  {
    1 + Sizes(b.kids)
  }

  function Sizes(bs: seq<Branch>): nat
    decreases bs, 1
  {
    if bs == [] then 0 else Size(bs[0]) + Sizes(bs[1..])
  }

  /** A tree with that name; with any name, when that is the empty one. */
  predicate Matches(b: Branch, name: string) { b.name != "" && (name == "" || b.name == name) }

  /** fabr_t_list_named: the topmost trees with that name, from left to right. */
  function Listed(b: Branch, name: string): (r: seq<Branch>)
    ensures forall k :: 0 <= k < |r| ==> Size(r[k]) <= Size(b) && (!Matches(b, name) ==> Size(r[k]) < Size(b))
    decreases b, 0
  {
    if Matches(b, name) then [b] else AllListed(b.kids, name)
  }

  function AllListed(bs: seq<Branch>, name: string): (r: seq<Branch>)
    ensures forall k :: 0 <= k < |r| ==> Size(r[k]) <= Sizes(bs)
    decreases bs, 1
  {
    if bs == [] then [] else Listed(bs[0], name) + AllListed(bs[1..], name)
  }

  /** fabr_subtree_lookup without a name: the first tree below that has one. */
  function Lookup(b: Branch): (r: Values.Option<Branch>)
    ensures r.Some? ==> Size(r.value) < Size(b)
    decreases b, 0
  {
    LookupIn(b.kids)
  }

  function LookupIn(bs: seq<Branch>): (r: Values.Option<Branch>)
    ensures r.Some? ==> Size(r.value) <= Sizes(bs)
    decreases bs, 1
  {
    if bs == [] then Values.None
    else if bs[0].name != "" then Values.Some(bs[0])
    else
      var r := Lookup(bs[0]);
      if r.Some? then r else LookupIn(bs[1..])
  }

  // --- values ----------------------------------------------------------------------------------------------------------

  function Slice(text: string, off: nat, length: nat): string {
    if off + length <= |text| then text[off..off + length] else ""
  }

  /** What is between the quotes. */
  function Within(text: string, b: Branch): string {
    if b.length >= 2 then Slice(text, b.off + 1, b.length - 2) else ""
  }

  /** The type of a value by the letters of the name of its tree. */
  function TypeOf(name: string): char {
    if CharAt(name, 0) in "tfao" then CharAt(name, 0)
    else if CharAt(name, 1) == 't' then 's'
    else if CharAt(name, 1) == 'q' then 'q'
    else if CharAt(name, 1) == 'x' || CharAt(name, 1) == 'y' then 'y'
    else if CharAt(name, 2) == 'm' then 'n'
    else if CharAt(name, 2) == 'l' then '0'
    else '-'
  }

  /** fdja_extract_v, the text of the value read as its type asks. */
  function ExtractV(text: string, b: Branch): Values.Option<Values.Value>
    decreases Size(b), 1
  {
    var ty := TypeOf(b.name);
    if ty == 't' then Values.Some(Values.Bool(true))
    else if ty == 'f' then Values.Some(Values.Bool(false))
    else if ty == '0' then Values.Some(Values.Null)
    else if ty == 'n' then Values.Some(Values.Num(Slice(text, b.off, b.length)))
    else if ty == 's' then Values.Some(Values.Str(Djan.Unescape(Within(text, b))))
    else if ty == 'q' then Values.Some(Values.Str(Djan.SqUnescape(Within(text, b))))
    else if ty == 'y' then Values.Some(Values.Str(Slice(text, b.off, b.length)))
    else if ty == 'a' then Values.Some(Values.Arr(ExtractItems(text, AllListed(b.kids, ""), Size(b))))
    else if ty == 'o' then
      assert CharAt("entry", 0) == 'e';
      Values.Some(Values.Obj(ExtractEntries(text, Listed(b, "entry"), Size(b))))
    else Values.None
  }

  /** fdja_extract_values */
  function ExtractItems(text: string, bs: seq<Branch>, ghost bound: nat): (vs: seq<Values.Value>)
    requires forall k :: 0 <= k < |bs| ==> Size(bs[k]) < bound
    ensures |vs| == |bs|
    decreases bound, 0, |bs|
  {
    if bs == [] then [] else
    var v := ExtractV(text, bs[0]);
    [if v.Some? then v.value else Values.Null] + ExtractItems(text, bs[1..], bound)
  }

  /** fdja_extract_key */
  function ExtractKey(text: string, b: Branch): string {
    if b.name == "string" || b.name == "sqstring" then Djan.Unescape(Within(text, b)) else Slice(text, b.off, b.length)
  }

  /** fdja_extract_entries: the key is the child of the first child, the value is in the fifth. */
  function ExtractEntries(text: string, bs: seq<Branch>, ghost bound: nat): (es: seq<(string, Values.Value)>)
    requires forall k :: 0 <= k < |bs| ==> Size(bs[k]) < bound
    ensures |es| == |bs|
    decreases bound, 0, |bs|
  {
    if bs == [] then [] else
    [ExtractEntry(text, bs[0])] + ExtractEntries(text, bs[1..], bound)
  }

  function ExtractEntry(text: string, b: Branch): (string, Values.Value)
    decreases Size(b), 3
  {
    if |b.kids| < 5 || b.kids[0].kids == [] then ("", Values.Null) else
    KidSize(b, 4);
    var v := ExtractValue(text, b.kids[4]);
    (ExtractKey(text, b.kids[0].kids[0]), if v.Some? then v.value else Values.Null)
  }

  /** fdja_extract_value */
  function ExtractValue(text: string, b: Branch): Values.Option<Values.Value>
    decreases Size(b), 2
  {
    var x := Lookup(b);
    if x.Some? then ExtractV(text, x.value) else Values.None
  }

  lemma KidSize(b: Branch, k: nat)
    requires k < |b.kids|
    ensures Size(b.kids[k]) < Size(b)
  {
    KidSizes(b.kids, k);
  }

  lemma {:induction false} KidSizes(bs: seq<Branch>, k: nat)
    requires k < |bs|
    ensures Size(bs[k]) <= Sizes(bs)
  {
    if k > 0 { KidSizes(bs[1..], k - 1); }
  }

  lemma {:induction false} ListedJoin(a: seq<Branch>, b: seq<Branch>, name: string)
    ensures AllListed(a + b, name) == AllListed(a, name) + AllListed(b, name)
    decreases |a|
  {
    hide Listed;
    if a == [] {
      assert a + b == b;
    } else {
      assert (a + b)[1..] == a[1..] + b;
      ListedJoin(a[1..], b, name);
    }
  }

  lemma ListedOne(b: Branch, name: string)
    ensures AllListed([b], name) == Listed(b, name)
  {
    hide Listed;
    assert [b][1..] == [];
  }

  /** The first tree with a name is the first of all those. */
  lemma {:induction false} LookupIsFirst(bs: seq<Branch>)
    ensures LookupIn(bs) == if AllListed(bs, "") == [] then Values.None else Values.Some(AllListed(bs, "")[0])
    decreases bs
  {
    if bs != [] {
      if bs[0].name == "" { LookupIsFirst(bs[0].kids); }
      LookupIsFirst(bs[1..]);
    }
  }

  // --- trees without names ------------------------------------------------------------------------------------------------

  predicate Nameless(g: Grammar)
    decreases g
  {
    match g
    case Seq(items) => forall i :: 0 <= i < |items| ==> Nameless(items[i].g)
    case Alt(_, choices) => forall i :: 0 <= i < |choices| ==> Nameless(choices[i])
    case Rep(of, _, _) => Nameless(of)
    case Eseq(start, elt, sep, end) =>
      && (start.Some? ==> Nameless(start.value)) && Nameless(elt) && Nameless(sep) && (end.Some? ==> Nameless(end.value))
    case Ref(_) => false
    case Named(_, _) => false
    case _ => true
  }

  /** Such a tree holds none. */
  lemma {:induction false} NoNames(s: Source, g: Grammar, off: nat, fuel: nat, name: string)
    requires off <= |s.text| && Nameless(g)
    ensures Listed(s.Kept(g, off, fuel), name) == []
    decreases fuel, g, 1, 0
  {
    hide Source.Parsed, Source.SeqKept, Source.RepKept, Source.EseqKept, Source.EseqFrom, Source.Winner, Listed;
    var b := s.Kept(g, off, fuel);
    assert b.name == "";
    BareListed(b, name);
    match g
    case Seq(_) => SeqNoNames(s, g, 0, off, fuel, name);
    case Alt(_, choices) =>
      var k := s.Winner(g, 0, off, fuel, Values.None);
      if k.Some? {
        NoNames(s, choices[k.value], off, fuel, name);
        ListedOne(s.Kept(choices[k.value], off, fuel), name);
      }
    case Rep(of, _, max) => RepNoNames(s, of, off, fuel, 0, max, name);
    case Eseq(start, _, _, end) =>
      var a := if start.Some? then s.Parsed(start.value, off, fuel) else Hit(0);
      if a.Hit? {
        var e := s.EseqFrom(g, off + a.length, fuel, true);
        if e.Hit? {
          if start.Some? {
            NoNames(s, start.value, off, fuel, name);
            ListedOne(s.Kept(start.value, off, fuel), name);
          }
          EseqNoNames(s, g, off + a.length, fuel, true, name);
          var at := off + a.length + e.length;
          if end.Some? {
            NoNames(s, end.value, at, fuel, name);
            ListedOne(s.Kept(end.value, at, fuel), name);
          }
          var x := if start.Some? then [s.Kept(start.value, off, fuel)] else [];
          var y := s.EseqKept(g, off + a.length, fuel, true);
          var z := if end.Some? then [s.Kept(end.value, at, fuel)] else [];
          ListedJoin(x + y, z, name);
          ListedJoin(x, y, name);
        }
      }
    case _ =>
  }

  lemma BareListed(b: Branch, name: string)
    requires b.name == ""
    ensures Listed(b, name) == AllListed(b.kids, name)
  {
  }

  lemma {:induction false} RepNoNames(s: Source, of: Grammar, off: nat, fuel: nat, count: nat, max: nat, name: string)
    requires off <= |s.text| && Nameless(of)
    ensures AllListed(s.RepKept(of, off, fuel, count, max), name) == []
    decreases fuel, of, 2, |s.text| - off
  {
    hide Source.Parsed, Source.Kept, Source.RepKept, Listed, AllListed;
    NoneListed(name);
    s.RepKeptIs(of, off, fuel, count, max);
    NoNames(s, of, off, fuel, name);
    var b := s.Kept(of, off, fuel);
    ListedOne(b, name);
    var a := s.Parsed(of, off, fuel);
    if a.Hit? && count + 1 != max && a.length > 0 {
      RepNoNames(s, of, off + a.length, fuel, count + 1, max, name);
      ListedJoin([b], s.RepKept(of, off + a.length, fuel, count + 1, max), name);
    }
  }

  lemma {:induction false} ItemNoNames(s: Source, of: Grammar, q: Quantifier, off: nat, fuel: nat, name: string)
    requires off <= |s.text| && Nameless(of)
    ensures AllListed(s.ItemKept(of, q, off, fuel), name) == []
    decreases fuel, of, 2, |s.text| - off
  {
    hide Source.Parsed, Source.Kept, Source.ItemKept, Listed, AllListed;
    NoneListed(name);
    s.ItemKeptIs(of, q, off, fuel);
    NoNames(s, of, off, fuel, name);
    var b := s.Kept(of, off, fuel);
    ListedOne(b, name);
    var a := s.Parsed(of, off, fuel);
    if a.Hit? && q != One && q != Qmark && a.length > 0 {
      ItemNoNames(s, of, q, off + a.length, fuel, name);
      ListedJoin([b], s.ItemKept(of, q, off + a.length, fuel), name);
    }
  }

  lemma {:induction false} SeqNoNames(s: Source, g: Grammar, i: nat, off: nat, fuel: nat, name: string)
    requires off <= |s.text| && g.Seq? && i <= |g.items| && Nameless(g)
    ensures AllListed(s.SeqKept(g, i, off, fuel), name) == []
    decreases fuel, g, 0, |g.items| - i
  {
    hide Source.ItemFrom, Source.ItemKept, Source.SeqKept, Listed, AllListed;
    NoneListed(name);
    if i == |g.items| {
      s.SeqKeptOver(g, off, fuel);
    } else {
      s.SeqKeptIs(g, i, off, fuel);
      var a := s.ItemFrom(g.items[i].g, g.items[i].q, off, fuel, 0);
      ItemNoNames(s, g.items[i].g, g.items[i].q, off, fuel, name);
      if a.Hit? { SeqNoNames(s, g, i + 1, off + a.length, fuel, name); }
      ListedJoin(s.ItemKept(g.items[i].g, g.items[i].q, off, fuel),
        if a.Hit? then s.SeqKept(g, i + 1, off + a.length, fuel) else [], name);
    }
  }

  lemma {:induction false} EseqNoNames(s: Source, g: Grammar, off: nat, fuel: nat, first: bool, name: string)
    requires off <= |s.text| && g.Eseq? && Nameless(g)
    ensures AllListed(s.EseqKept(g, off, fuel, first), name) == []
    decreases fuel, g, 0, 2 * (|s.text| - off) + if first then 2 else 1
  {
    hide Source.Round, Source.RoundKept, Source.EseqKept, Listed, AllListed;
    NoneListed(name);
    s.EseqKeptIs(g, off, fuel, first);
    s.EseqIs(g, off, fuel, first);
    var (a, over) := s.Round(g, off, fuel, first);
    RoundNoNames(s, g, off, fuel, first, name);
    if a.Hit? && !over { EseqNoNames(s, g, off + a.length, fuel, false, name); }
    ListedJoin(s.RoundKept(g, off, fuel, first), if !a.Hit? || over then [] else s.EseqKept(g, off + a.length, fuel, false), name);
  }

  lemma {:induction false} RoundNoNames(s: Source, g: Grammar, off: nat, fuel: nat, first: bool, name: string)
    requires off <= |s.text| && g.Eseq? && Nameless(g)
    ensures AllListed(s.RoundKept(g, off, fuel, first), name) == []
    decreases fuel, g, 0, 0
  {
    hide Source.RoundKept, Source.Parsed, Source.Kept, Listed, AllListed;
    NoneListed(name);
    s.RoundKeptIs(g, off, fuel, first);
    if first {
      NoNames(s, g.elt, off, fuel, name);
      ListedOne(s.Kept(g.elt, off, fuel), name);
    } else if s.Parsed(g.sep, off, fuel).Hit? {
      var at := off + s.Parsed(g.sep, off, fuel).length;
      var x, y := s.Kept(g.sep, off, fuel), s.Kept(g.elt, at, fuel);
      NoNames(s, g.sep, off, fuel, name);
      NoNames(s, g.elt, at, fuel, name);
      TwoNoNames(x, y, name);
    }
  }

  lemma TwoNoNames(x: Branch, y: Branch, name: string)
    requires Listed(x, name) == [] == Listed(y, name)
    ensures AllListed([x] + [y], name) == [] && AllListed([x] + [], name) == []
  {
    hide Listed;
    ListedOne(x, name);
    ListedOne(y, name);
    ListedJoin([x], [y], name);
    assert [x] + [] == [x];
  }

  // --- texts, numbers, words, symbols ---------------------------------------------------------------------------------------

  /** The one topmost tree with a name has this value. */
  predicate Gives(text: string, b: Branch, v: Values.Value) {
    var l := Listed(b, "");
    |l| == 1 && ExtractV(text, l[0]) == Values.Some(v)
  }

  lemma NamedGives(text: string, b: Branch, v: Values.Value)
    requires b.name != "" && ExtractV(text, b) == Values.Some(v)
    ensures Gives(text, b, v)
  {
    hide ExtractV;
  }

  lemma QuotedSlice(q: char, text: string, off: nat)
    requires off <= |text| && Djan.Quoted(text[off..], q).Got?
    ensures
      var t := text[off..];
      var r := Djan.Quoted(t, q);
      off + 2 + |r.v| <= |text| && |r.rest| == |t| - |r.v| - 2 && r.v == text[off + 1..off + 1 + |r.v|]
  {
    hide Djan.StrBody;
    var t := text[off..];
    var n := Djan.StrBody(t[1..], q);
    assert t[1..] == text[off + 1..] && t[1..][..n] == text[off + 1..off + 1 + n];
  }

  lemma StringTree(q: char, text: string, off: nat, fuel: nat)
    requires off <= |text| && Lexemes.IsQuote(q) && Djan.Quoted(text[off..], q).Got?
    ensures
      var body := Djan.Quoted(text[off..], q).v;
      var b := On(text).Kept(StringOf(q), off, fuel);
      && b == Branch(if q == '"' then "string" else "sqstring", off, |body| + 2, []) && Within(text, b) == body
      && ExtractV(text, b) == Values.Some(Values.Str(if q == '"' then Djan.Unescape(body) else Djan.SqUnescape(body)))
  {
    hide Lexemes.StringRx, RegAlt, Djan.Quoted, Djan.Unescape, Djan.SqUnescape, Source.Kept;
    var s, t := On(text), text[off..];
    QuotedTakes(q, text, off, fuel);
    NamedIs(s, StringOf(q), off, fuel);
    s.KeptIs(StringOf(q), off, fuel);
    s.KeptIs(StringOf(q).of, off, fuel);
    QuotedSlice(q, text, off);
    TextTypes();
  }

  lemma TextTypes()
    ensures TypeOf("string") == 's' && TypeOf("sqstring") == 'q' && TypeOf("number") == 'n' && TypeOf("symbol") == 'y'
    ensures TypeOf("true") == 't' && TypeOf("false") == 'f' && TypeOf("null") == '0' && TypeOf("array") == 'a'
    ensures TypeOf("object") == 'o'
  {
    assert 's' !in "tfao" && 'n' !in "tfao" && 't' in "tfao" && 'f' in "tfao" && 'a' in "tfao" && 'o' in "tfao" by {
      assert "tfao"[0] == 't' && "tfao"[1] == 'f' && "tfao"[2] == 'a' && "tfao"[3] == 'o';
    }
  }

  lemma NumberTree(text: string, off: nat, fuel: nat)
    requires off <= |text| && Djan.NumberLength(text[off..]) > 0
    ensures
      var t := text[off..];
      var n := Djan.NumberLength(t);
      Gives(text, On(text).Kept(Number(), off, fuel), Values.Num(t[..n]))
  {
    hide Djan.NumberLength, RegAlt, Source.Kept;
    var s, t := On(text), text[off..];
    var n := Djan.NumberLength(t);
    NumberTakes(text, off, fuel);
    NamedIs(s, Number(), off, fuel);
    s.KeptIs(Number(), off, fuel);
    s.KeptIs(Number().of, off, fuel);
    assert t[..n] == text[off..off + n];
    TextTypes();
    NamedGives(text, s.Kept(Number(), off, fuel), Values.Num(t[..n]));
  }

  lemma WordTree(w: string, text: string, off: nat, fuel: nat)
    requires off <= |text| && w <= text[off..] && (w == "true" || w == "false" || w == "null")
    ensures
      Gives(text, On(text).Kept(Word(w), off, fuel), if w == "null" then Values.Null else Values.Bool(w == "true"))
  {
    hide Source.Kept;
    var s := On(text);
    NamedIs(s, Word(w), off, fuel);
    StrIs(s, w, off, fuel);
    s.KeptIs(Word(w), off, fuel);
    TextTypes();
    NamedGives(text, s.Kept(Word(w), off, fuel), if w == "null" then Values.Null else Values.Bool(w == "true"));
  }

  lemma SymbolTree(text: string, off: nat, fuel: nat, colon: bool)
    requires off <= |text| && Djan.SymbolLength(text[off..], colon) > 0
    ensures
      var t := text[off..];
      var n, b := Djan.SymbolLength(t, colon), On(text).Kept(Symbol(colon), off, fuel);
      && b.name == (if colon then "symbol" else "symbolk") && Slice(text, b.off, b.length) == t[..n]
      && (colon ==> Gives(text, b, Values.Str(t[..n])))
  {
    hide Djan.SymbolLength, Source.Kept, Source.RepKept, SymElt;
    var s, t := On(text), text[off..];
    var n := Djan.SymbolLength(t, colon);
    SymbolTakes(text, off, fuel, colon);
    NamedIs(s, Symbol(colon), off, fuel);
    s.KeptIs(Symbol(colon), off, fuel);
    s.KeptIs(Symbol(colon).of, off, fuel);
    assert t[..n] == text[off..off + n];
    TextTypes();
    var b := s.Kept(Symbol(colon), off, fuel);
    if colon { NamedGives(text, b, Values.Str(t[..n])); }
  }

  // --- alternatives ---------------------------------------------------------------------------------------------------------

  /** Without greed, the first choice that matches. */
  lemma {:induction false} FirstWinner(s: Source, g: Grammar, i: nat, k: nat, off: nat, fuel: nat)
    requires off <= |s.text| && g.Alt? && !g.greedy && i <= k < |g.choices| && s.Parsed(g.choices[k], off, fuel).Hit?
    requires forall j :: i <= j < k ==> s.Parsed(g.choices[j], off, fuel) == Miss
    ensures s.Winner(g, i, off, fuel, Values.None) == Values.Some(k)
    decreases k - i
  {
    hide Source.Parsed, Source.Winner;
    s.WinnerIs(g, i, off, fuel, Values.None);
    if i < k { FirstWinner(s, g, i + 1, k, off, fuel); }
  }

  lemma WinnerTree(s: Source, g: Grammar, k: nat, off: nat, fuel: nat)
    requires off <= |s.text| && g.Alt? && s.Parsed(g, off, fuel).Hit? && k < |g.choices|
    requires s.Winner(g, 0, off, fuel, Values.None) == Values.Some(k)
    ensures
      var b := s.Kept(g, off, fuel);
      b.name == "" && b.kids == [s.Kept(g.choices[k], off, fuel)] && Listed(b, "") == Listed(b.kids[0], "")
  {
    hide Source.Parsed, Source.Winner, Source.Kept, Listed;
    s.AltKept(g, off, fuel);
    var b := s.Kept(g, off, fuel);
    BareListed(b, "");
    ListedOne(b.kids[0], "");
  }

  /** The tree of the first choice that matches gives the value of the whole. */
  lemma ChoiceGives(text: string, g: Grammar, k: nat, off: nat, fuel: nat, v: Values.Value)
    requires off <= |text| && g.Alt? && !g.greedy && k < |g.choices| && On(text).Parsed(g.choices[k], off, fuel).Hit?
    requires forall j :: 0 <= j < k ==> On(text).Parsed(g.choices[j], off, fuel) == Miss
    requires Gives(text, On(text).Kept(g.choices[k], off, fuel), v)
    ensures Gives(text, On(text).Kept(g, off, fuel), v)
  {
    hide Source.Parsed, Source.Winner, Source.Kept, Source.AltFrom, Listed, ExtractV;
    var s := On(text);
    FirstWinner(s, g, 0, k, off, fuel);
    AltIs(s, g, off, fuel);
    s.FirstIsTaken(g, 0, k, off, fuel);
    WinnerTree(s, g, k, off, fuel);
  }

  // --- arrays and objects ---------------------------------------------------------------------------------------------------

  /** One value for each of the trees. */
  predicate Read(text: string, bs: seq<Branch>, vs: seq<Values.Value>) {
    |bs| == |vs| && forall k :: 0 <= k < |bs| ==> ExtractV(text, bs[k]) == Values.Some(vs[k])
  }

  lemma ReadJoin(text: string, a: seq<Branch>, vs: seq<Values.Value>, b: seq<Branch>, ws: seq<Values.Value>)
    requires Read(text, a, vs) && Read(text, b, ws)
    ensures Read(text, a + b, vs + ws)
  {
    hide ExtractV;
  }

  lemma {:induction false} ItemsRead(text: string, bs: seq<Branch>, vs: seq<Values.Value>, bound: nat)
    requires Read(text, bs, vs) && forall k :: 0 <= k < |bs| ==> Size(bs[k]) < bound
    ensures ExtractItems(text, bs, bound) == vs
    decreases |bs|
  {
    hide ExtractV, Size;
    if bs != [] { ItemsRead(text, bs[1..], vs[1..], bound); }
  }

  predicate EntriesRead(text: string, bs: seq<Branch>, es: seq<(string, Values.Value)>) {
    |bs| == |es| && forall k :: 0 <= k < |bs| ==> ExtractEntry(text, bs[k]) == es[k]
  }

  lemma {:induction false} AllEntriesRead(text: string, bs: seq<Branch>, es: seq<(string, Values.Value)>, bound: nat)
    requires EntriesRead(text, bs, es) && forall k :: 0 <= k < |bs| ==> Size(bs[k]) < bound
    ensures ExtractEntries(text, bs, bound) == es
    decreases |bs|
  {
    hide ExtractEntry, Size;
    if bs != [] { AllEntriesRead(text, bs[1..], es[1..], bound); }
  }

  lemma BlanksNameless()
    ensures Nameless(Postval()) && Nameless(Sep()) && forall x :: Nameless(Str(x)) && Nameless(Rex(x))
  {
    assert Nameless(Com()) && Nameless(Ws()) && Nameless(Rn());
    assert Nameless(Eol());
  }

  /** One item of a sequence. */
  lemma OneKept(s: Source, g: Grammar, i: nat, off: nat, fuel: nat)
    requires off <= |s.text| && g.Seq? && i < |g.items| && g.items[i].q == One && s.Parsed(g.items[i].g, off, fuel).Hit?
    ensures
      s.SeqKept(g, i, off, fuel)
      == [s.Kept(g.items[i].g, off, fuel)] + s.SeqKept(g, i + 1, off + s.Parsed(g.items[i].g, off, fuel).length, fuel)
  {
    hide Source.Parsed, Source.Kept, Source.ItemFrom, Source.ItemKept, Source.SeqKept;
    s.SeqKeptIs(g, i, off, fuel);
    s.ItemKeptIs(g.items[i].g, One, off, fuel);
    s.ItemIs(g.items[i].g, One, off, fuel, 0);
  }

  /** A rule under `fabr_rep(…, 0, 1)`. */
  lemma MaybeKept(s: Source, g: Grammar, off: nat, fuel: nat)
    requires off <= |s.text| && s.Parsed(g, off, fuel) != Err
    ensures
      var b := s.Kept(Rep(g, 0, 1), off, fuel);
      b.name == "" && b.kids == if s.Parsed(g, off, fuel).Hit? then [s.Kept(g, off, fuel)] else []
  {
    hide Source.Parsed, Source.Kept, Source.RepKept;
    MaybeRep(s, g, off, fuel);
    s.KeptIs(Rep(g, 0, 1), off, fuel);
    s.RepKeptIs(g, off, fuel, 0, 1);
  }

  // --- the recursion ----------------------------------------------------------------------------------------------------------

  /** The value of each alternative of _v. */
  lemma OtherValueIs(t: string)
    ensures
      var s, q, n, o, a := Djan.Quoted(t, '"'), Djan.Quoted(t, '\''), Djan.NumberLength(t), ReadObject(t), ReadArray(t);
      var r := Djan.ReadOther(t);
      && (s.Got? ==> r == Djan.Got(Values.Str(Djan.Unescape(s.v)), s.rest))
      && (s.Fail? && q.Got? ==> r == Djan.Got(Values.Str(Djan.SqUnescape(q.v)), q.rest))
      && (s.Fail? && q.Fail? && n > 0 ==> r == Djan.Got(Values.Num(t[..n]), t[n..]))
      && (s.Fail? && q.Fail? && n == 0 && o.Got? ==> r == Djan.Got(Values.Obj(o.v), o.rest))
      && (s.Fail? && q.Fail? && n == 0 && o.Fail? && a.Got? ==> r == Djan.Got(Values.Arr(a.v), a.rest))
      && (s.Fail? && q.Fail? && n == 0 && o.Fail? && a.Fail? ==>
            if "true" <= t then r == Djan.Got(Values.Bool(true), t[4..])
            else if "false" <= t then r == Djan.Got(Values.Bool(false), t[5..])
            else if "null" <= t then r == Djan.Got(Values.Null, t[4..])
            else r.Fail?)
  {
    hide Djan.Quoted, Djan.NumberLength, Djan.ReadItems, Djan.ReadEntries, Djan.Unescape, Djan.SqUnescape;
    FirstLetters(t);
  }

  /** _value */
  lemma {:induction false} ValueTree(text: string, off: nat, fuel: nat)
    requires off <= |text| && DjanGrammar.NoNul(text) && fuel >= |text| - off && Djan.ReadValue(text[off..]).Got?
    ensures
      var b := On(text).Kept(ValueRule(), off, fuel);
      b.name == "" && Gives(text, b, Djan.ReadValue(text[off..]).v)
    decreases |text| - off, 4
  {
    hide Source.Parsed, Source.Winner, Source.Kept, Symbol, Other, Djan.SymbolLength, Djan.ReadOther, Gives;
    var s, g, t := On(text), ValueRule(), text[off..];
    ValueTakes(text, off, fuel);
    SymbolTakes(text, off, fuel, true);
    OtherTakes(text, off, fuel);
    s.WinnerIs(g, 0, off, fuel, Values.None);
    var best := if s.Parsed(g.choices[0], off, fuel).Hit? then Values.Some(0) else Values.None;
    s.WinnerIs(g, 1, off, fuel, best);
    var r, n := Djan.ReadOther(t), Djan.SymbolLength(t, true);
    if r.Got? && |t| - |r.rest| >= n {
      OtherTree(text, off, fuel);
      s.WinnerOver(g, off, fuel, Values.Some(1));
      WinnerGives(text, g, 1, off, fuel, r.v);
    } else {
      SymbolTree(text, off, fuel, true);
      s.WinnerOver(g, off, fuel, Values.Some(0));
      WinnerGives(text, g, 0, off, fuel, Values.Str(t[..n]));
    }
  }

  lemma WinnerGives(text: string, g: Grammar, k: nat, off: nat, fuel: nat, v: Values.Value)
    requires off <= |text| && g.Alt? && On(text).Parsed(g, off, fuel).Hit? && k < |g.choices|
    requires On(text).Winner(g, 0, off, fuel, Values.None) == Values.Some(k)
    requires Gives(text, On(text).Kept(g.choices[k], off, fuel), v)
    ensures
      var b := On(text).Kept(g, off, fuel);
      b.name == "" && Gives(text, b, v)
  {
    hide Source.Parsed, Source.Winner, Source.Kept, Listed, ExtractV;
    WinnerTree(On(text), g, k, off, fuel);
  }

  /** The alternative of _v that is taken. */
  function Taken(t: string): nat {
    if Djan.Quoted(t, '"').Got? then 0 else if Djan.Quoted(t, '\'').Got? then 1 else if Djan.NumberLength(t) > 0 then 2
    else if ReadObject(t).Got? then 3 else if ReadArray(t).Got? then 4
    else if "true" <= t then 5 else if "false" <= t then 6 else 7
  }

  /** _v */
  lemma {:induction false} OtherTree(text: string, off: nat, fuel: nat)
    requires off <= |text| && DjanGrammar.NoNul(text) && fuel >= |text| - off && Djan.ReadOther(text[off..]).Got?
    ensures Gives(text, On(text).Kept(Other(), off, fuel), Djan.ReadOther(text[off..]).v)
    decreases |text| - off, 3
  {
    hide Source.Parsed, Source.Kept, Choices, Taken, Gives, Djan.ReadOther;
    var t := text[off..];
    TakenIs(text, off, fuel);
    ChoiceTree(text, off, fuel, Taken(t));
    ChoiceGives(text, Other(), Taken(t), off, fuel, Djan.ReadOther(t).v);
  }

  /** What each alternative answers. */
  function Expected(t: string, j: nat): Answer {
    if j == 0 then Answered(t, Djan.Quoted(t, '"'))
    else if j == 1 then Answered(t, Djan.Quoted(t, '\''))
    else if j == 2 then Lexemes.AnswerOf(Djan.NumberLength(t))
    else if j == 3 then Answered(t, ReadObject(t))
    else if j == 4 then Answered(t, ReadArray(t))
    else if j == 5 then if "true" <= t then Hit(4) else Miss
    else if j == 6 then if "false" <= t then Hit(5) else Miss
    else if "null" <= t then Hit(4) else Miss
  }

  lemma ChoiceIs(text: string, off: nat, fuel: nat, j: nat)
    requires off <= |text| && DjanGrammar.NoNul(text) && fuel >= |text| - off && j < 8
    ensures |Choices()| == 8 && On(text).Parsed(Choices()[j], off, fuel) == Expected(text[off..], j)
  {
    hide Source.Parsed, StringOf, Number, Object, Array, ReadObject, ReadArray, Djan.Quoted, Djan.NumberLength;
    match j {
      case 0 => QuotedTakes('"', text, off, fuel);
      case 1 => QuotedTakes('\'', text, off, fuel);
      case 2 => NumberTakes(text, off, fuel);
      case 3 => ObjectTakes(text, off, fuel);
      case 4 => ArrayTakes(text, off, fuel);
      case 5 => WordIs("true", text, off, fuel);
      case 6 => WordIs("false", text, off, fuel);
      case _ => WordIs("null", text, off, fuel);
    }
  }

  lemma WordIs(w: string, text: string, off: nat, fuel: nat)
    requires off <= |text|
    ensures On(text).Parsed(Word(w), off, fuel) == if w <= text[off..] then Hit(|w|) else Miss
  {
    hide Source.Parsed;
    NamedIs(On(text), Word(w), off, fuel);
    StrIs(On(text), w, off, fuel);
  }

  lemma TakenExpected(t: string)
    requires Djan.ReadOther(t).Got?
    ensures Expected(t, Taken(t)).Hit? && forall j :: 0 <= j < Taken(t) ==> Expected(t, j) == Miss
  {
    hide ReadObject, ReadArray, Djan.Quoted, Djan.NumberLength, Djan.ReadOther, Djan.Unescape, Djan.SqUnescape;
    OtherValueIs(t);
    RestsShrink(t);
  }

  lemma RestsShrink(t: string)
    ensures ReadObject(t).Got? ==> |ReadObject(t).rest| <= |t|
    ensures ReadArray(t).Got? ==> |ReadArray(t).rest| <= |t|
  {
    hide Djan.ReadEntries, Djan.ReadItems;
  }

  /** It matches, and those before it do not. */
  lemma TakenIs(text: string, off: nat, fuel: nat)
    requires off <= |text| && DjanGrammar.NoNul(text) && fuel >= |text| - off && Djan.ReadOther(text[off..]).Got?
    ensures
      var s, k := On(text), Taken(text[off..]);
      && k < |Choices()| == 8 && s.Parsed(Choices()[k], off, fuel).Hit?
      && forall j :: 0 <= j < k ==> s.Parsed(Choices()[j], off, fuel) == Miss
  {
    hide Source.Parsed, Choices, Expected, Djan.ReadOther;
    var t := text[off..];
    TakenExpected(t);
    ChoiceIs(text, off, fuel, Taken(t));
    forall j | 0 <= j < Taken(t) ensures On(text).Parsed(Choices()[j], off, fuel) == Miss {
      ChoiceIs(text, off, fuel, j);
    }
  }

  /** The tree of the choice that is taken. */
  lemma {:induction false} ChoiceTree(text: string, off: nat, fuel: nat, k: nat)
    requires off <= |text| && DjanGrammar.NoNul(text) && fuel >= |text| - off && Djan.ReadOther(text[off..]).Got?
    requires k == Taken(text[off..])
    ensures Gives(text, On(text).Kept(Choices()[k], off, fuel), Djan.ReadOther(text[off..]).v)
    decreases |text| - off, 2
  {
    hide Source.Parsed, Source.Kept, StringOf, Number, Object, Array, Word, ReadObject, ReadArray, ExtractV, Listed;
    hide Djan.Quoted, Djan.NumberLength, Djan.ReadOther, Djan.Unescape, Djan.SqUnescape;
    var t := text[off..];
    OtherValueIs(t);
    match k {
      case 0 =>
        StringTree('"', text, off, fuel);
        NamedGives(text, On(text).Kept(StringOf('"'), off, fuel), Djan.ReadOther(t).v);
      case 1 =>
        StringTree('\'', text, off, fuel);
        NamedGives(text, On(text).Kept(StringOf('\''), off, fuel), Djan.ReadOther(t).v);
      case 2 => NumberTree(text, off, fuel);
      case 3 => ObjectTree(text, off, fuel);
      case 4 => ArrayTree(text, off, fuel);
      case 5 => WordTree("true", text, off, fuel);
      case 6 => WordTree("false", text, off, fuel);
      case _ => WordTree("null", text, off, fuel);
    }
  }

  /** _val */
  lemma {:induction false} ValTree(text: string, off: nat, fuel: nat)
    requires off <= |text| && DjanGrammar.NoNul(text) && fuel > |text| - off && Djan.ReadValue(text[off..]).Got?
    ensures
      var b := On(text).Kept(Val(), off, fuel);
      b.name == "" && Gives(text, b, Djan.ReadValue(text[off..]).v)
    decreases |text| - off, 5
  {
    hide Source.Parsed, Source.Kept, Source.SeqKept, Postval, Djan.Postval, Djan.ReadValue, ValueRule, Listed, ExtractV;
    var s, g, t := On(text), Val(), text[off..];
    ValTakes(text, off, fuel);
    s.KeptIs(g, off, fuel);
    RefIs(text, off, fuel);
    ValueTakes(text, off, fuel - 1);
    ValueTree(text, off, fuel - 1);
    OneKept(s, g, 0, off, fuel);
    s.KeptIs(Ref(VALUE_RULE), off, fuel);
    var at := |text| - |Djan.ReadValue(t).rest|;
    PostvalLeaves(text, at, fuel);
    OneKept(s, g, 1, at, fuel);
    s.SeqKeptOver(g, |text| - |Djan.Postval(Djan.ReadValue(t).rest)|, fuel);
    BlanksNameless();
    NoNames(s, Postval(), at, fuel, "");
    var x, y := s.Kept(ValueRule(), off, fuel - 1), s.Kept(Postval(), at, fuel);
    TwoListed(s.Kept(g, off, fuel), x, y);
  }

  lemma TwoListed(b: Branch, x: Branch, y: Branch)
    requires b.name == "" && b.kids == [x] + ([y] + []) && Listed(y, "") == []
    ensures Listed(b, "") == Listed(x, "")
  {
    hide Listed;
    BareListed(b, "");
    ListedOne(x, "");
    ListedOne(y, "");
    ListedJoin([x], [y], "");
    assert [x] + ([y] + []) == [x] + [y];
  }

  /** _array */
  lemma {:induction false} ArrayTree(text: string, off: nat, fuel: nat)
    requires off <= |text| && DjanGrammar.NoNul(text) && fuel >= |text| - off && ReadArray(text[off..]).Got?
    ensures Gives(text, On(text).Kept(Array(), off, fuel), Values.Arr(ReadArray(text[off..]).v))
    decreases |text| - off, 1
  {
    hide Source.Parsed, Source.Kept, Source.EseqKept, Source.EseqFrom, Djan.ReadItems, Listed, AllListed;
    var s, g, t := On(text), Elements(), text[off..];
    ArrayTakes(text, off, fuel);
    NamedIs(s, Array(), off, fuel);
    s.KeptIs(Array(), off, fuel);
    s.EseqTree(g, off, fuel);
    StrIs(s, "[", off, fuel);
    assert t[1..] == text[off + 1..];
    ItemsTree(text, off + 1, fuel);
    var b := s.Kept(Array(), off, fuel);
    var at := off + 1 + s.EseqFrom(g, off + 1, fuel, true).length;
    EndsListed(s, b.kids, Str("["), off, s.EseqKept(g, off + 1, fuel, true), Str("]"), at, fuel, "");
    TextTypes();
    KidsSizes(b, "");
    ItemsRead(text, AllListed(b.kids, ""), ReadArray(t).v, Size(b));
    NamedGives(text, b, Values.Arr(ReadArray(t).v));
  }

  lemma KidsSizes(b: Branch, name: string)
    ensures forall k :: 0 <= k < |AllListed(b.kids, name)| ==> Size(AllListed(b.kids, name)[k]) < Size(b)
  {
  }

  /** What opens and closes holds no names. */
  lemma EndsListed(s: Source, kids: seq<Branch>, open: Grammar, off: nat, mid: seq<Branch>, close: Grammar, at: nat,
      fuel: nat, name: string)
    requires off <= |s.text| && at <= |s.text| && (open.Str? || open.Rex?) && (close.Str? || close.Rex?)
    requires kids == [s.Kept(open, off, fuel)] + mid + [s.Kept(close, at, fuel)]
    ensures AllListed(kids, name) == AllListed(mid, name)
  {
    hide Source.Kept, Listed, AllListed;
    NoNames(s, open, off, fuel, name);
    NoNames(s, close, at, fuel, name);
    var x, y := s.Kept(open, off, fuel), s.Kept(close, at, fuel);
    ListedOne(x, name);
    ListedOne(y, name);
    ListedJoin([x], mid, name);
    ListedJoin([x] + mid, [y], name);
  }

  /** An optional value of an array. */
  lemma {:induction false} MaybeTree(text: string, off: nat, fuel: nat)
    requires off <= |text| && DjanGrammar.NoNul(text) && fuel > |text| - off
    ensures
      var r := Djan.ReadValue(text[off..]);
      Read(text, Listed(On(text).Kept(Rep(Val(), 0, 1), off, fuel), ""), if r.Got? then [r.v] else [])
    decreases |text| - off, 6
  {
    hide Source.Parsed, Source.Kept, Val, Djan.ReadValue, Listed, AllListed, ExtractV;
    var s := On(text);
    ValTakes(text, off, fuel);
    MaybeKept(s, Val(), off, fuel);
    var b := s.Kept(Rep(Val(), 0, 1), off, fuel);
    BareListed(b, "");
    NoneListed("");
    if Djan.ReadValue(text[off..]).Got? {
      ValTree(text, off, fuel);
      ListedOne(s.Kept(Val(), off, fuel), "");
    }
  }

  lemma NoneListed(name: string)
    ensures AllListed([], name) == []
  {
  }

  lemma {:induction false} ItemsTree(text: string, off: nat, fuel: nat)
    requires off <= |text| && DjanGrammar.NoNul(text) && fuel > |text| - off
    ensures
      Read(text, AllListed(On(text).EseqKept(Elements(), off, fuel, true), ""), Djan.ReadItems(text[off..]).0)
    decreases |text| - off, 8
  {
    hide Source.Parsed, Source.Kept, Source.Round, Source.RoundKept, Source.EseqKept, Val, Sep, Listed, AllListed, Read;
    hide Djan.ReadValue, Djan.Postval, Djan.MoreItems;
    var s, g, t := On(text), Elements(), text[off..];
    s.EseqKeptIs(g, off, fuel, true);
    s.RoundKeptIs(g, off, fuel, true);
    s.RoundIs(g, off, fuel, true);
    ValTakes(text, off, fuel);
    MaybeRep(s, Val(), off, fuel);
    MaybeTree(text, off, fuel);
    var r := ReadVal(t);
    var next := if r.Got? then |text| - |r.rest| else off;
    MoreItemsTree(text, next, fuel);
    var x := s.Kept(g.elt, off, fuel);
    ListedOne(x, "");
    ListedJoin([x], s.EseqKept(g, next, fuel, false), "");
    var vs := if r.Got? then [r.v] else [];
    var more := Djan.MoreItems(text[next..]).0;
    ReadJoin(text, Listed(x, ""), vs, AllListed(s.EseqKept(g, next, fuel, false), ""), more);
    assert Djan.ReadItems(t).0 == vs + more by { FirstItems(t); }
  }

  lemma FirstItems(t: string)
    ensures
      var r := ReadVal(t);
      Djan.ReadItems(t).0 == (if r.Got? then [r.v] else []) + Djan.MoreItems(if r.Got? then r.rest else t).0
  {
    hide Djan.MoreItems, Djan.ReadValue, Djan.Postval;
  }

  lemma NextItems(t: string)
    ensures
      var u := Djan.Sep(t);
      var r := ReadVal(u);
      Djan.MoreItems(t).0
      == if r.Got? then [r.v] + Djan.MoreItems(r.rest).0 else if |u| == |t| then [] else Djan.MoreItems(u).0
  {
    hide Djan.Sep, Djan.ReadValue, Djan.Postval;
  }

  lemma {:induction false} MoreItemsTree(text: string, off: nat, fuel: nat)
    requires off <= |text| && DjanGrammar.NoNul(text) && fuel > |text| - off
    ensures
      Read(text, AllListed(On(text).EseqKept(Elements(), off, fuel, false), ""), Djan.MoreItems(text[off..]).0)
    decreases |text| - off, 7
  {
    hide Source.Parsed, Source.Kept, Source.Round, Source.RoundKept, Source.EseqKept, Val, Sep, Listed, AllListed, Read;
    hide Djan.ReadValue, Djan.Postval, Djan.MoreItems, Djan.Sep;
    var s, g, t := On(text), Elements(), text[off..];
    s.EseqKeptIs(g, off, fuel, false);
    s.RoundKeptIs(g, off, fuel, false);
    s.RoundIs(g, off, fuel, false);
    SepLeaves(text, off, fuel);
    var u := Djan.Sep(t);
    var at := |text| - |u|;
    ValTakes(text, at, fuel);
    MaybeRep(s, Val(), at, fuel);
    MaybeTree(text, at, fuel);
    NextItems(t);
    NoneListed("");
    var r := ReadVal(u);
    var next := if r.Got? then |text| - |r.rest| else at;
    if next > off {
      MoreItemsTree(text, next, fuel);
      var x, y := s.Kept(g.sep, off, fuel), s.Kept(g.elt, at, fuel);
      SepListed(s, x, y, s.EseqKept(g, next, fuel, false), off, fuel, "");
      var vs := if r.Got? then [r.v] else [];
      var more := Djan.MoreItems(text[next..]).0;
      ReadJoin(text, Listed(y, ""), vs, AllListed(s.EseqKept(g, next, fuel, false), ""), more);
      assert s.EseqKept(g, off, fuel, false) == [x] + [y] + s.EseqKept(g, next, fuel, false);
      assert Djan.MoreItems(t).0 == vs + more;
    } else {
      ReadNone(text);
    }
  }

  lemma ReadNone(text: string)
    ensures Read(text, [], [])
  {
  }

  lemma SepListed(s: Source, x: Branch, y: Branch, rest: seq<Branch>, off: nat, fuel: nat, name: string)
    requires off <= |s.text| && x == s.Kept(Sep(), off, fuel)
    ensures AllListed([x] + [y] + rest, name) == Listed(y, name) + AllListed(rest, name)
  {
    hide Source.Kept, Sep, Listed, AllListed;
    BlanksNameless();
    NoNames(s, Sep(), off, fuel, name);
    ListedOne(x, name);
    ListedOne(y, name);
    ListedJoin([x], [y], name);
    ListedJoin([x] + [y], rest, name);
  }

  /** _key */
  lemma KeyTree(text: string, off: nat, fuel: nat)
    requires off <= |text| && Djan.ReadKey(text[off..]).Got?
    ensures
      var b := On(text).Kept(Key(), off, fuel);
      |b.kids| == 1 && ExtractKey(text, b.kids[0]) == Djan.ReadKey(text[off..]).v
  {
    hide Source.Parsed, Source.Kept, Source.Winner, Source.AltFrom, StringOf, Symbol, Djan.Quoted, Djan.SymbolLength, Djan.Unescape;
    hide Djan.SqUnescape;
    var s, g, t := On(text), Keys(), text[off..];
    KeyTakes(text, off, fuel);
    NamedIs(s, Key(), off, fuel);
    s.KeptIs(Key(), off, fuel);
    QuotedTakes('"', text, off, fuel);
    QuotedTakes('\'', text, off, fuel);
    SymbolTakes(text, off, fuel, false);
    var k := if Djan.Quoted(t, '"').Got? then 0 else if Djan.Quoted(t, '\'').Got? then 1 else 2;
    FirstWinner(s, g, 0, k, off, fuel);
    WinnerTree(s, g, k, off, fuel);
    if k == 0 {
      StringTree('"', text, off, fuel);
    } else if k == 1 {
      StringTree('\'', text, off, fuel);
    } else {
      SymbolTree(text, off, fuel, false);
    }
  }

  lemma ValueExtracted(text: string, b: Branch, v: Values.Value)
    requires b.name == "" && Gives(text, b, v)
    ensures ExtractValue(text, b) == Values.Some(v)
  {
    hide ExtractV, Listed, AllListed;
    BareListed(b, "");
    LookupIsFirst(b.kids);
  }

  /** _entry */
  lemma {:induction false} EntryTree(text: string, off: nat, fuel: nat)
    requires off <= |text| && DjanGrammar.NoNul(text) && fuel > |text| - off && Djan.ReadEntry(text[off..]).Got?
    ensures
      var b := On(text).Kept(Entry(), off, fuel);
      b.name == "entry" && ExtractEntry(text, b) == Djan.ReadEntry(text[off..]).v
    decreases |text| - off, 5
  {
    hide Source.Parsed, Source.Kept, Source.SeqKept, Key, EntryItems, Djan.ReadEntry, Djan.ReadKey, ValueRule, ExtractKey;
    hide ExtractValue, ExtractEntry;
    var s := On(text);
    EntryTakes(text, off, fuel);
    NamedIs(s, Entry(), off, fuel);
    s.KeptIs(Entry(), off, fuel);
    var at := EntryKids(text, off, fuel);
    KeyTree(text, off, fuel);
    EntryValue(text, at, fuel);
    EntryExtracted(text, s.Kept(Entry(), off, fuel));
  }

  lemma {:induction false} EntryValue(text: string, at: nat, fuel: nat)
    requires at <= |text| && DjanGrammar.NoNul(text) && fuel > |text| - at && Djan.ReadValue(text[at..]).Got?
    ensures
      ExtractValue(text, On(text).Kept(Ref(VALUE_RULE), at, fuel)) == Values.Some(Djan.ReadValue(text[at..]).v)
    decreases |text| - at, 5
  {
    hide Source.Parsed, Source.Kept, ValueRule, ExtractValue, Djan.ReadValue, Gives;
    var s := On(text);
    RefIs(text, at, fuel);
    ValueTakes(text, at, fuel - 1);
    s.KeptIs(Ref(VALUE_RULE), at, fuel);
    ValueTree(text, at, fuel - 1);
    ValueExtracted(text, s.Kept(ValueRule(), at, fuel - 1), Djan.ReadValue(text[at..]).v);
  }

  lemma EntryExtracted(text: string, b: Branch)
    requires |b.kids| == 6 && |b.kids[0].kids| == 1
    ensures
      var v := ExtractValue(text, b.kids[4]);
      ExtractEntry(text, b) == (ExtractKey(text, b.kids[0].kids[0]), if v.Some? then v.value else Values.Null)
  {
    hide ExtractKey, ExtractValue;
  }

  /** The six children of an entry, and where its value starts. */
  lemma EntryKids(text: string, off: nat, fuel: nat) returns (at: nat)
    requires off <= |text| && DjanGrammar.NoNul(text) && fuel > |text| - off && Djan.ReadEntry(text[off..]).Got?
    ensures Djan.ReadKey(text[off..]).Got? && off < at <= |text| && Djan.ReadValue(text[at..]).Got?
    ensures Djan.ReadEntry(text[off..]).v == (Djan.ReadKey(text[off..]).v, Djan.ReadValue(text[at..]).v)
    ensures
      var kids := On(text).Kept(EntryItems(), off, fuel).kids;
      |kids| == 6 && kids[0] == On(text).Kept(Key(), off, fuel) && kids[4] == On(text).Kept(Ref(VALUE_RULE), at, fuel)
  {
    hide Source.Parsed, Source.Kept, Source.SeqKept, Key, Postval, Djan.Postval, Djan.ReadKey, Djan.ReadValue, ValueRule;
    var s, g, t := On(text), EntryItems(), text[off..];
    EntryTakes(text, off, fuel);
    NamedIs(s, Entry(), off, fuel);
    s.KeptIs(EntryItems(), off, fuel);
    KeyTakes(text, off, fuel);
    OneKept(s, g, 0, off, fuel);
    var k := Djan.ReadKey(t);
    var at1 := |text| - |k.rest|;
    PostvalLeaves(text, at1, fuel);
    OneKept(s, g, 1, at1, fuel);
    var colon := Djan.Postval(k.rest);
    var at2 := |text| - |colon|;
    StrIs(s, ":", at2, fuel);
    OneKept(s, g, 2, at2, fuel);
    assert colon[1..] == text[at2 + 1..];
    PostvalLeaves(text, at2 + 1, fuel);
    OneKept(s, g, 3, at2 + 1, fuel);
    at := |text| - |Djan.Postval(colon[1..])|;
    RefIs(text, at, fuel);
    ValueTakes(text, at, fuel - 1);
    OneKept(s, g, 4, at, fuel);
    var r := Djan.ReadValue(text[at..]);
    var at5 := |text| - |r.rest|;
    PostvalLeaves(text, at5, fuel);
    OneKept(s, g, 5, at5, fuel);
    s.SeqKeptOver(g, |text| - |Djan.Postval(r.rest)|, fuel);
  }

  /** An optional entry of an object. */
  lemma {:induction false} MaybeEntry(text: string, off: nat, fuel: nat)
    requires off <= |text| && DjanGrammar.NoNul(text) && fuel > |text| - off
    ensures
      var r := Djan.ReadEntry(text[off..]);
      EntriesRead(text, Listed(On(text).Kept(Rep(Entry(), 0, 1), off, fuel), "entry"), if r.Got? then [r.v] else [])
    decreases |text| - off, 6
  {
    hide Source.Parsed, Source.Kept, Entry, Djan.ReadEntry, Listed, AllListed, ExtractEntry;
    var s := On(text);
    EntryTakes(text, off, fuel);
    MaybeKept(s, Entry(), off, fuel);
    var b := s.Kept(Rep(Entry(), 0, 1), off, fuel);
    BareListed(b, "entry");
    NoneListed("entry");
    if Djan.ReadEntry(text[off..]).Got? {
      EntryTree(text, off, fuel);
      ListedOne(s.Kept(Entry(), off, fuel), "entry");
      ListedSelf(s.Kept(Entry(), off, fuel));
    }
  }

  lemma ListedSelf(b: Branch)
    requires b.name == "entry"
    ensures Listed(b, "entry") == [b]
  {
  }

  lemma EntriesJoin(text: string, a: seq<Branch>, vs: seq<(string, Values.Value)>, b: seq<Branch>,
      ws: seq<(string, Values.Value)>)
    requires EntriesRead(text, a, vs) && EntriesRead(text, b, ws)
    ensures EntriesRead(text, a + b, vs + ws)
  {
    hide ExtractEntry;
  }

  lemma {:induction false} EntriesTree(text: string, off: nat, fuel: nat)
    requires off <= |text| && DjanGrammar.NoNul(text) && fuel > |text| - off
    ensures
      EntriesRead(text, AllListed(On(text).EseqKept(Entries(), off, fuel, true), "entry"), Djan.ReadEntries(text[off..]).0)
    decreases |text| - off, 8
  {
    hide Source.Parsed, Source.Kept, Source.Round, Source.RoundKept, Source.EseqKept, Entry, Sep, Listed, AllListed, EntriesRead;
    hide Djan.ReadEntry, Djan.MoreEntries;
    var s, g, t := On(text), Entries(), text[off..];
    s.EseqKeptIs(g, off, fuel, true);
    s.RoundKeptIs(g, off, fuel, true);
    s.RoundIs(g, off, fuel, true);
    EntryTakes(text, off, fuel);
    MaybeRep(s, Entry(), off, fuel);
    MaybeEntry(text, off, fuel);
    var r := Djan.ReadEntry(t);
    var next := if r.Got? then |text| - |r.rest| else off;
    MoreEntriesTree(text, next, fuel);
    var x := s.Kept(g.elt, off, fuel);
    ListedOne(x, "entry");
    ListedJoin([x], s.EseqKept(g, next, fuel, false), "entry");
    var vs := if r.Got? then [r.v] else [];
    var more := Djan.MoreEntries(text[next..]).0;
    EntriesJoin(text, Listed(x, "entry"), vs, AllListed(s.EseqKept(g, next, fuel, false), "entry"), more);
    assert Djan.ReadEntries(t).0 == vs + more by { FirstEntries(t); }
  }

  lemma FirstEntries(t: string)
    ensures
      var r := Djan.ReadEntry(t);
      Djan.ReadEntries(t).0 == (if r.Got? then [r.v] else []) + Djan.MoreEntries(if r.Got? then r.rest else t).0
  {
    hide Djan.MoreEntries, Djan.ReadEntry;
  }

  lemma NextEntries(t: string)
    ensures
      var u := Djan.Sep(t);
      var r := Djan.ReadEntry(u);
      Djan.MoreEntries(t).0
      == if r.Got? then [r.v] + Djan.MoreEntries(r.rest).0 else if |u| == |t| then [] else Djan.MoreEntries(u).0
  {
    hide Djan.Sep, Djan.ReadEntry;
  }

  lemma {:induction false} MoreEntriesTree(text: string, off: nat, fuel: nat)
    requires off <= |text| && DjanGrammar.NoNul(text) && fuel > |text| - off
    ensures
      EntriesRead(text, AllListed(On(text).EseqKept(Entries(), off, fuel, false), "entry"), Djan.MoreEntries(text[off..]).0)
    decreases |text| - off, 7
  {
    hide Source.Parsed, Source.Kept, Source.Round, Source.RoundKept, Source.EseqKept, Entry, Sep, Listed, AllListed, EntriesRead;
    hide Djan.ReadEntry, Djan.MoreEntries, Djan.Sep;
    var s, g, t := On(text), Entries(), text[off..];
    s.EseqKeptIs(g, off, fuel, false);
    s.RoundKeptIs(g, off, fuel, false);
    s.RoundIs(g, off, fuel, false);
    SepLeaves(text, off, fuel);
    var u := Djan.Sep(t);
    var at := |text| - |u|;
    EntryTakes(text, at, fuel);
    MaybeRep(s, Entry(), at, fuel);
    MaybeEntry(text, at, fuel);
    NextEntries(t);
    NoneListed("entry");
    var r := Djan.ReadEntry(u);
    var next := if r.Got? then |text| - |r.rest| else at;
    if next > off {
      MoreEntriesTree(text, next, fuel);
      var x, y := s.Kept(g.sep, off, fuel), s.Kept(g.elt, at, fuel);
      SepListed(s, x, y, s.EseqKept(g, next, fuel, false), off, fuel, "entry");
      var vs := if r.Got? then [r.v] else [];
      var more := Djan.MoreEntries(text[next..]).0;
      EntriesJoin(text, Listed(y, "entry"), vs, AllListed(s.EseqKept(g, next, fuel, false), "entry"), more);
      assert s.EseqKept(g, off, fuel, false) == [x] + [y] + s.EseqKept(g, next, fuel, false);
      assert Djan.MoreEntries(t).0 == vs + more;
    } else {
      NoEntries(text);
    }
  }

  lemma NoEntries(text: string)
    ensures EntriesRead(text, [], [])
  {
  }

  /** _object */
  lemma {:induction false} ObjectTree(text: string, off: nat, fuel: nat)
    requires off <= |text| && DjanGrammar.NoNul(text) && fuel >= |text| - off && ReadObject(text[off..]).Got?
    ensures Gives(text, On(text).Kept(Object(), off, fuel), Values.Obj(ReadObject(text[off..]).v))
    decreases |text| - off, 1
  {
    hide Source.Parsed, Source.Kept, Source.EseqKept, Source.EseqFrom, Djan.ReadEntries, Listed, AllListed;
    var s, g, t := On(text), Entries(), text[off..];
    ObjectTakes(text, off, fuel);
    NamedIs(s, Object(), off, fuel);
    s.KeptIs(Object(), off, fuel);
    s.EseqTree(g, off, fuel);
    StrIs(s, "{", off, fuel);
    assert t[1..] == text[off + 1..];
    EntriesTree(text, off + 1, fuel);
    var b := s.Kept(Object(), off, fuel);
    var at := off + 1 + s.EseqFrom(g, off + 1, fuel, true).length;
    EndsListed(s, b.kids, Str("{"), off, s.EseqKept(g, off + 1, fuel, true), Rex("}"), at, fuel, "entry");
    ObjectListed(b);
    TextTypes();
    AllEntriesRead(text, Listed(b, "entry"), ReadObject(t).v, Size(b));
    NamedGives(text, b, Values.Obj(ReadObject(t).v));
  }

  lemma ObjectListed(b: Branch)
    requires b.name == "object"
    ensures Listed(b, "entry") == AllListed(b.kids, "entry")
    ensures forall k :: 0 <= k < |Listed(b, "entry")| ==> Size(Listed(b, "entry")[k]) < Size(b)
  {
    assert "object"[0] != "entry"[0];
  }

  // --- fdja_parse ---------------------------------------------------------------------------------------------------------------

  /** The tree of a whole text. */
  lemma WholeTree(text: string, fuel: nat)
    requires DjanGrammar.NoNul(text) && fuel > |text| && Djan.Parse(text).Some?
    ensures Gives(text, On(text).Kept(Whole(), 0, fuel), Djan.Parse(text).value)
  {
    hide Source.Parsed, Source.Kept, Source.SeqKept, Postval, Val, Djan.Postval, Djan.ReadValue, Listed, ExtractV;
    var s, g := On(text), Whole();
    assert text[0..] == text;
    ParseTakes(text, fuel);
    s.KeptIs(g, 0, fuel);
    PostvalLeaves(text, 0, fuel);
    OneKept(s, g, 0, 0, fuel);
    var u := Djan.Postval(text);
    var at := |text| - |u|;
    ValTakes(text, at, fuel);
    ValTree(text, at, fuel);
    OneKept(s, g, 1, at, fuel);
    s.SeqKeptOver(g, |text|, fuel);
    BlanksNameless();
    NoNames(s, Postval(), 0, fuel, "");
    var x, y := s.Kept(Postval(), 0, fuel), s.Kept(Val(), at, fuel);
    var b := s.Kept(g, 0, fuel);
    assert b.kids == [x] + ([y] + []) == [x] + [y];
    TwoKids(b, x, y);
  }

  lemma TwoKids(b: Branch, x: Branch, y: Branch)
    requires b.name == "" && b.kids == [x] + [y]
    ensures Listed(b, "") == Listed(x, "") + Listed(y, "")
  {
    hide Listed, AllListed;
    BareListed(b, "");
    ListedJoin([x], [y], "");
    ListedOne(x, "");
    ListedOne(y, "");
  }

  /** fdja_parse: the combinators and the regex engine run over the text, and the value made of their tree is the one the
      parser reads; there is none exactly when it reads none. */
  method Parse(text: string) returns (v: Values.Option<Values.Value>)
    requires DjanGrammar.NoNul(text)
    ensures v == Djan.Parse(text)
  {
    hide Advancing, Djan.Parse, Source.Parsed, Source.Kept, Listed, AllListed, ExtractV, Combinators.AllTrimmed;
    var input := new Combinators.Input(text, [ValueRule()], true);
    DjanAdvances();
    ParseTakes(text, |text| + 1);
    var t := input.ParseAll(Whole(), |text| + 1);
    if t.result != 1 { return Values.None; }
    WholeTree(text, |text| + 1);
    ListedOne(On(text).Kept(Whole(), 0, |text| + 1), "");
    var b := Combinators.Trimmed(t);
    BareListed(b, "");
    ValueExtracted(text, b, Djan.Parse(text).value);
    v := ExtractValue(text, b);
  }
}
