/** Exactly which values come back from printing and parsing: those whose keys, at every depth, need no escape. */
module Reprinting {
  import opened Values
  import opened Djan

  // --- keys --------------------------------------------------------------------------------------------

  lemma ElementPrefix(t: string, n: nat)
    requires StrElement(t, '"') <= n <= |t|
    ensures StrElement(t[..n], '"') == StrElement(t, '"') || n == 0
  {
    var e := StrElement(t, '"');
    assert forall i :: 0 <= i < n ==> t[..n][i] == t[i];
    if n > 0 && t[0] == '\\' && e == 0 && n >= 6 && t[1] == 'u' {
      assert forall i :: 2 <= i < 6 ==> t[..n][i] == t[i];
    }
  }

  /** The body of a string is one when it stands alone. */
  lemma {:induction false} BodyPrefix(t: string)
    ensures StrBody(t[..StrBody(t, '"')], '"') == StrBody(t, '"')
    decreases |t|
  {
    hide StrElement, StrBody;
    BodyIs(t);
    var n := StrElement(t, '"');
    if n > 0 {
      var all := StrBody(t, '"');
      BodyPrefix(t[n..]);
      assert t[n..][..all - n] == t[..all][n..];
      ElementPrefix(t, all);
      BodyIs(t[..all]);
    } else {
      BodyIs([]);
      NoElement();
      assert t[..0] == [];
    }
  }

  lemma NoElement()
    ensures StrElement([], '"') == 0
  {
  }

  /** Unescaping a body moves its first quote to the front. */
  lemma {:induction false} QuoteMoves(b: string, j: nat) returns (m: nat)
    requires StrBody(b, '"') == |b| && j < |b| && b[j] == '"' && forall i :: 0 <= i < j ==> b[i] != '"'
    ensures m < j && m < |Unescape(b)| && Unescape(b)[m] == '"'
    decreases |b|
  {
    hide HexValue, StrBody, StrElement, Unescape;
    BodyStep(b);
    ElementKinds(b);
    ElementUnescapes(b);
    if b[0] != '\\' {
      NoQuoteFirst(b);
      m := QuoteMoves(b[1..], j - 1);
      m := m + 1;
    } else if b[1] == 'u' {
      assert !IsHexDigit('"');
      m := QuoteMoves(b[6..], j - 6);
      m := m + |Bytes(HexValue(b[2..6]))|;
    } else if b[1] == '"' {
      m := 0;
    } else {
      m := QuoteMoves(b[2..], j - 2);
      m := m + |Unescaped(b[1])|;
    }
  }

  lemma NoQuoteFirst(t: string)
    requires StrElement(t, '"') > 0
    ensures t[0] != '"'
  {
  }

  lemma FirstQuote(t: string, j: nat) returns (k: nat)
    requires j < |t| && t[j] == '"'
    ensures k <= j && t[k] == '"' && forall i :: 0 <= i < k ==> t[i] != '"'
  {
    k := 0;
    while t[k] != '"'
      invariant k <= j && forall i :: 0 <= i < k ==> t[i] != '"'
      decreases j - k
    {
      k := k + 1;
    }
  }

  /** A key that is not plain is never read as itself, whatever follows. */
  lemma KeyDiffers(k: string, post: string)
    requires !PlainKey(k)
    ensures
      var r := Quoted("\"" + k + "\"" + post, '"');
      r.Got? ==> Unescape(r.v) != k
  {
    hide StrBody, StrElement, Unescape, PlainKey;
    var tail := "\"" + post;
    var t := k + tail;
    assert ("\"" + k + "\"" + post)[1..] == t;
    var n := StrBody(t, '"');
    var b := t[..n];
    KeyReads(k, tail);
    UnescapeShrinks(b);
    if n == |k| {
      assert b == k;
    } else if n > |k| {
      BodyPrefix(t);
      assert b[|k|] == '"';
      var j := FirstQuote(b, |k|);
      var m := QuoteMoves(b, j);
      assert j <= |k| && k[m] == t[m] == b[m] != '"';
    }
  }

  // --- entries and items ---------------------------------------------------------------------------------

  lemma BadKey(e: (string, Value), post: string)
    requires !PlainKey(e.0)
    ensures
      var r := ReadEntry(JsonEntry(e) + post);
      r.Got? ==> r.v != e
  {
    hide Json, Quoted, Unescape, PlainKey, ReadValue, Postval;
    var t := JsonEntry(e) + post;
    var rest := ":" + Json(e.1) + post;
    assert t == "\"" + e.0 + "\"" + rest;
    KeyDiffers(e.0, rest);
    NotSqOrSymbol(t);
  }

  lemma NotSqOrSymbol(t: string)
    requires t != [] && t[0] == '"'
    ensures Quoted(t, '\'').Fail? && SymbolLength(t, false) == 0
  {
    assert SymElement(t, false) == 0;
  }

  lemma {:induction false} BadEntry(e: (string, Value), post: string)
    requires NoNul(e.0) && Storable(e.1) && !(PlainKey(e.0) && Printable(e.1)) && Stops(post)
    ensures
      var r := ReadEntry(JsonEntry(e) + post);
      r.Got? ==> r.v != e
    decreases e, 1
  {
    hide ReadEntry, ReadValue, Json, PlainKey, Printable, Storable;
    if PlainKey(e.0) {
      BadValue(e.1, post);
      EntryIs(e, post);
    } else {
      BadKey(e, post);
    }
  }

  /** Behind a plain key the value is read. */
  lemma EntryIs(e: (string, Value), post: string)
    requires PlainKey(e.0) && Storable(e.1)
    ensures
      var r, v := ReadEntry(JsonEntry(e) + post), ReadValue(Json(e.1) + post);
      r.Got? ==> v.Got? && r.v == (e.0, v.v)
  {
    hide ReadValue, Json, Quoted, Unescape;
    var t := JsonEntry(e) + post;
    var value := Json(e.1) + post;
    var colon := ":" + value;
    assert t == "\"" + e.0 + "\"" + colon;
    PlainQuoted(e.0, colon);
    PostvalStays(colon);
    assert colon[1..] == value;
    JsonIsSolid(e.1, post);
    PostvalStays(value);
  }

  /** A value that cannot be printed is never read as itself. */
  lemma {:induction false} BadValue(v: Value, post: string)
    requires Storable(v) && !Printable(v) && Stops(post)
    ensures
      var r := ReadValue(Json(v) + post);
      r.Got? ==> r.v != v
    decreases v, 0
  {
    hide ReadItems, ReadEntries, PlainKey, IsNumber;
    match v {
      case Arr(items) =>
        BadItems(items, post);
        ArrayGives(items, post);
      case Obj(entries) =>
        BadEntries(entries, post);
        ObjectGives(entries, post);
      case _ =>
    }
  }

  lemma ArrayGives(items: seq<Value>, post: string)
    ensures
      var r := ReadValue("[" + JsonItems(items) + "]" + post);
      r.Got? ==> r.v == Arr(ReadItems(JsonItems(items) + "]" + post).0)
  {
    hide ReadItems;
    var s := "[" + JsonItems(items) + "]" + post;
    assert s[1..] == JsonItems(items) + "]" + post && s[0] == '[';
    assert SymElement(s, true) == 0;
    assert NumberLength(s) == 0 by { assert s[0..] == s; }
  }

  lemma ObjectGives(es: seq<(string, Value)>, post: string)
    ensures
      var r := ReadValue("{" + JsonEntries(es) + "}" + post);
      r.Got? ==> r.v == Obj(ReadEntries(JsonEntries(es) + "}" + post).0)
  {
    hide ReadEntries;
    var s := "{" + JsonEntries(es) + "}" + post;
    assert s[1..] == JsonEntries(es) + "}" + post && s[0] == '{';
    assert SymElement(s, true) == 0;
    assert NumberLength(s) == 0 by { assert s[0..] == s; }
  }

  predicate AllStorable(vs: seq<Value>) { forall i :: 0 <= i < |vs| ==> Storable(vs[i]) }

  predicate AllPrintable(vs: seq<Value>) { forall i :: 0 <= i < |vs| ==> Printable(vs[i]) }

  lemma {:induction false} BadItems(vs: seq<Value>, post: string)
    requires AllStorable(vs) && !AllPrintable(vs)
    ensures ReadItems(JsonItems(vs) + "]" + post).0 != vs
    decreases vs, 2
  {
    hide ReadValue, Json, JsonItems, ItemsTail, MoreItems, Postval, Printable, Storable;
    var tail := ItemsTail(vs[1..]) + ("]" + post);
    ItemsSplit(vs, post);
    ItemsTailText(vs, post);
    if Printable(vs[0]) {
      ValueRoundTrip(vs[0], tail);
      PostvalStays(tail);
      BadMoreItems(vs[1..], post);
      assert vs == [vs[0]] + vs[1..];
    } else {
      BadValue(vs[0], tail);
      var u := Json(vs[0]) + tail;
      JsonIsSolid(vs[0], tail);
      NoItem(u);
    }
  }

  /** Without a value, and without a comma, there are no more items. */
  lemma NoItem(u: string)
    requires u != [] && Solid(u) && u[0] != ','
    ensures ReadValue(u).Fail? ==> MoreItems(u).0 == []
  {
    hide ReadValue;
    PostvalStays(u);
  }

  lemma NextItem(t: string, tail: string)
    requires "," <= t && Postval(t[1..]) == t[1..]
    ensures
      var r := ReadValue(t[1..]);
      MoreItems(t).0 == if r.Got? then [r.v] + MoreItems(Postval(r.rest)).0 else MoreItems(t[1..]).0
  {
    hide ReadValue, Postval;
  }

  lemma {:induction false} BadMoreItems(vs: seq<Value>, post: string)
    requires AllStorable(vs) && !AllPrintable(vs)
    ensures MoreItems(ItemsTail(vs) + ("]" + post)).0 != vs
    decreases vs, 1
  {
    hide ReadValue, Json, ItemsTail, MoreItems, Postval, Sep, Printable, Storable;
    var end := "]" + post;
    var tail := ItemsTail(vs[1..]) + end;
    var t := ItemsTail(vs) + end;
    ItemsTailText(vs, post);
    assert t[1..] == Json(vs[0]) + tail;
    JsonIsSolid(vs[0], tail);
    PostvalStays(t[1..]);
    NextItem(t, tail);
    if Printable(vs[0]) {
      ValueRoundTrip(vs[0], tail);
      PostvalStays(tail);
      BadMoreItems(vs[1..], post);
      assert vs == [vs[0]] + vs[1..];
    } else {
      BadValue(vs[0], tail);
      NoItem(t[1..]);
    }
  }

  predicate EntriesStorable(es: seq<(string, Value)>) {
    forall i :: 0 <= i < |es| ==> NoNul(es[i].0) && Storable(es[i].1)
  }

  predicate EntriesPrintable(es: seq<(string, Value)>) {
    forall i :: 0 <= i < |es| ==> PlainKey(es[i].0) && Printable(es[i].1)
  }

  lemma {:induction false} BadEntries(es: seq<(string, Value)>, post: string)
    requires EntriesStorable(es) && !EntriesPrintable(es)
    ensures ReadEntries(JsonEntries(es) + "}" + post).0 != es
    decreases es, 3
  {
    hide ReadEntry, JsonEntry, JsonEntries, EntriesTail, MoreEntries, Postval, Printable, Storable, PlainKey;
    var tail := EntriesTail(es[1..]) + ("}" + post);
    EntriesSplit(es, post);
    TailStops(es[1..], post);
    if PlainKey(es[0].0) && Printable(es[0].1) {
      EntryRoundTrip(es[0], tail);
      BadMoreEntries(es[1..], post);
      assert es == [es[0]] + es[1..];
    } else {
      BadEntry(es[0], tail);
      EntryIsSolid(es[0], tail);
      NoMore(JsonEntry(es[0]) + tail, es[0], tail);
    }
  }

  lemma NoMore(u: string, e: (string, Value), tail: string)
    requires u == JsonEntry(e) + tail
    ensures ReadEntry(u).Fail? ==> MoreEntries(u).0 == []
  {
    hide ReadEntry, Json;
    EntryIsSolid(e, tail);
    assert u[0] == '"';
    PostvalStays(u);
  }

  lemma NextEntry(t: string)
    requires "," <= t && Postval(t[1..]) == t[1..]
    ensures
      var r := ReadEntry(t[1..]);
      MoreEntries(t).0 == if r.Got? then [r.v] + MoreEntries(r.rest).0 else MoreEntries(t[1..]).0
  {
    hide ReadEntry, Postval;
  }

  lemma {:induction false} BadMoreEntries(es: seq<(string, Value)>, post: string)
    requires EntriesStorable(es) && !EntriesPrintable(es)
    ensures MoreEntries(EntriesTail(es) + ("}" + post)).0 != es
    decreases es, 2
  {
    hide ReadEntry, JsonEntry, MoreEntries, Postval, Sep, Printable, Storable, PlainKey, EntriesTail;
    var end := "}" + post;
    var tail := EntriesTail(es[1..]) + end;
    var t := EntriesTail(es) + end;
    TailText(es, post);
    TailStops(es[1..], post);
    assert t[1..] == JsonEntry(es[0]) + tail;
    EntryIsSolid(es[0], tail);
    PostvalStays(t[1..]);
    NextEntry(t);
    if PlainKey(es[0].0) && Printable(es[0].1) {
      EntryRoundTrip(es[0], tail);
      BadMoreEntries(es[1..], post);
      assert es == [es[0]] + es[1..];
    } else {
      BadEntry(es[0], tail);
      NoMore(t[1..], es[0], tail);
    }
  }

  /** Parsing what was printed gives the value back if and only if no key needs an escape. */
  lemma ComesBack(v: Value)
    requires Storable(v)
    ensures Parse(Json(v)) == Some(v) <==> Printable(v)
  {
    hide ReadValue, Json, Printable, Storable;
    if Printable(v) {
      RoundTrip(v);
    } else {
      BadValue(v, []);
      JsonIsSolid(v, []);
      assert Json(v) + [] == Json(v);
      PostvalStays(Json(v));
    }
  }

  /** A key that holds a quote does not come back. */
  lemma KeyBreaks()
    ensures Parse(Json(Obj([("a\"", Null)]))) != Some(Obj([("a\"", Null)]))
  {
    hide Parse, Json;
    var k := "a\"";
    var v := Obj([(k, Null)]);
    assert k[1..] == "\"" && !PlainKey(k[1..]);
    assert v.entries[0].0 == k && !PlainKey(k);
    ComesBack(v);
  }
}
