/** Texts with their quotes, and what cloning makes of them: a clone is printed as JSON and parsed back, which leaves
    plain strings only. */
module Cloning {
  import opened Values
  import opened Djan

  /** The source keeps the text of a value as it was read; here without its quotes. */
  datatype Kind = Plain | Single | Symbol

  datatype Text = Text(kind: Kind, body: string)

  /** fdja_to_string. */
  function Content(t: Text): string {
    match t.kind
    case Plain => Unescape(t.body)
    case Single => SqUnescape(t.body)
    case Symbol => t.body
  }

  /** is_op: a text in single quotes is no operator. */
  predicate IsOp(t: Text, op: string) { t.kind != Single && Content(t) == op }

  /** The body of a single-quoted text as fdja_to_j writes it; the last character is looked at with the closing quote
      behind it. */
  function Requoted(s: string): string {
    if s == [] then []
    else if s[0] == '\\' && (|s| == 1 || s[1] == '\'') then ['\''] + (if |s| == 1 then [] else Requoted(s[2..]))
    else [s[0]] + Requoted(s[1..])
  }

  /** fdja_to_j. */
  function Printed(t: Text): string {
    "\"" + (if t.kind == Single then Requoted(t.body) else t.body) + "\""
  }

  /** fdja_clone: what the whole of the printed text reads as, if it does. */
  function Cloned(t: Text): Option<Text> {
    match Quoted(Printed(t), '"')
    case Fail => None
    case Got(body, rest) => if Postval(rest) == [] then Some(Text(Plain, body)) else None
  }

  /** What the parser reads. */
  predicate Parsable(t: Text) {
    match t.kind
    case Plain => StrBody(t.body + "\"", '"') == |t.body|
    case Single => StrBody(t.body + "'", '\'') == |t.body|
    case Symbol => t.body != [] && SymbolLength(t.body, true) == |t.body|
  }

  /** An operator, or any other word without quotes, backslashes and `$`. */
  predicate Clean(s: string) { '"' !in s && '\'' !in s && '\\' !in s && '$' !in s }

  // --- what is read back is what the parser of values reads ----------------------------------------------

  /** The clone is what the parser makes of the printed text. */
  lemma CloneIsParsed(t: Text)
    ensures Djan.Parse(Printed(t)) == match Cloned(t) case None => None case Some(c) => Some(Str(Content(c)))
  {
    hide Quoted, NumberLength, SqUnescape, Unescape, Printed, ReadEntries, ReadItems, Postval;
    var s := Printed(t);
    PrintedQuote(t);
    PostvalStays(s);
    QuoteOnly(s);
    var q := Quoted(s, '"');
    assert ReadOther(s) == if q.Got? then Got(Str(Unescape(q.v)), q.rest) else Fail;
    assert ReadValue(s) == ReadOther(s);
  }

  lemma PrintedQuote(t: Text)
    ensures Printed(t) != [] && Printed(t)[0] == '"'
  {
  }

  lemma QuoteOnly(s: string)
    requires s != [] && s[0] == '"'
    ensures Quoted(s, '\'') == Fail && NumberLength(s) == 0 && SymbolLength(s, true) == 0
    ensures !("{" <= s) && !("[" <= s) && !("true" <= s) && !("false" <= s) && !("null" <= s)
  {
    assert SymElement(s, true) == 0;
  }

  // --- bodies without quotes and backslashes inside --------------------------------------------------------

  /** Unescaping drops no single quote. */
  lemma {:induction false} QuotesStay(s: string)
    requires '\'' !in Unescape(s)
    ensures '\'' !in s
    decreases |s|
  {
    if s != [] {
      var u := Unescape(s);
      if s[0] != '\\' || |s| == 1 {
        assert u == [s[0]] + Unescape(s[1..]);
        QuotesStay(s[1..]);
        assert s == [s[0]] + s[1..];
      } else if s[1] == 'u' && |s| >= 6 && (forall i :: 2 <= i < 6 ==> IsHexDigit(s[i])) {
        assert u == Bytes(HexValue(s[2..6])) + Unescape(s[6..]);
        QuotesStay(s[6..]);
        assert s == s[..6] + s[6..];
        assert forall i :: 2 <= i < 6 ==> s[..6][i] == s[i] && s[i] != '\'';
      } else {
        assert u == Unescaped(s[1]) + Unescape(s[2..]);
        QuotesStay(s[2..]);
        EscapedQuote();
        assert s == [s[0], s[1]] + s[2..];
      }
    }
  }

  lemma EscapedQuote()
    ensures '\'' in Unescaped('\'')
  {
    assert Unescaped('\'')[1] == '\'';
  }

  lemma {:induction false} UnquoteIdle(s: string)
    ensures Unquote(s) == s || '\'' in Unquote(s)
    decreases |s|
  {
    if s != [] {
      if s[0] == '\\' && |s| > 1 && s[1] == '\'' {
        assert Unquote(s)[0] == '\'';
      } else {
        assert Unquote(s) == [s[0]] + Unquote(s[1..]);
        UnquoteIdle(s[1..]);
      }
    }
  }

  lemma {:induction false} UnquoteClean(s: string)
    requires '\'' !in s
    ensures Unquote(s) == s
    decreases |s|
  {
    if s != [] { UnquoteClean(s[1..]); }
  }

  lemma {:induction false} RequotedIdle(s: string)
    ensures Requoted(s) == s || '\'' in Requoted(s)
    decreases |s|
  {
    if s != [] {
      if s[0] == '\\' && (|s| == 1 || s[1] == '\'') {
        assert Requoted(s)[0] == '\'';
      } else {
        assert Requoted(s) == [s[0]] + Requoted(s[1..]);
        RequotedIdle(s[1..]);
      }
    }
  }

  lemma {:induction false} RequotedSame(s: string)
    requires '\'' !in s && (s != [] ==> s[|s| - 1] != '\\')
    ensures Requoted(s) == s
    decreases |s|
  {
    if s != [] { RequotedSame(s[1..]); }
  }

  /** A body whose content is clean is a body between double quotes too, as long as it holds none of these. */
  lemma {:induction false} CleanBody(s: string, post: string)
    requires StrBody(s + "'", '\'') == |s| && '"' !in s && '\\' !in Unescape(s) && '\'' !in Unescape(s)
    ensures StrBody(s + "\"" + post, '"') == |s| && '\'' !in s && (s != [] ==> s[|s| - 1] != '\\')
    decreases |s|
  {
    hide Unescape, StrElement;
    QuotesStay(s);
    var t, d := s + "'", s + "\"" + post;
    if s == [] {
      EndElement(d);
    } else {
      var n := StrElement(t, '\'');
      ElementWithin(s, t, d);
      assert t[n..] == s[n..] + "'" && d[n..] == s[n..] + "\"" + post;
      assert Unescape(s) == Unescape(s[..n]) + Unescape(s[n..]) by { ElementSplits(s, n); }
      assert '"' !in s[n..];
      CleanBody(s[n..], post);
    }
  }

  lemma EndElement(t: string)
    requires t != [] && t[0] == '"'
    ensures StrElement(t, '"') == 0
  {
  }

  /** The element a body starts with, between quotes of either kind. */
  lemma ElementWithin(s: string, t: string, d: string)
    requires s != [] && t == s + "'" && |d| > |s| && d[..|s|] == s && d[|s|] == '"'
    requires StrBody(t, '\'') == |s| && '"' !in s && '\'' !in s && '\\' !in Unescape(s)
    ensures
      var n := StrElement(t, '\'');
      && n in {1, 2, 6} && n <= |s| && StrElement(d, '"') == n && (n == 2 ==> s[1] != 'u')
      && (n == 1 ==> s[0] != '\\') && (n == 2 ==> s[1] != '\\')
      && (n == 2 || n == 6 ==> s[0] == '\\') && (n == 6 ==> s[1] == 'u' && forall i :: 2 <= i < 6 ==> IsHexDigit(s[i]))
  {
    var n := StrElement(t, '\'');
    assert t[0] == s[0] == d[0] && n <= StrBody(t, '\'');
    assert forall i :: 0 <= i < n ==> t[i] == s[i] == d[i];
    SlashStays(s);
  }

  lemma SlashStays(s: string)
    ensures |s| > 1 && s[0] == s[1] == '\\' ==> '\\' in Unescape(s)
  {
    if |s| > 1 && s[0] == s[1] == '\\' { assert Unescape(s)[0] == '\\'; }
  }

  lemma ElementSplits(s: string, n: nat)
    requires n <= |s| && (n == 1 || n == 2 || n == 6)
    requires (n == 1 ==> s[0] != '\\') && (n == 2 || n == 6 ==> s[0] == '\\') && (n == 2 ==> s[1] != 'u')
    requires n == 6 ==> s[1] == 'u' && forall i :: 2 <= i < 6 ==> IsHexDigit(s[i])
    ensures Unescape(s) == Unescape(s[..n]) + Unescape(s[n..])
  {
    hide Unescape, ElementText, IsHexDigit;
    var e := s[..n];
    FirstElement(s, n);
    assert e[..n] == e && e[n..] == [];
    assert n == 6 ==> forall i :: 2 <= i < 6 ==> e[i] == s[i];
    FirstElement(e, n);
    NothingLeft();
    assert ElementText(e) + [] == ElementText(e);
  }

  lemma NothingLeft()
    ensures Unescape([]) == []
  {
  }

  function ElementText(e: string): string
    requires |e| in {1, 2, 6} && (|e| == 6 ==> forall i :: 2 <= i < 6 ==> IsHexDigit(e[i]))
  {
    if |e| == 1 then e else if |e| == 2 then Unescaped(e[1]) else Bytes(HexValue(e[2..6]))
  }

  lemma FirstElement(s: string, n: nat)
    requires n <= |s| && (n == 1 || n == 2 || n == 6)
    requires (n == 1 ==> s[0] != '\\') && (n == 2 || n == 6 ==> s[0] == '\\') && (n == 2 ==> s[1] != 'u')
    requires n == 6 ==> s[1] == 'u' && forall i :: 2 <= i < 6 ==> IsHexDigit(s[i])
    ensures Unescape(s) == ElementText(s[..n]) + Unescape(s[n..])
  {
    hide Unescaped, Bytes, HexValue, IsHexDigit;
    if n == 6 { assert s[..6][2..6] == s[2..6]; }
  }

  // --- texts in single quotes, as they are printed and read ------------------------------------------------

  /** The first double quote, or the end. */
  function QuoteAt(s: string): (k: nat)
    ensures k <= |s| && (forall i :: 0 <= i < k ==> s[i] != '"') && (k < |s| ==> s[k] == '"')
  {
    if s == [] || s[0] == '"' then 0 else 1 + QuoteAt(s[1..])
  }

  predicate EndsInBackslash(s: string) { s != [] && s[|s| - 1] == '\\' }

  /** Characters before which there is no backslash stay. */
  lemma {:induction false} RequotedPast(s: string, n: nat)
    requires n <= |s| && forall i :: 0 <= i < n ==> s[i] != '\\'
    ensures Requoted(s) == s[..n] + Requoted(s[n..])
  {
    if n > 0 {
      RequotedPast(s[1..], n - 1);
      assert s[1..][n - 1..] == s[n..] && s[..n] == [s[0]] + s[1..][..n - 1];
    }
  }

  /** One element of a text in single quotes, as it is printed. */
  lemma ElementRequoted(s: string)
    requires s != [] && StrBody(s + "'", '\'') == |s|
    ensures
      var n := StrElement(s + "'", '\'');
      && n in {1, 2, 6} && n <= |s| && StrBody(s[n..] + "'", '\'') == |s[n..]|
      && (n == 1 <==> s[0] != '\\') && (n == 1 ==> s[0] != '\'' && s[0] !in CONTROLS)
      && (n == 2 ==> s[1] in ['\'', '/', '\\', 'b', 'f', 'n', 'r', 't'])
      && (n == 6 ==> s[1] == 'u' && forall i :: 2 <= i < 6 ==> IsHexDigit(s[i]))
      && Requoted(s)
         == (if n == 2 && s[1] == '\'' then "'" else if s == "\\\\" then "\\'" else s[..n]) + Requoted(s[n..])
  {
    hide StrBody, Requoted;
    var t := s + "'";
    var n := StrElement(t, '\'');
    BodySplits(t, '\'');
    assert forall i :: 0 <= i < |s| ==> t[i] == s[i];
    assert t[n..] == s[n..] + "'";
    RequotedElement(s, n);
  }

  lemma BodySplits(t: string, q: char)
    ensures StrBody(t, q) == var n := StrElement(t, q); if n == 0 then 0 else n + StrBody(t[n..], q)
  {
    hide StrElement;
  }

  lemma RequotedElement(s: string, n: nat)
    requires n in {1, 2, 6} && n <= |s| && (n == 1 <==> s[0] != '\\') && (n == 2 ==> |s| > 2 ==> s[2] != '\'')
    requires n == 6 ==> forall i :: 1 <= i < 6 ==> s[i] != '\\' && s[i] != '\''
    ensures
      Requoted(s)
      == (if n == 2 && s[1] == '\'' then "'" else if s == "\\\\" then "\\'" else s[..n]) + Requoted(s[n..])
  {
    if n == 1 {
      assert s[..1] == [s[0]];
    } else if n == 2 {
      RequotedPair(s);
    } else {
      RequotedCode(s);
    }
  }

  lemma RequotedPair(s: string)
    requires |s| >= 2 && s[0] == '\\' && (|s| > 2 ==> s[2] != '\'')
    ensures Requoted(s)
      == (if s[1] == '\'' then "'" else if s == "\\\\" then "\\'" else s[..2]) + Requoted(s[2..])
  {
    hide Requoted;
    RequotedStep(s);
    RequotedStep(s[1..]);
    RequotedStep([]);
    assert s[1..][1..] == s[2..] && s[..2] == [s[0]] + [s[1]];
    if |s| == 2 { assert s == [s[0], s[1]] && s[2..] == [] && s[1..] == [s[1]]; }
  }

  lemma RequotedStep(s: string)
    ensures s == [] ==> Requoted(s) == []
    ensures s != [] ==>
      Requoted(s)
      == (if s[0] == '\\' && |s| == 1 then "'" else if s[0] == '\\' && s[1] == '\'' then "'" + Requoted(s[2..])
          else [s[0]] + Requoted(s[1..]))
  {
  }

  lemma RequotedCode(s: string)
    requires |s| >= 6 && s[0] == '\\' && forall i :: 1 <= i < 6 ==> s[i] != '\\' && s[i] != '\''
    ensures Requoted(s) == s[..6] + Requoted(s[6..])
  {
    hide Requoted;
    RequotedStep(s);
    RequotedPast(s[1..], 5);
    assert s[1..][5..] == s[6..] && s[..6] == [s[0]] + s[1..][..5];
  }

  /** What the closing quote of the print meets: the first double quote of the text if there is one, else the escape that
      a final backslash makes of a single quote, else the end. */
  lemma {:induction false} Reread(s: string)
    requires StrBody(s + "'", '\'') == |s|
    ensures
      var x := Requoted(s);
      var n, k := StrBody(x + "\"", '"'), QuoteAt(x);
      if k < |x| then n == k else if EndsInBackslash(s) then n + 2 == |x| && x[n] == '\\' else n == |x|
    decreases |s|
  {
    hide StrBody, StrElement, Requoted;
    var x := Requoted(s);
    BodySplits(x + "\"", '"');
    if s == [] {
      RequotedStep(s);
      EndElement("\"");
      assert [] + "\"" == "\"";
    } else {
      ElementRequoted(s);
      var n := StrElement(s + "'", '\'');
      Reread(s[n..]);
      var y := Requoted(s[n..]);
      RereadElement(s, n, y);
      var e := if n == 2 && s[1] == '\'' then "'" else if s == "\\\\" then "\\'" else s[..n];
      assert x == e + y;
      if s == "\\\\" {
        RequotedStep([]);
        assert s[n..] == [] && x == "\\'";
        assert QuoteAt(x) == |x|;
      } else if s[0] == '"' {
        assert x[0] == '"';
      } else {
        RereadRest(s, n, e, y);
      }
    }
  }

  lemma RereadRest(s: string, n: nat, e: string, y: string)
    requires 0 < n <= |s| && (n == |s| ==> s[n - 1] != '\\') && forall i :: 0 <= i < |e| ==> e[i] != '"'
    ensures QuoteAt(e + y) == |e| + QuoteAt(y) && (EndsInBackslash(s) <==> EndsInBackslash(s[n..]))
    ensures (e + y + "\"")[|e|..] == y + "\"" && forall k :: 0 <= k < |y| ==> (e + y)[|e| + k] == y[k]
  {
    hide QuoteAt;
    assert (e + y)[|e|..] == y;
    QuotePast(e + y, |e|);
    LastOfRest(s, n);
  }

  lemma LastOfRest(s: string, n: nat)
    requires 0 < n <= |s| && (n == |s| ==> s[n - 1] != '\\')
    ensures EndsInBackslash(s) <==> EndsInBackslash(s[n..])
  {
  }

  lemma {:induction false} QuotePast(s: string, n: nat)
    requires n <= |s| && forall i :: 0 <= i < n ==> s[i] != '"'
    ensures QuoteAt(s) == n + QuoteAt(s[n..])
  {
    if n > 0 {
      QuotePast(s[1..], n - 1);
      assert s[1..][n - 1..] == s[n..];
    }
  }

  /** The first element of the print, read between double quotes. */
  lemma RereadElement(s: string, n: nat, y: string)
    requires s != [] && n in {1, 2, 6} && n <= |s| && (n == 1 <==> s[0] != '\\') && (n == 1 ==> s[0] != '\'' && s[0] !in CONTROLS)
    requires n == 2 ==> s[1] in ['\'', '/', '\\', 'b', 'f', 'n', 'r', 't']
    requires n == 6 ==> s[1] == 'u' && forall i :: 2 <= i < 6 ==> IsHexDigit(s[i])
    ensures
      var e := if n == 2 && s[1] == '\'' then "'" else if s == "\\\\" then "\\'" else s[..n];
      && StrElement(e + y + "\"", '"') == (if s == "\\\\" || s[0] == '"' then 0 else |e|)
      && (s[0] != '"' ==> forall i :: 0 <= i < |e| ==> e[i] != '"')
  {
    var e := if n == 2 && s[1] == '\'' then "'" else if s == "\\\\" then "\\'" else s[..n];
    var d := e + y + "\"";
    assert forall i :: 0 <= i < |e| ==> d[i] == e[i];
  }

  /** Blanks, and then a comment. */
  predicate CommentFollows(s: string) {
    var r := SkipBlanks(s);
    "#" <= r || "//" <= r
  }

  predicate NoBreaks(s: string) { forall i :: 0 <= i < |s| ==> s[i] != '\r' && s[i] != '\n' }

  lemma {:induction false} RequotedBreaks(s: string)
    requires StrBody(s + "'", '\'') == |s|
    ensures NoBreaks(Requoted(s))
    decreases |s|
  {
    hide StrBody, StrElement, Requoted;
    if s == [] {
      RequotedStep(s);
    } else {
      ElementRequoted(s);
      RequotedBreaks(s[StrElement(s + "'", '\'')..]);
    }
  }

  lemma {:induction false} LineSkipped(s: string)
    requires NoBreaks(s)
    ensures SkipLine(s) == []
  {
    if s != [] { LineSkipped(s[1..]); }
  }

  lemma {:induction false} BlanksSkipped(s: string)
    requires NoBreaks(s) && s != [] && s[|s| - 1] == '"'
    ensures
      var r := SkipBlanks(s);
      NoBreaks(r) && r != [] && r[0] != ' ' && r[0] != '\t' && SkipBlanks(r) == r
  {
    if s[0] == ' ' || s[0] == '\t' { BlanksSkipped(s[1..]); }
  }

  /** What follows a text is over exactly when it is a comment, for it ends with a quote. */
  lemma OverIsComment(s: string)
    requires NoBreaks(s) && s != [] && s[|s| - 1] == '"'
    ensures Postval(s) == [] <==> CommentFollows(s)
  {
    hide SkipBlanks;
    BlanksSkipped(s);
    var r := SkipBlanks(s);
    if CommentFollows(s) {
      LineSkipped(r);
      assert SkipBlanks([]) == [] by { NoBlanks(); }
    } else {
      assert SkipEnds(SkipComment(r)) == r;
    }
  }

  lemma NoBlanks()
    ensures SkipBlanks([]) == []
  {
  }

  /** The clone of a text in single quotes: without a double quote in its print it is a plain text, unless it ends in a
      backslash; a double quote cuts it there if a comment follows, and leaves no clone otherwise. */
  lemma CloneOfSingle(t: Text)
    requires t.kind == Single && Parsable(t)
    ensures
      var x := Requoted(t.body);
      var k := QuoteAt(x);
      Cloned(t)
      == if k < |x| then if CommentFollows(x[k + 1..] + "\"") then Some(Text(Plain, x[..k])) else None
         else if EndsInBackslash(t.body) then None
         else Some(Text(Plain, x))
  {
    hide StrBody, Requoted, Postval, CommentFollows, Quoted, Printed;
    var x := Requoted(t.body);
    var k, d := QuoteAt(x), x + "\"";
    Reread(t.body);
    RequotedBreaks(t.body);
    assert Printed(t) == "\"" + d by { PrintedSingle(t); }
    PrintRead(d);
    if k < |x| {
      assert d[k + 1..] == x[k + 1..] + "\"" && d[..k] == x[..k];
      OverIsComment(d[k + 1..]);
    } else if !EndsInBackslash(t.body) {
      assert d[|x| + 1..] == [] && d[..|x|] == x;
      NothingOver();
    }
  }

  lemma PrintedSingle(t: Text)
    requires t.kind == Single
    ensures Printed(t) == "\"" + (Requoted(t.body) + "\"")
  {
    hide Requoted;
  }

  /** What is between the quote and the first character that is no element of a string. */
  lemma PrintRead(d: string)
    ensures
      var n := StrBody(d, '"');
      Quoted("\"" + d, '"') == if n < |d| && d[n] == '"' then Got(d[..n], d[n + 1..]) else Fail
  {
    hide StrBody;
    var t, n := "\"" + d, StrBody(d, '"');
    assert t[1..] == d;
    if n < |d| { assert d[n..][0] == d[n] && d[n..][1..] == d[n + 1..]; }
  }

  lemma NothingOver()
    ensures Postval([]) == []
  {
  }

  // --- symbols -----------------------------------------------------------------------------------------------

  /** The characters that stand for themselves between double quotes. */
  predicate Bare(c: char) { c != '"' && c != '\\' && c !in CONTROLS }

  function BareLength(s: string): (n: nat)
    ensures n <= |s| && (forall i :: 0 <= i < n ==> Bare(s[i])) && (n < |s| ==> !Bare(s[n]))
  {
    if s != [] && Bare(s[0]) then 1 + BareLength(s[1..]) else 0
  }

  lemma {:induction false} BarePast(s: string, n: nat)
    requires n <= |s| && forall i :: 0 <= i < n ==> Bare(s[i])
    ensures BareLength(s) == n + BareLength(s[n..])
  {
    if n > 0 {
      BarePast(s[1..], n - 1);
      assert s[1..][n - 1..] == s[n..];
    }
  }

  lemma {:induction false} BareBody(s: string)
    ensures StrBody(s + "\"", '"') >= BareLength(s)
    ensures BareLength(s) == |s| ==> StrBody(s + "\"", '"') == |s|
  {
    hide StrBody, StrElement;
    var d := s + "\"";
    BodySplits(d, '"');
    if s == [] {
      EndElement(d);
    } else if Bare(s[0]) {
      BareElement(d);
      assert d[1..] == s[1..] + "\"";
      BareBody(s[1..]);
    }
  }

  lemma BareElement(d: string)
    requires d != [] && Bare(d[0])
    ensures StrElement(d, '"') == 1
  {
  }

  lemma {:induction false} CoreIsBare(t: string)
    ensures forall i :: 0 <= i < Core(t) ==> IsCore(t[i]) && Bare(t[i])
  {
    if Core(t) > 0 { CoreIsBare(t[1..]); }
  }

  /** Before anything else than bare characters a symbol has a `$`. */
  lemma {:induction false} DollarFirst(s: string)
    requires SymbolLength(s, true) == |s| && BareLength(s) < |s|
    ensures '$' in s[..BareLength(s)]
    decreases |s|
  {
    hide SymElement, BareLength;
    if "$(" <= s {
      BareStart(s);
      assert s[..BareLength(s)][0] == '$';
    } else {
      var n := SymElement(s, true);
      PlainElement(s);
      BarePast(s, n);
      DollarFirst(s[n..]);
      var j := BareLength(s[n..]);
      assert s[n..][..j] == s[..n + j][n..];
    }
  }

  lemma PlainElement(s: string)
    requires SymElement(s, true) > 0 && !("$(" <= s)
    ensures forall i :: 0 <= i < SymElement(s, true) ==> Bare(s[i])
  {
    hide Core;
    CoreIsBare(s);
  }

  lemma BareStart(s: string)
    requires "$(" <= s
    ensures s[0] == '$' && BareLength(s) > 0
  {
  }

  lemma {:induction false} BareUnescapes(s: string, n: nat)
    requires n <= |s| && forall i :: 0 <= i < n ==> s[i] != '\\'
    ensures |Unescape(s)| >= n && Unescape(s)[..n] == s[..n]
  {
    hide HexValue;
    if n > 0 {
      BareUnescapes(s[1..], n - 1);
      assert Unescape(s) == [s[0]] + Unescape(s[1..]);
      assert s[..n] == [s[0]] + s[1..][..n - 1];
    }
  }

  /** A symbol is cloned to itself, or holds a `$`, and then so does its clone. */
  lemma CloneOfSymbol(t: Text)
    requires t.kind == Symbol && Parsable(t)
    ensures '$' !in t.body ==> Cloned(t) == Some(Text(Plain, t.body)) && Unescape(t.body) == t.body
    ensures '$' in t.body && Cloned(t).Some? ==> '$' in Content(Cloned(t).value)
  {
    hide StrBody, Unescape, Postval, SymbolLength;
    var s, d := t.body, t.body + "\"";
    var j := BareLength(s);
    BareBody(s);
    assert Printed(t)[0] == '"' && Printed(t)[1..] == d;
    if j == |s| {
      WholeBody(s);
      NothingOver();
      PlainContent(s);
    } else {
      DollarFirst(s);
      var b := d[..StrBody(d, '"')];
      BareUnescapes(b, j);
      assert b[..j] == s[..j];
      assert '$' in Unescape(b)[..j];
    }
  }

  lemma {:induction false} DoubleQuoteStays(s: string)
    requires '"' in s
    ensures '"' in Unescape(s)
    decreases |s|
  {
    hide HexValue;
    var u := Unescape(s);
    if s[0] == '"' || s[0] != '\\' || |s| == 1 {
      assert u == [s[0]] + Unescape(s[1..]);
      assert s == [s[0]] + s[1..];
      if s[0] != '"' { DoubleQuoteStays(s[1..]); }
    } else if s[1] == 'u' && |s| >= 6 && (forall i :: 2 <= i < 6 ==> IsHexDigit(s[i])) {
      assert u == Bytes(HexValue(s[2..6])) + Unescape(s[6..]);
      assert s == s[..6] + s[6..];
      assert forall i :: 2 <= i < 6 ==> s[..6][i] == s[i] && s[i] != '"';
      DoubleQuoteStays(s[6..]);
    } else {
      assert u == Unescaped(s[1]) + Unescape(s[2..]);
      assert s == [s[0], s[1]] + s[2..];
      if s[1] == '"' { assert Unescaped('"')[0] == '"'; } else { DoubleQuoteStays(s[2..]); }
    }
  }

  lemma {:induction false} UnquoteKeeps(s: string)
    requires '"' in s
    ensures '"' in Unquote(s)
    decreases |s|
  {
    if s[0] == '\\' && |s| > 1 && s[1] == '\'' {
      assert s == [s[0], s[1]] + s[2..];
      UnquoteKeeps(s[2..]);
    } else {
      assert s == [s[0]] + s[1..] && Unquote(s) == [s[0]] + Unquote(s[1..]);
      if s[0] != '"' { UnquoteKeeps(s[1..]); }
    }
  }

  lemma {:induction false} RequotedKeeps(s: string)
    ensures '"' in Requoted(s) <==> '"' in s
    decreases |s|
  {
    hide Requoted;
    RequotedStep(s);
    if s != [] {
      if s[0] == '\\' && |s| == 1 {
      } else if s[0] == '\\' && s[1] == '\'' {
        assert s == [s[0], s[1]] + s[2..];
        RequotedKeeps(s[2..]);
      } else {
        assert s == [s[0]] + s[1..];
        RequotedKeeps(s[1..]);
      }
    }
  }

  // --- operators -------------------------------------------------------------------------------------------

  /** A text in single quotes that is printed as the operator, a double quote, and a comment. */
  predicate CutTo(t: Text, op: string) {
    && t.kind == Single
    && var x := Requoted(t.body);
       var k := QuoteAt(x);
       k < |x| && Unescape(x[..k]) == op && CommentFollows(x[k + 1..] + "\"")
  }

  /** Before cloning an operator in single quotes is none; after it, a text is an operator exactly when its content is
      that operator, whatever its quotes, but for the texts that are cut. */
  lemma CloneIsOp(t: Text, op: string)
    requires Parsable(t) && Clean(op)
    ensures (Cloned(t).Some? && IsOp(Cloned(t).value, op) <==> Content(t) == op) <==> !CutTo(t, op)
  {
    hide CommentFollows, Unescape, StrBody, Requoted, Postval, SymbolLength;
    match t.kind
    case Plain =>
      WholeBody(t.body);
      NothingOver();
    case Symbol =>
      CloneOfSymbol(t);
    case Single =>
      RequotedKeeps(t.body);
      CloneOfSingle(t);
      if '"' in t.body {
        DoubleQuoteStays(t.body);
        UnquoteKeeps(Unescape(t.body));
      } else {
        if Content(t) == op { SingleClone(t, op); }
        if Cloned(t).Some? && IsOp(Cloned(t).value, op) { SingleBack(t, op); }
      }
  }

  /** `'+'` is a text; its clone is the operator. */
  lemma QuotesAreLost(op: string)
    requires Parsable(Text(Single, op)) && Clean(op)
    ensures !IsOp(Text(Single, op), op) && Cloned(Text(Single, op)) == Some(Text(Plain, op))
  {
    var t := Text(Single, op);
    PlainContent(op);
    UnquoteClean(op);
    SingleClone(t, op);
  }

  lemma {:induction false} PlainContent(s: string)
    requires '\\' !in s
    ensures Unescape(s) == s
  {
    if s != [] { PlainContent(s[1..]); }
  }

  lemma WholeBody(body: string)
    requires StrBody(body + "\"", '"') == |body|
    ensures Quoted("\"" + body + "\"", '"') == Got(body, [])
  {
    hide StrBody, Quoted;
    var t, u := "\"" + body + "\"", body + "\"";
    assert t[0] == '"' && t[1..] == u;
    assert u[..|body|] == body && u[|body|..] == "\"";
    BodyRead(t, u, |body|);
  }

  lemma BodyRead(t: string, u: string, n: nat)
    requires t != [] && t[0] == '"' && t[1..] == u && StrBody(u, '"') == n <= |u| && u[n..] == "\""
    ensures Quoted(t, '"') == Got(u[..n], [])
  {
    hide StrBody;
    assert u[n..][1..] == [];
  }

  lemma SingleClone(t: Text, op: string)
    requires t.kind == Single && Parsable(t) && '"' !in t.body && Clean(op) && Content(t) == op
    ensures Cloned(t) == Some(Text(Plain, t.body)) && Unescape(t.body) == op
  {
    hide Unescape, StrBody, Requoted, Quoted;
    UnquoteIdle(Unescape(t.body));
    assert t.body + "\"" + [] == t.body + "\"";
    CleanBody(t.body, []);
    RequotedSame(t.body);
    WholeBody(t.body);
  }

  lemma SingleBack(t: Text, op: string)
    requires t.kind == Single && '"' !in t.body && Clean(op) && Cloned(t).Some? && Content(Cloned(t).value) == op
    ensures Content(t) == op
  {
    hide Unescape, StrBody, Requoted;
    var x := Requoted(t.body);
    RequotedKeeps(t.body);
    assert Printed(t)[1..] == x + "\"";
    var n := StrBody(x + "\"", '"');
    assert (x + "\"")[n..][0] == (x + "\"")[n] == '"';
    assert n == |x| && (x + "\"")[..n] == x;
    QuotesStay(x);
    RequotedIdle(t.body);
    UnquoteClean(op);
  }

  // --- inputs of both kinds --------------------------------------------------------------------------------

  lemma {:induction false} BareSingle(s: string)
    requires forall i :: 0 <= i < |s| ==> Bare(s[i]) || s[i] == '"'
    requires forall i :: 0 <= i < |s| ==> s[i] != '\''
    ensures StrBody(s + "'", '\'') == |s| && Requoted(s) == s
  {
    var t := s + "'";
    if s == [] {
      assert t == "'";
    } else {
      assert t[0] == s[0] && t[1..] == s[1..] + "'";
      BareSingle(s[1..]);
    }
  }

  /** `'+" #'` is cut to the operator, which it is not. */
  lemma QuoteCutsShort()
    ensures
      var t := Text(Single, "+\" #");
      Parsable(t) && Cloned(t) == Some(Text(Plain, "+")) && CutTo(t, "+") && Content(t) != "+"
  {
    hide StrBody, Requoted, Postval;
    var s := "+\" #";
    var t := Text(Single, s);
    BareSingle(s);
    CloneOfSingle(t);
    QuotePast(s, 1);
    assert QuoteAt(s) == 1 && s[..1] == "+" && s[2..] + "\"" == " #\"";
    HashFollows();
    PlainContent("+");
    PlainContent(s);
    UnquoteClean(s);
  }

  lemma HashFollows()
    ensures CommentFollows(" #\"")
  {
    assert " #\""[1..] == "#\"";
    assert SkipBlanks(" #\"") == SkipBlanks("#\"") == "#\"";
  }

  /** `'a"b'` has no clone. */
  lemma QuoteHasNoClone()
    ensures
      var t := Text(Single, "a\"b");
      Parsable(t) && Cloned(t) == None
  {
    hide StrBody, Requoted, Postval;
    var s := "a\"b";
    BareSingle(s);
    CloneOfSingle(Text(Single, s));
    QuotePast(s, 1);
    assert QuoteAt(s) == 1 && s[2..] + "\"" == "b\"" && !CommentFollows("b\"");
  }

  /** `'\\'`, a backslash, has no clone. */
  lemma BackslashHasNoClone()
    ensures
      var t := Text(Single, "\\\\");
      Parsable(t) && Content(t) == "\\" && Cloned(t) == None
  {
    hide StrBody, Requoted, Postval;
    var b := "\\\\";
    SlashesRead();
    CloneOfSingle(Text(Single, b));
    RequotedPair(b);
    RequotedStep([]);
    assert b[2..] == [] && Requoted(b) == "\\'" && QuoteAt("\\'") == 2;
  }

  lemma SlashesRead()
    ensures StrBody("\\\\" + "'", '\'') == 2 && SqUnescape("\\\\") == "\\"
  {
    var t := "\\\\" + "'";
    assert t[2..] == "'" && StrElement(t, '\'') == 2 && StrBody("'", '\'') == 0;
    assert Unescape("\\\\") == "\\" && Unquote("\\") == "\\";
  }

  /** `'+" #\\'` ends in a backslash too, and is cut to the operator. */
  lemma BackslashCut()
    ensures
      var t := Text(Single, "+\" #\\\\");
      Parsable(t) && EndsInBackslash(t.body) && Cloned(t) == Some(Text(Plain, "+"))
  {
    hide StrBody, Requoted, Postval, StrElement;
    var s, b := "+\" #", "\\\\";
    var t := Text(Single, s + b);
    assert s + b == "+\" #\\\\";
    SlashesRead();
    BareThen(s, b + "'");
    assert s + b + "'" == s + (b + "'");
    RequotedPast(s + b, 4);
    assert (s + b)[..4] == s && (s + b)[4..] == b;
    RequotedPair(b);
    RequotedStep([]);
    assert b[2..] == [] && Requoted(b) == "\\'";
    CloneOfSingle(t);
    var x := s + "\\'";
    assert Requoted(t.body) == x;
    QuotePast(x, 1);
    assert QuoteAt(x) == 1 && x[..1] == "+" && x[2..] + "\"" == " #\\'\"";
    assert " #\\'\""[1..] == "#\\'\"";
    assert SkipBlanks(" #\\'\"") == SkipBlanks("#\\'\"") == "#\\'\"";
  }

  lemma {:induction false} BareThen(s: string, t: string)
    requires forall i :: 0 <= i < |s| ==> (Bare(s[i]) || s[i] == '"') && s[i] != '\''
    ensures StrBody(s + t, '\'') == |s| + StrBody(t, '\'')
  {
    hide StrBody, StrElement;
    var u := s + t;
    if s == [] {
      assert u == t;
    } else {
      assert u[0] == s[0] && u[1..] == s[1..] + t;
      SingleElement(u);
      BodySplits(u, '\'');
      BareThen(s[1..], t);
    }
  }

  lemma SingleElement(t: string)
    requires t != [] && (Bare(t[0]) || t[0] == '"') && t[0] != '\''
    ensures StrElement(t, '\'') == 1
  {
  }
}
