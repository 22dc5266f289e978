/** What the signs of arithmetic and of comparison say of their operands, told without the functions that compute it. */
module Operators {
  import opened Values
  import opened Trees
  import opened Instructions
  import opened Expressions
  import R = Rewriting
  import Chains
  import Djan

  // --- arithmetic ------------------------------------------------------------------------------------------

  /** What a division by `b` leaves is smaller than `b`, and is zero or has the sign of `a`. */
  predicate Quotient(a: int, b: int, q: int) {
    var r := a - q * b;
    (-b < r < b || b < r < -b) && (r == 0 || (r < 0 <==> a < 0))
  }

  predicate Yields(sign: string, a: int, b: int, c: int) {
    if sign == "+" then c == a + b
    else if sign == "-" then c == a - b
    else if sign == "*" then c == a * b
    else Quotient(a, b, c)
  }

  lemma DivIs(a: int, b: int)
    requires b != 0
    ensures Quotient(a, b, Div(a, b))
  {
    var k := Abs(a) / Abs(b);
    Remains(Abs(a), Abs(b));
    Signed(a, b, k);
  }

  lemma Remains(x: nat, y: nat)
    requires y > 0
    ensures 0 <= x - (x / y) * y < y
  {
  }

  lemma Signed(a: int, b: int, k: nat)
    requires b != 0 && 0 <= Abs(a) - k * Abs(b) < Abs(b)
    ensures Quotient(a, b, if (a >= 0) == (b > 0) then k else 0 - k)
  {
    Signs(k, b);
    assert k * Abs(b) == if b > 0 then k * b else k * -b;
  }

  lemma Signs(k: int, y: int)
    ensures (-k) * y == k * -y == -(k * y)
    ensures (-k) * -y == k * y
  {
  }

  /** There is no other one. */
  lemma OneQuotient(a: int, b: int, q: int, p: int)
    requires Quotient(a, b, q) && Quotient(a, b, p)
    ensures q == p
  {
    assert (a - q * b) - (a - p * b) == (p - q) * b;
    if q < p {
      Away(p - q, b);
    } else if p < q {
      assert (q - p) * b == -((p - q) * b);
      Away(q - p, b);
    }
  }

  lemma Away(d: int, b: int)
    requires d > 0
    ensures b >= 0 ==> d * b >= b
    ensures b <= 0 ==> d * b <= b
  {
  }

  /** The numbers that values are read as. */
  function Numbers(vs: seq<Value>): (ns: seq<int>)
    ensures |ns| == |vs| && forall i :: 0 <= i < |vs| ==> ns[i] == ToLL(Text(vs[i]))
  {
    if vs == [] then [] else [ToLL(Text(vs[0]))] + Numbers(vs[1..])
  }

  /** The first number, and then the result of each step. */
  predicate Steps(sign: string, ns: seq<int>, accs: seq<int>) {
    && |accs| == |ns| && (ns != [] ==> accs[0] == ns[0])
    && forall i :: 0 < i < |ns| ==> Yields(sign, accs[i - 1], ns[i], accs[i])
  }

  /** The low 32 bits of an integer, as a signed number. */
  predicate LowWord(i: int, w: int) { -0x8000_0000 <= w < 0x8000_0000 && (i - w) % 0x1_0000_0000 == 0 }

  lemma WrapIs(i: int)
    ensures LowWord(i, Wrap32(i))
  {
    assert i - Wrap32(i) == ((i + 0x8000_0000) / 0x1_0000_0000) * 0x1_0000_0000;
  }

  lemma ApplyYields(sign: string, a: int, b: int)
    requires sign in {"+", "-", "*", "/"}
    ensures
      var r := Apply(sign[0], a, b);
      if r.None? then sign == "/" && b == 0 else Yields(sign, a, b, r.value) && (sign == "/" ==> b != 0)
  {
    hide Div, Quotient;
    if sign == "/" && b != 0 { DivIs(a, b); }
  }

  predicate DividesByZero(sign: string, ns: seq<int>) { sign == "/" && exists i :: 1 <= i < |ns| && ns[i] == 0 }

  /** A fold goes step by step, unless it comes across a division by zero. */
  lemma {:induction false} FoldSteps(sign: string, acc: int, vs: seq<Value>) returns (accs: seq<int>)
    requires sign in {"+", "-", "*", "/"}
    ensures
      var r := FoldFrom(sign[0], acc, vs);
      var ns := [acc] + Numbers(vs);
      if r.None? then DividesByZero(sign, ns)
      else !DividesByZero(sign, ns) && Steps(sign, ns, accs) && accs[|vs|] == r.value
    decreases |vs|
  {
    hide Text, ToLL, Apply, Yields;
    var ns := [acc] + Numbers(vs);
    accs := [acc];
    if vs != [] {
      ApplyYields(sign, acc, Number(vs[0]));
      var r := Apply(sign[0], acc, Number(vs[0]));
      assert ns[1] == Number(vs[0]);
      if r.Some? {
        var rest := FoldSteps(sign, r.value, vs[1..]);
        var ms := [r.value] + Numbers(vs[1..]);
        assert forall i :: 2 <= i < |ns| ==> ns[i] == ms[i - 1];
        accs := [acc] + rest;
        if DividesByZero(sign, ms) {
          var i :| 1 <= i < |ms| && ms[i] == 0;
          assert ns[i + 1] == 0;
        }
      }
    }
  }

  predicate Pointed(vs: seq<Value>) { exists i :: 0 <= i < |vs| && '.' in Text(vs[i]) }

  /** `w` is what the values amount to under the sign: no value amounts to 0. */
  ghost predicate Amounts(sign: string, vs: seq<Value>, w: int) {
    if vs == [] then w == 0
    else exists accs :: Steps(sign, Numbers(vs), accs) && LowWord(accs[|vs| - 1], w)
  }

  lemma FoldAmounts(sign: string, vs: seq<Value>)
    requires sign in {"+", "-", "*", "/"}
    ensures
      var r := Fold(sign[0], vs);
      if r.None? then DividesByZero(sign, Numbers(vs))
      else !DividesByZero(sign, Numbers(vs)) && Amounts(sign, vs, Wrap32(r.value))
  {
    hide Text, ToLL, FoldFrom, Steps, LowWord, Wrap32;
    if vs == [] {
      assert Wrap32(0) == 0;
    } else {
      var accs := FoldSteps(sign, Number(vs[0]), vs[1..]);
      assert Numbers(vs) == [Number(vs[0])] + Numbers(vs[1..]);
      var r := Fold(sign[0], vs);
      if r.Some? { WrapIs(r.value); }
    }
  }

  lemma PointedIs(vs: seq<Value>)
    ensures Doubles(vs) <==> Pointed(vs)
  {
    hide Text;
  }

  // --- comparison ------------------------------------------------------------------------------------------

  predicate Compares(rel: string, a: int, b: int) {
    if rel == "==" then a == b
    else if rel == "!=" then a != b
    else if rel == ">" then a > b
    else if rel == ">=" then a >= b
    else if rel == "<" then a < b
    else a <= b
  }

  /** The same of texts, in the order of a dictionary. */
  predicate Precedes(rel: string, a: string, b: string) {
    if rel == "==" then a == b
    else if rel == "!=" then a != b
    else if rel == ">" then !AtMost(a, b)
    else if rel == ">=" then AtMost(b, a)
    else if rel == "<" then !AtMost(b, a)
    else AtMost(a, b)
  }

  predicate IsRelation(rel: string) { rel in {"==", "!=", ">", ">=", "<", "<="} }

  /** Numbers stand in a relation as integers, but not when the left one has a point; a number stands in none with
      what is no number on its right; anything else is compared as JSON. */
  predicate Stands(rel: string, l: Value, r: Value) {
    if l.Num? && r.Num? then '.' !in l.text && Compares(rel, ToLL(l.text), ToLL(r.text))
    else !l.Num? && Precedes(rel, Json(l), Json(r))
  }

  lemma CompareIs(rel: string, l: Value, r: Value)
    requires IsRelation(rel)
    ensures Compare(rel, l, r) == Stands(rel, l, r)
  {
    hide Json, ToLL, StrCmp, AtMost;
    CmpIs(Json(l), Json(r));
    CmpIs(Json(r), Json(l));
  }

  /** A chain holds if each value stands in the relation with the next one. */
  lemma {:induction false} ChainIs(rel: string, vs: seq<Value>)
    requires IsRelation(rel)
    ensures Chain(rel, vs) <==> forall i :: 0 <= i < |vs| - 1 ==> Stands(rel, vs[i], vs[i + 1])
  {
    hide Compare, Stands;
    if |vs| >= 2 {
      CompareIs(rel, vs[0], vs[1]);
      ChainIs(rel, vs[1..]);
      assert forall i :: 1 <= i < |vs| - 1 ==> vs[i] == vs[1..][i - 1] && vs[i + 1] == vs[1..][i];
      if Chain(rel, vs) {
        forall i | 0 <= i < |vs| - 1 ensures Stands(rel, vs[i], vs[i + 1]) {
          if i > 0 { assert Stands(rel, vs[1..][i - 1], vs[1..][i]); }
        }
      } else if forall i :: 0 <= i < |vs| - 1 ==> Stands(rel, vs[i], vs[i + 1]) {
        forall i | 0 <= i < |vs[1..]| - 1 ensures Stands(rel, vs[1..][i], vs[1..][i + 1]) {
          assert Stands(rel, vs[i + 1], vs[i + 2]);
        }
      }
    }
  }

  lemma ComparedIntegers(rel: string, a: int, b: int)
    requires IsRelation(rel)
    ensures Stands(rel, IntValue(a), IntValue(b)) == Compares(rel, a, b)
  {
    hide ToLL, IntText;
    ReadIntText(a);
    ReadIntText(b);
    Chains.IntNumber(a);
  }

  // --- strings ---------------------------------------------------------------------------------------------

  /** No character is escaped when it is printed. */
  predicate Clear(s: string) { forall c :: c in s ==> EscapeChar(c) == [c] }

  lemma {:induction false} ClearText(s: string)
    requires Clear(s)
    ensures Escape(s) == s
  {
    if s != [] {
      assert s[0] in s;
      ClearText(s[1..]);
    }
  }

  /** Compared as JSON, strings carry their closing quote. */
  lemma {:induction false} QuotedCmp(s: string, t: string)
    requires Clear(s) && Clear(t)
    ensures
      StrCmp(s + "\"", t + "\"")
      == if s < t then '"' as int - t[|s|] as int
         else if t < s then s[|t|] as int - '"' as int
         else StrCmp(s, t)
  {
    var a, b := s + "\"", t + "\"";
    if s == [] || t == [] {
      assert s == [] ==> a == "\"";
      assert t == [] ==> b == "\"";
      assert s != [] ==> s[0] in s;
      assert t != [] ==> t[0] in t;
    } else if s[0] == t[0] {
      assert a[1..] == s[1..] + "\"" && b[1..] == t[1..] + "\"";
      QuotedCmp(s[1..], t[1..]);
      assert s < t <==> s[1..] < t[1..];
      assert t < s <==> t[1..] < s[1..];
    }
  }

  /** Strings are in the order of the dictionary, except when one of them continues the other with a character below
      the double quote, such as a space: the longer one comes first then. */
  lemma StringOrder(s: string, t: string)
    requires Clear(s) && Clear(t)
    ensures
      (AtMost(Json(Str(s)), Json(Str(t))) <==> AtMost(s, t))
      <==> !((s < t && t[|s|] < '"') || (t < s && s[|t|] < '"'))
  {
    hide StrCmp, AtMost;
    ClearText(s);
    ClearText(t);
    QuotedCmp(s, t);
    var a, b := s + "\"", t + "\"";
    assert Json(Str(s)) == "\"" + a && Json(Str(t)) == "\"" + b;
    SameFirst('"', a, b);
    CmpIs("\"" + a, "\"" + b);
    CmpIs(s, t);
    if s < t {
      assert t[|s|] in t;
      PrefixFirst(s, t);
    } else if t < s {
      assert s[|t|] in s;
      PrefixFirst(t, s);
    }
  }

  lemma SameFirst(c: char, a: string, b: string)
    ensures StrCmp([c] + a, [c] + b) == StrCmp(a, b)
  {
    assert ([c] + a)[1..] == a && ([c] + b)[1..] == b;
  }

  lemma PrefixFirst(s: string, t: string)
    requires s < t
    ensures AtMost(s, t) && !AtMost(t, s)
  {
    CmpIs(s, t);
    CmpIs(t, s);
    assert AtMost(s, t);
  }

  /** `"a" > "a b"`. */
  lemma SpaceFirst()
    ensures Stands(">", Str("a"), Str("a b"))
  {
    var s, t := "a", "a b";
    assert Clear(s) && Clear(t);
    assert s < t && t[|s|] == ' ';
    StringOrder(s, t);
    assert AtMost(s, t);
  }

  /** Equal strings are the same ones. */
  lemma SameString(s: string, t: string)
    requires Djan.NoNul(s) && Djan.NoNul(t)
    ensures Stands("==", Str(s), Str(t)) <==> s == t
  {
    hide Escape, Djan.Unescape;
    if Json(Str(s)) == Json(Str(t)) {
      assert Escape(s) == Json(Str(s))[1..|Json(Str(s))| - 1] == Escape(t);
      Djan.StringRoundTrip(s, "");
      Djan.StringRoundTrip(t, "");
    }
  }

  // --- lines of two operands -------------------------------------------------------------------------------

  function TwoOperands(x: Value, op: string, y: Value): seq<Token> { [Operand(x), Sign(op), Operand(y)] }

  lemma WorthOfTwo(x: Value, op: string, y: Value, k: nat)
    requires k < |R.OPS| && R.OPS[k] == op && op != "or" && op != "and"
    ensures Worth(R.OPS, TwoOperands(x, op, y)) == Combined(op, Some([x, y]))
  {
    hide Worth, Worths, Combined;
    var ts := TwoOperands(x, op, y);
    assert ts[1] == Sign(op);
    Distinct();
    WorthOfParts(ts, k);
    assert Split(op, [], ts) == [[Operand(x)], [Operand(y)]] by { SplitTwo(x, op, y); }
    WorthsOfTwo(x, y);
  }

  lemma SplitTwo(x: Value, op: string, y: Value)
    ensures Split(op, [], TwoOperands(x, op, y)) == [[Operand(x)], [Operand(y)]]
  {
    var ts := TwoOperands(x, op, y);
    assert ts[1..] == [Sign(op), Operand(y)] && ts[1..][1..] == [Operand(y)] && [Operand(y)][1..] == [];
    assert [] + [Operand(x)] == [Operand(x)] && [] + [Operand(y)] == [Operand(y)];
    SplitNone(op, [], [Operand(y)]);
  }

  lemma WorthsOfTwo(x: Value, y: Value)
    ensures Worths(R.OPS, [[Operand(x)], [Operand(y)]]) == Some([x, y])
  {
    hide Worth;
    OperandWorth(x);
    OperandWorth(y);
    var parts := [[Operand(x)], [Operand(y)]];
    FirstWorth(parts, x);
    FirstWorth(parts[1..], y);
    assert parts[1..][1..] == [] && [y] + [] == [y] && [x] + [y] == [x, y];
  }

  lemma FirstWorth(parts: seq<seq<Token>>, v: Value)
    requires parts != [] && Worth(R.OPS, parts[0]) == Some(v)
    ensures
      var vs := Worths(R.OPS, parts[1..]);
      Worths(R.OPS, parts) == if vs.None? then None else Some([v] + vs.value)
    ensures Worths(R.OPS, []) == Some([])
  {
    hide Worth;
  }

  lemma OperandWorth(x: Value)
    ensures Worth(R.OPS, [Operand(x)]) == Some(x)
  {
    hide Worth;
    var ts := [Operand(x)];
    SkipLevels(R.OPS, |R.OPS|, ts);
    assert R.OPS[|R.OPS|..] == [];
    NoLevels(ts);
  }

  lemma PlaceOf(op: string) returns (k: nat)
    requires op in R.OPS
    ensures k < |R.OPS| && R.OPS[k] == op
  {
    k :| 0 <= k < |R.OPS| && R.OPS[k] == op;
  }

  /** `x == y` and its like. */
  lemma LineCompares(x: Value, rel: string, y: Value)
    requires IsRelation(rel)
    ensures Worth(R.OPS, TwoOperands(x, rel, y)) == Some(Bool(Stands(rel, x, y)))
  {
    hide Worth, Stands, Compare;
    var k := PlaceOf(rel);
    WorthOfTwo(x, rel, y, k);
    CompareIs(rel, x, y);
    assert [x, y][1..] == [y];
    assert Chain(rel, [x, y]) == Compare(rel, x, y);
    assert OpNamed(rel) == Cmp(rel);
  }

  lemma IntegersCompare(a: int, b: int)
    ensures Worth(R.OPS, TwoOperands(IntValue(a), "==", IntValue(b))) == Some(Bool(a == b))
    ensures Worth(R.OPS, TwoOperands(IntValue(a), "!=", IntValue(b))) == Some(Bool(a != b))
    ensures Worth(R.OPS, TwoOperands(IntValue(a), ">", IntValue(b))) == Some(Bool(a > b))
    ensures Worth(R.OPS, TwoOperands(IntValue(a), ">=", IntValue(b))) == Some(Bool(a >= b))
    ensures Worth(R.OPS, TwoOperands(IntValue(a), "<", IntValue(b))) == Some(Bool(a < b))
    ensures Worth(R.OPS, TwoOperands(IntValue(a), "<=", IntValue(b))) == Some(Bool(a <= b))
  {
    hide Worth, Stands, IntValue, TwoOperands;
    IntegerCompares(a, "==", b);
    IntegerCompares(a, "!=", b);
    IntegerCompares(a, ">", b);
    IntegerCompares(a, ">=", b);
    IntegerCompares(a, "<", b);
    IntegerCompares(a, "<=", b);
  }

  lemma IntegerCompares(a: int, rel: string, b: int)
    requires IsRelation(rel)
    ensures Worth(R.OPS, TwoOperands(IntValue(a), rel, IntValue(b))) == Some(Bool(Compares(rel, a, b)))
  {
    hide Worth, Stands, IntValue, TwoOperands;
    LineCompares(IntValue(a), rel, IntValue(b));
    ComparedIntegers(rel, a, b);
  }

  /** `a + b` and its like, in 32 bits; a division by zero is worth nothing. */
  lemma IntegersCompute(a: int, sign: string, b: int)
    requires sign in {"+", "-", "*", "/"}
    ensures
      var r := Worth(R.OPS, TwoOperands(IntValue(a), sign, IntValue(b)));
      if sign == "/" && b == 0 then r == None
      else exists c, w :: Yields(sign, a, b, c) && LowWord(c, w) && r == Some(IntValue(w))
  {
    hide Worth, IntValue, Number, Doubles, Yields, LowWord, Wrap32, Apply;
    var k := PlaceOf(sign);
    var x, y := IntValue(a), IntValue(b);
    WorthOfTwo(x, sign, y, k);
    Chains.IntNumber(a);
    Chains.IntNumber(b);
    WholePair(a, b);
    FoldOfTwo(sign[0], x, y);
    var c := Apply(sign[0], a, b);
    ApplyYields(sign, a, b);
    assert OpNamed(sign) == Arith(sign[0]);
    if c.Some? { WrapIs(c.value); }
  }

  lemma FoldOfTwo(sign: char, x: Value, y: Value)
    ensures Fold(sign, [x, y]) == Apply(sign, Number(x), Number(y))
  {
    hide Number, Apply;
    assert [x, y][1..] == [y] && [y][1..] == [];
    var r := Apply(sign, Number(x), Number(y));
    assert FoldFrom(sign, Number(x), [y]) == if r.None? then None else FoldFrom(sign, r.value, []);
  }

  lemma WholePair(a: int, b: int)
    ensures !Doubles([IntValue(a), IntValue(b)])
  {
    hide IntValue, Text, Doubles;
    assert Chains.Ints([a, b]) == [IntValue(a), IntValue(b)];
    Chains.IntsAreWhole([a, b]);
  }

  // --- precedence ------------------------------------------------------------------------------------------

  /** The operators, from the loosest to the tightest. */
  const FROM_LOOSEST := ["or", "and", "==", "!=", "=~", "!~", ">", ">=", "<", "<=", "+", "-", "*", "/", "%"]

  /** Of two operators a line is split at the looser one, on either side of the other. */
  lemma LooserSplits(x: Value, y: Value, z: Value, i: nat, j: nat, line: nat)
    requires Plain(x) && Plain(y) && Plain(z) && i < j < |FROM_LOOSEST|
    requires IsModelled(FROM_LOOSEST[i]) && IsModelled(FROM_LOOSEST[j])
    ensures
      var loose, tight := FROM_LOOSEST[i], FROM_LOOSEST[j];
      && R.RewriteTree(LineTree([Operand(x), Sign(loose), Operand(y), Sign(tight), Operand(z)], line))
         == R.Rewritten(Tree(Word(loose), [], line,
              [R.VToTree(Lit(x), line), LineTree([Operand(y), Sign(tight), Operand(z)], line)]), true)
      && R.RewriteTree(LineTree([Operand(x), Sign(tight), Operand(y), Sign(loose), Operand(z)], line))
         == R.Rewritten(Tree(Word(loose), [], line,
              [LineTree([Operand(x), Sign(tight), Operand(y)], line), R.VToTree(Lit(z), line)]), true)
  {
    hide R.RewriteTree, LineTree, R.VToTree, WellFormed, Plain, IsModelled, Split;
    var loose, tight := FROM_LOOSEST[i], FROM_LOOSEST[j];
    assert FROM_LOOSEST == R.OPS;
    Distinct();
    TwoSignsWell(x, loose, y, tight, z);
    TwoSignsWell(x, tight, y, loose, z);
    Loosest(x, loose, y, tight, z, i, j);
    Loosest(x, tight, y, loose, z, i, j);
    RewriteLine(TwoSigns(x, loose, y, tight, z), i, line);
    RewriteLine(TwoSigns(x, tight, y, loose, z), i, line);
    SplitFirst(x, loose, y, tight, z);
    SplitSecond(x, tight, y, loose, z);
  }

  function TwoSigns(x: Value, o: string, y: Value, n: string, z: Value): seq<Token> {
    [Operand(x), Sign(o), Operand(y), Sign(n), Operand(z)]
  }

  lemma TwoSignsWell(x: Value, o: string, y: Value, n: string, z: Value)
    requires Plain(x) && Plain(y) && Plain(z) && IsModelled(o) && IsModelled(n) && o in R.OPS && n in R.OPS
    ensures WellFormed(TwoSigns(x, o, y, n, z))
  {
    hide Plain, IsModelled;
    var ts := TwoSigns(x, o, y, n, z);
    assert ts[2..] == TwoOperands(y, n, z) && ts[2..][2..] == [Operand(z)];
    assert WellFormed([Operand(z)]);
    assert WellFormed(TwoOperands(y, n, z));
  }

  /** No operator before the looser one is on the line. */
  lemma Loosest(x: Value, o: string, y: Value, n: string, z: Value, i: nat, j: nat)
    requires i < j < |R.OPS| && ((o == R.OPS[i] && n == R.OPS[j]) || (o == R.OPS[j] && n == R.OPS[i]))
    ensures Sign(R.OPS[i]) in TwoSigns(x, o, y, n, z)
    ensures forall k :: 0 <= k < i ==> Sign(R.OPS[k]) !in TwoSigns(x, o, y, n, z)
  {
    Distinct();
    var ts := TwoSigns(x, o, y, n, z);
    assert ts[1] == Sign(o) && ts[3] == Sign(n);
  }

  lemma SplitFirst(x: Value, loose: string, y: Value, tight: string, z: Value)
    requires loose != tight
    ensures Split(loose, [], TwoSigns(x, loose, y, tight, z)) == [[Operand(x)], TwoOperands(y, tight, z)]
  {
    var ts, part := TwoSigns(x, loose, y, tight, z), TwoOperands(y, tight, z);
    assert ts[1..] == [Sign(loose)] + part && ts[1..][1..] == part;
    assert [] + [Operand(x)] == [Operand(x)] && [] + part == part;
    SplitNone(loose, [], part);
  }

  lemma SplitSecond(x: Value, tight: string, y: Value, loose: string, z: Value)
    requires loose != tight
    ensures Split(loose, [], TwoSigns(x, tight, y, loose, z)) == [TwoOperands(x, tight, y), [Operand(z)]]
  {
    var ts := TwoSigns(x, tight, y, loose, z);
    var a, b := ts[1..], ts[2..];
    assert a[1..] == b && b[1..] == [Sign(loose), Operand(z)] && b[1..][1..] == [Operand(z)];
    assert [] + [Operand(x)] == [Operand(x)] && [Operand(x)] + [Sign(tight)] == [Operand(x), Sign(tight)];
    assert [Operand(x), Sign(tight)] + [Operand(y)] == TwoOperands(x, tight, y);
    SplitNone(loose, [], [Operand(z)]);
    assert [] + [Operand(z)] == [Operand(z)];
    assert Split(loose, [Operand(x), Sign(tight)], b) == [TwoOperands(x, tight, y), [Operand(z)]];
  }
}
