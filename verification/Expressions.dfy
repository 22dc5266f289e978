/** Lines of operands and operators: rewritten node by node while they run, they yield the value that the
    precedence of the operators gives to the tokens. */
module Expressions {
  import opened Values
  import opened Trees
  import opened Instructions
  import opened Semantics
  import opened Evaluator
  import R = Rewriting
  import Machine

  /** An operand, a parenthesised expression or an operator. */
  datatype Token = Operand(v: Value) | Group(tokens: seq<Token>) | Sign(op: string)

  // --- lines of tokens as trees --------------------------------------------------------------------

  function AtomOf(k: Token, line: nat): Atom
    decreases k, 0
  {
    match k
    case Operand(v) => Lit(v)
    case Group(ts) => if ts == [] then Lit(Null) else Sub(LineTree(ts, line))
    case Sign(op) => Word(op)
  }

  function AttsOf(ts: seq<Token>, from: nat, line: nat): (atts: seq<Att>)
    ensures |atts| == |ts|
    decreases ts, 1
  {
    if ts == [] then [] else [Att(Index(from), AtomOf(ts[0], line))] + AttsOf(ts[1..], from + 1, line)
  }

  /** A line as it is parsed: the first token is the head, the others are attributes. */
  function LineTree(ts: seq<Token>, line: nat): Tree
    requires ts != []
    decreases ts, 2
  {
    Tree(AtomOf(ts[0], line), AttsOf(ts[1..], 0, line), line, [])
  }

  /** A part of a line between two operators. */
  function PartTree(ts: seq<Token>, line: nat): Tree
    requires ts != []
  {
    if |ts| == 1 then R.VToTree(AtomOf(ts[0], line), line) else LineTree(ts, line)
  }

  /** A value that is read as an operand wherever it stands. */
  predicate Plain(v: Value) {
    v.Str? ==> !R.IsInstruction(v.s) && v.s !in R.OPS && v.s != "then"
  }

  predicate IsModelled(op: string) { op == "or" || op == "and" || OpNamed(op).Arith? || OpNamed(op).Cmp? }

  predicate WellFormedToken(k: Token)
    decreases k, 0
  {
    match k
    case Operand(v) => Plain(v)
    case Group(ts) => |ts| >= 3 && WellFormed(ts)
    case Sign(op) => false
  }

  /** Operands and operators in turn. */
  predicate WellFormed(ts: seq<Token>)
    decreases ts, 1
  {
    ts != [] && WellFormedToken(ts[0]) &&
    (|ts| > 1 ==> ts[1].Sign? && ts[1].op in R.OPS && IsModelled(ts[1].op) && WellFormed(ts[2..]))
  }

  // --- the value of a line ---------------------------------------------------------------------------

  function TokenSize(k: Token): nat
    decreases k, 0
  {
    match k case Group(ts) => 1 + Size(ts) case _ => 1
  }

  function Size(ts: seq<Token>): nat
    decreases ts, 1
  {
    if ts == [] then 0 else TokenSize(ts[0]) + Size(ts[1..])
  }

  function PartsSize(parts: seq<seq<Token>>): nat {
    if parts == [] then 0 else Size(parts[0]) + PartsSize(parts[1..])
  }

  /** The parts of a line between the operators `op`; `cur` is the one being filled. */
  function Split(op: string, cur: seq<Token>, ts: seq<Token>): (parts: seq<seq<Token>>)
    ensures parts != []
    decreases |ts|
  {
    if ts == [] then [cur]
    else if ts[0] == Sign(op) then [cur] + Split(op, [], ts[1..])
    else Split(op, cur + [ts[0]], ts[1..])
  }

  lemma {:induction false} SizeAppend(a: seq<Token>, b: seq<Token>)
    ensures Size(a + b) == Size(a) + Size(b)
  {
    if a == [] {
      assert a + b == b;
    } else {
      assert (a + b)[1..] == a[1..] + b;
      SizeAppend(a[1..], b);
    }
  }

  lemma {:induction false} SplitSize(op: string, cur: seq<Token>, ts: seq<Token>)
    ensures PartsSize(Split(op, cur, ts)) + |Split(op, cur, ts)| - 1 == Size(cur) + Size(ts)
    decreases |ts|
  {
    if ts == [] {
      assert Split(op, cur, ts)[1..] == [];
    } else if ts[0] == Sign(op) {
      SplitSize(op, [], ts[1..]);
      assert Split(op, cur, ts)[1..] == Split(op, [], ts[1..]);
    } else {
      SplitSize(op, cur + [ts[0]], ts[1..]);
      SizeAppend(cur, [ts[0]]);
      assert [ts[0]][1..] == [];
    }
  }

  /** The value of a line, by precedence: `ops` are the operators it may hold outside of its parentheses, the
      loosest one first, each of them taking all its operands at once. None stands for a failure. */
  function Worth(ops: seq<string>, ts: seq<Token>): Option<Value>
    decreases Size(ts), 0, |ops|
  {
    if ops == [] then
      (if ts == [] then None else
       match ts[0]
       case Operand(v) => Some(v)
       case Group(inner) => assert TokenSize(ts[0]) == 1 + Size(inner); Worth(R.OPS, inner)
       case Sign(_) => None)
    else
      var parts := Split(ops[0], [], ts);
      SplitSize(ops[0], [], ts);
      if |parts| == 1 then Worth(ops[1..], ts)
      else if ops[0] == "or" then Asked(ops[1..], parts, true)
      else if ops[0] == "and" then Asked(ops[1..], parts, false)
      else Combined(ops[0], Worths(ops[1..], parts))
  }

  /** `or` and `and` stop at the first part with the truth `stop`. */
  function Asked(ops: seq<string>, parts: seq<seq<Token>>, stop: bool): Option<Value>
    decreases PartsSize(parts), 1, |parts|
  {
    if parts == [] then Some(Bool(!stop)) else
    var v := Worth(ops, parts[0]);
    if v.None? then None
    else if IsTrue(v.value) == stop then Some(Bool(stop))
    else Asked(ops, parts[1..], stop)
  }

  function Worths(ops: seq<string>, parts: seq<seq<Token>>): Option<seq<Value>>
    decreases PartsSize(parts), 1, |parts|
  {
    if parts == [] then Some([]) else
    var v := Worth(ops, parts[0]);
    var vs := Worths(ops, parts[1..]);
    if v.None? || vs.None? then None else Some([v.value] + vs.value)
  }

  /** An arithmetic operator folds its operands, a comparison holds along them. */
  function Combined(op: string, vs: Option<seq<Value>>): Option<Value> {
    if vs.None? then None else
    match OpNamed(op)
    case Arith(sign) =>
      if Doubles(vs.value) || Fold(sign, vs.value).None? then None
      else Some(IntValue(Wrap32(Fold(sign, vs.value).value)))
    case Cmp(rel) => Some(Bool(Chain(rel, vs.value)))
    case _ => None
  }

  predicate IsTrue(v: Value) { v != Null && v != Bool(false) }

  /** An outcome answers a value: the payload with it as its ret. */
  predicate Answers(o: Outcome, p: Payload, v: Option<Value>) {
    if v.None? then o.Never? else o.Done? && o.payload == WithRet(p, v.value)
  }

  // --- the rewriting of a line -------------------------------------------------------------------------

  lemma {:induction false} PinfixesIdle(ops: seq<string>, t: Tree)
    requires forall op :: op in ops ==> t.head != Word(op) && !R.Sees(op, t.atts)
    ensures R.Pinfixes(ops, t) == R.Rewritten(t, false)
  {
    if ops != [] {
      PinfixesIdle(ops[1..], t);
    }
  }

  /** The first operator that is seen takes the line apart. */
  lemma {:induction false} PinfixesAt(ops: seq<string>, k: nat, t: Tree)
    requires k < |ops| && R.Sees(ops[k], t.atts) && forall j :: 0 <= j < k ==> !R.Sees(ops[j], t.atts)
    requires forall op :: op in ops ==> t.head != Word(op)
    requires forall i, j :: 0 <= i < j < |ops| ==> ops[i] != ops[j]
    ensures R.Pinfixes(ops, t) == R.Infix(ops[k], t)
  {
    if k == 0 {
      var r := R.Infix(ops[0], t);
      if r.Rewritten? {
        assert forall op :: op in ops[1..] ==> op != ops[0];
        PinfixesIdle(ops[1..], r.tree);
      }
    } else {
      assert R.Pinfix(ops[0], t) == R.Rewritten(t, false);
      PinfixesAt(ops[1..], k - 1, t);
      var r := R.Infix(ops[k], t);
      assert r.Rewritten? ==> r.changed;
    }
  }

  lemma {:induction false} AttsAre(ts: seq<Token>, from: nat, line: nat)
    ensures forall i :: 0 <= i < |ts| ==> AttsOf(ts, from, line)[i] == Att(Index(from + i), AtomOf(ts[i], line))
  {
    if ts != [] {
      AttsAre(ts[1..], from + 1, line);
    }
  }

  /** What is an operator on neither side, or on both. */
  predicate Legible(k: Token) {
    match k case Operand(v) => Plain(v) case Group(ts) => ts != [] case Sign(op) => op in R.OPS
  }

  lemma {:induction false} WellFormedLegible(ts: seq<Token>)
    requires WellFormed(ts)
    ensures forall i :: 0 <= i < |ts| ==> Legible(ts[i])
    ensures !ts[0].Sign?
    decreases |ts|
  {
    if |ts| > 1 {
      WellFormedLegible(ts[2..]);
      forall i | 0 <= i < |ts| ensures Legible(ts[i]) {
        if i >= 2 { assert ts[i] == ts[2..][i - 2]; }
      }
    }
  }

  lemma IsSign(k: Token, op: string, line: nat)
    requires Legible(k) && op in R.OPS
    ensures AtomOf(k, line) == Word(op) <==> k == Sign(op)
    ensures AtomOf(k, line) != Word("if") && AtomOf(k, line) != Word("unless") && AtomOf(k, line) != Word("then")
  {
  }

  /** A list of attributes that spells a part of the line. */
  predicate Spells(l: seq<Att>, ts: seq<Token>, line: nat) {
    |l| == |ts| && forall i :: 0 <= i < |l| ==> l[i].key.Index? && l[i].atom == AtomOf(ts[i], line)
  }

  lemma SpeltTree(l: seq<Att>, ts: seq<Token>, line: nat)
    requires l != [] && Spells(l, ts, line)
    ensures R.LToTree(l, line) == PartTree(ts, line)
  {
    if |l| > 1 {
      AttsAre(ts[1..], 0, line);
      assert R.Renumber(l[1..], 0) == AttsOf(ts[1..], 0, line);
    }
  }

  /** The segments of the attributes spell the parts of the tokens. */
  lemma {:induction false} SegmentsSpell(op: string, cur: seq<Att>, curTokens: seq<Token>, atts: seq<Att>, ts: seq<Token>, line: nat)
    requires Spells(cur, curTokens, line) && Spells(atts, ts, line) && op in R.OPS
    requires forall i :: 0 <= i < |ts| ==> Legible(ts[i])
    ensures
      var segments, parts := R.Segments(op, cur, atts), Split(op, curTokens, ts);
      |segments| == |parts| && forall i :: 0 <= i < |parts| ==> Spells(segments[i], parts[i], line)
    decreases |ts|
  {
    if ts != [] {
      IsSign(ts[0], op, line);
      if ts[0] == Sign(op) {
        SegmentsSpell(op, [], [], atts[1..], ts[1..], line);
      } else {
        SegmentsSpell(op, cur + [atts[0]], curTokens + [ts[0]], atts[1..], ts[1..], line);
      }
    }
  }

  function PartTrees(parts: seq<seq<Token>>, line: nat): (trees: seq<Tree>)
    requires [] !in parts
    ensures |trees| == |parts| && forall i :: 0 <= i < |parts| ==> trees[i] == PartTree(parts[i], line)
  {
    if parts == [] then [] else [PartTree(parts[0], line)] + PartTrees(parts[1..], line)
  }

  /** No part of a well formed line is empty, and all are well formed. */
  lemma {:induction false} PartsWellFormed(op: string, cur: seq<Token>, ts: seq<Token>)
    requires WellFormed(ts) && (cur != [] ==> EndsOpen(cur))
    ensures forall i :: 0 <= i < |Split(op, cur, ts)| ==> WellFormed(Split(op, cur, ts)[i])
    decreases |ts|
  {
    OpenAppend(cur, ts[0]);
    assert ts[0] != Sign(op);
    if |ts| > 1 {
      assert ts[1..][1..] == ts[2..];
      var next := cur + [ts[0]];
      if ts[1] == Sign(op) {
        PartsWellFormed(op, [], ts[2..]);
        assert Split(op, next, ts[1..]) == [next] + Split(op, [], ts[2..]);
      } else {
        assert Split(op, next, ts[1..]) == Split(op, next + [ts[1]], ts[2..]);
        OpenClosed(next, ts[1]);
        PartsWellFormed(op, next + [ts[1]], ts[2..]);
      }
    } else {
      assert ts[1..] == [];
    }
  }

  /** Tokens that end on an operator, and would be well formed with an operand more. */
  predicate EndsOpen(ts: seq<Token>) {
    |ts| >= 2 && WellFormed(ts[..|ts| - 1]) && ts[|ts| - 1].Sign? && ts[|ts| - 1].op in R.OPS && IsModelled(ts[|ts| - 1].op)
  }

  lemma {:induction false} OpenAppend(cur: seq<Token>, k: Token)
    requires (cur != [] ==> EndsOpen(cur)) && WellFormedToken(k)
    ensures WellFormed(cur + [k])
    decreases |cur|
  {
    var all := cur + [k];
    if cur != [] {
      if |cur| == 2 {
        assert all[2..] == [k];
      } else if |cur| == 3 {
        assert cur[..2][2..] == [];
        assert !WellFormed(cur[..2]);
        assert false;
      } else {
        assert cur[..|cur| - 1][2..] == cur[2..][..|cur| - 3];
        OpenAppend(cur[2..], k);
        assert all[2..] == cur[2..] + [k];
      }
    }
  }

  lemma OpenClosed(ts: seq<Token>, k: Token)
    requires WellFormed(ts) && k.Sign? && k.op in R.OPS && IsModelled(k.op)
    ensures EndsOpen(ts + [k])
  {
    assert (ts + [k])[..|ts + [k]| - 1] == ts;
  }

  lemma Before(t: Tree)
    requires t.atts != [] && forall i :: 0 <= i < |t.atts| ==> !R.IsIfWord(t.atts[i])
    requires t.head != Word("else") && !R.IsIfHead(t.head) && t.head != Word("set")
    ensures
      var r := R.Pinfixes(R.OPS, t);
      R.RewriteTree(t) == if r.Crash? then r else R.Rewritten(r.tree, r.changed)
  {
    hide R.Pinfixes;
    assert R.IfPlace(t.atts) == |t.atts|;
    assert R.PostIf(t) == R.Rewritten(t, false);
  }

  lemma Distinct()
    ensures forall i, j :: 0 <= i < j < |R.OPS| ==> R.OPS[i] != R.OPS[j]
  {
  }

  /** Rewriting a line takes it apart at the operator that comes first in OPS. */
  lemma RewriteLine(ts: seq<Token>, k: nat, line: nat)
    requires WellFormed(ts) && |ts| >= 3
    requires k < |R.OPS| && Sign(R.OPS[k]) in ts && forall j :: 0 <= j < k ==> Sign(R.OPS[j]) !in ts
    ensures
      var op := R.OPS[k];
      var parts := Split(op, [], ts);
      && (forall i :: 0 <= i < |parts| ==> WellFormed(parts[i]))
      && R.RewriteTree(LineTree(ts, line)) == R.Rewritten(Tree(Word(op), [], line, PartTrees(parts, line)), true)
  {
    hide R.IsInstruction, R.RewriteTree;
    var op, t := R.OPS[k], LineTree(ts, line);
    WellFormedLegible(ts);
    AttsAre(ts[1..], 0, line);
    Distinct();
    forall i, j | 0 <= i < |t.atts| && 0 <= j < |R.OPS|
      ensures R.IsOp(t.atts[i], R.OPS[j]) <==> ts[i + 1] == Sign(R.OPS[j])
      ensures !R.IsIfWord(t.atts[i])
    {
      IsSign(ts[i + 1], R.OPS[j], line);
    }
    forall j | 0 <= j < |R.OPS| ensures R.Sees(R.OPS[j], t.atts) <==> Sign(R.OPS[j]) in ts {
      SeesSign(ts, R.OPS[j], t.atts);
    }
    HeadIsOperand(ts[0], line);
    Before(t);
    PinfixesAt(R.OPS, k, t);
    InfixParts(ts, op, line);
  }

  lemma SeesSign(ts: seq<Token>, op: string, atts: seq<Att>)
    requires ts != [] && ts[0] != Sign(op) && |atts| == |ts| - 1
    requires forall i :: 0 <= i < |atts| ==> (R.IsOp(atts[i], op) <==> ts[i + 1] == Sign(op))
    ensures R.Sees(op, atts) <==> Sign(op) in ts
  {
    if Sign(op) in ts {
      var i :| 0 <= i < |ts| && ts[i] == Sign(op);
      assert R.IsOp(atts[i - 1], op);
    }
  }

  lemma HeadIsOperand(k: Token, line: nat)
    requires Legible(k) && !k.Sign?
    ensures var head := AtomOf(k, line);
      && head != Word("else") && !R.IsIfHead(head) && head != Word("set")
      && forall op :: op in R.OPS ==> head != Word(op)
  {
  }

  lemma InfixParts(ts: seq<Token>, op: string, line: nat)
    requires WellFormed(ts) && op in R.OPS
    ensures
      var parts := Split(op, [], ts);
      && (forall i :: 0 <= i < |parts| ==> WellFormed(parts[i]))
      && R.Infix(op, LineTree(ts, line)) == R.Rewritten(Tree(Word(op), [], line, PartTrees(parts, line)), true)
  {
    WellFormedLegible(ts);
    AttsAre(ts[1..], 0, line);
    var t := LineTree(ts, line);
    var parts := Split(op, [], ts);
    PartsWellFormed(op, [], ts);
    assert [] + [ts[0]] == [ts[0]];
    SegmentsSpell(op, [Att(Index(0), t.head)], [ts[0]], t.atts, ts[1..], line);
    var segments := R.Segments(op, [Att(Index(0), t.head)], t.atts);
    forall i | 0 <= i < |segments| ensures segments[i] != [] && R.LToTree(segments[i], line) == PartTree(parts[i], line) {
      SpeltTree(segments[i], parts[i], line);
    }
    assert R.SegmentTrees(segments, line) == PartTrees(parts, line);
  }

  /** The parts with the operator between them. */
  function Join(op: string, parts: seq<seq<Token>>): seq<Token> {
    if parts == [] then [] else if |parts| == 1 then parts[0] else parts[0] + [Sign(op)] + Join(op, parts[1..])
  }

  lemma {:induction false} JoinSplit(op: string, cur: seq<Token>, ts: seq<Token>)
    ensures Join(op, Split(op, cur, ts)) == cur + ts
    decreases |ts|
  {
    if ts == [] {
      assert cur + ts == cur;
    } else if ts[0] == Sign(op) {
      JoinSplit(op, [], ts[1..]);
      assert Split(op, cur, ts)[1..] == Split(op, [], ts[1..]);
      assert [] + ts[1..] == ts[1..] && cur + [ts[0]] + ts[1..] == cur + ts;
    } else {
      JoinSplit(op, cur + [ts[0]], ts[1..]);
      assert cur + [ts[0]] + ts[1..] == cur + ts;
    }
  }

  /** Rewriting keeps every token: the children stand for parts of the line that make it up again, around the
      operator that became the head. */
  lemma TokensKept(ts: seq<Token>, line: nat) returns (parts: seq<seq<Token>>)
    requires WellFormed(ts) && |ts| >= 3
    ensures [] !in parts && |parts| > 1 && forall i :: 0 <= i < |parts| ==> WellFormed(parts[i])
    ensures
      var r := R.RewriteTree(LineTree(ts, line));
      && r.Rewritten? && Stringy(r.tree.head)
      && r.tree.children == PartTrees(parts, line)
      && Join(r.tree.head.v.s, parts) == ts
  {
    hide R.RewriteTree;
    var k := FirstSign(ts);
    RewriteLine(ts, k, line);
    parts := Split(R.OPS[k], [], ts);
    JoinSplit(R.OPS[k], [], ts);
    SplitSome(R.OPS[k], [], ts);
    assert [] + ts == ts;
  }

  // --- levels of precedence ----------------------------------------------------------------------------

  lemma FirstSign(ts: seq<Token>) returns (k: nat)
    requires |ts| >= 2 && ts[1].Sign? && ts[1].op in R.OPS
    ensures k < |R.OPS| && Sign(R.OPS[k]) in ts && forall j :: 0 <= j < k ==> Sign(R.OPS[j]) !in ts
  {
    k := 0;
    var i :| 0 <= i < |R.OPS| && R.OPS[i] == ts[1].op;
    assert ts[1] == Sign(R.OPS[i]);
    while Sign(R.OPS[k]) !in ts
      invariant k <= i
      invariant forall j :: 0 <= j < k ==> Sign(R.OPS[j]) !in ts
      decreases i - k
    {
      k := k + 1;
    }
  }

  lemma {:induction false} SplitNone(op: string, cur: seq<Token>, ts: seq<Token>)
    requires Sign(op) !in ts
    ensures Split(op, cur, ts) == [cur + ts]
    decreases |ts|
  {
    if ts == [] {
      assert cur + ts == cur;
    } else {
      SplitNone(op, cur + [ts[0]], ts[1..]);
      assert cur + [ts[0]] + ts[1..] == cur + ts;
    }
  }

  lemma {:induction false} SplitSome(op: string, cur: seq<Token>, ts: seq<Token>)
    requires Sign(op) !in cur
    ensures Sign(op) in ts ==> |Split(op, cur, ts)| > 1
    ensures forall part :: part in Split(op, cur, ts) ==> forall k :: k in part ==> (k in cur || k in ts) && k != Sign(op)
    decreases |ts|
  {
    if ts != [] {
      if ts[0] == Sign(op) {
        SplitSome(op, [], ts[1..]);
      } else {
        SplitSome(op, cur + [ts[0]], ts[1..]);
        assert Sign(op) in ts ==> Sign(op) in ts[1..];
      }
    }
  }

  /** Operators that are not there do not matter. */
  lemma {:induction false} SkipLevels(ops: seq<string>, k: nat, ts: seq<Token>)
    requires k <= |ops| && forall j :: 0 <= j < k ==> Sign(ops[j]) !in ts
    ensures Worth(ops, ts) == Worth(ops[k..], ts)
    decreases k
  {
    if k > 0 {
      SplitNone(ops[0], [], ts);
      SkipLevels(ops[1..], k - 1, ts);
      assert ops[1..][k - 1..] == ops[k..];
    } else {
      assert ops[0..] == ops;
    }
  }

  lemma {:induction false} SkipInParts(ops: seq<string>, k: nat, parts: seq<seq<Token>>, stop: bool)
    requires k <= |ops| && forall i, j :: 0 <= i < |parts| && 0 <= j < k ==> Sign(ops[j]) !in parts[i]
    ensures Worths(ops, parts) == Worths(ops[k..], parts)
    ensures Asked(ops, parts, stop) == Asked(ops[k..], parts, stop)
    decreases |parts|
  {
    hide Worth;
    if parts != [] {
      SkipLevels(ops, k, parts[0]);
      forall i, j | 0 <= i < |parts[1..]| && 0 <= j < k ensures Sign(ops[j]) !in parts[1..][i] {
        assert parts[1..][i] == parts[i + 1];
      }
      SkipInParts(ops, k, parts[1..], stop);
    }
  }

  /** The value of a line is that of its parts, each read from the loosest operator again. */
  lemma WorthOfParts(ts: seq<Token>, k: nat)
    requires k < |R.OPS| && Sign(R.OPS[k]) in ts && forall j :: 0 <= j < k ==> Sign(R.OPS[j]) !in ts
    ensures
      var op := R.OPS[k];
      var parts := Split(op, [], ts);
      Worth(R.OPS, ts) ==
        if op == "or" then Asked(R.OPS, parts, true)
        else if op == "and" then Asked(R.OPS, parts, false)
        else Combined(op, Worths(R.OPS, parts))
    ensures |Split(R.OPS[k], [], ts)| > 1
  {
    hide Worths, Asked, Combined;
    var op := R.OPS[k];
    var parts := Split(op, [], ts);
    SkipLevels(R.OPS, k, ts);
    SplitSome(op, [], ts);
    assert [] + ts == ts;
    assert R.OPS[k..][1..] == R.OPS[k + 1..] && R.OPS[k..][0] == op;
    forall i, j | 0 <= i < |parts| && 0 <= j < k + 1 ensures Sign(R.OPS[j]) !in parts[i] {
      assert parts[i] in parts;
    }
    SkipInParts(R.OPS, k + 1, parts, true);
    SkipInParts(R.OPS, k + 1, parts, false);
  }

  // --- the theorem ---------------------------------------------------------------------------------------

  /** An operand answers its value. */
  lemma OperandMeans(v: Value, line: nat, p: Payload)
    requires Plain(v)
    ensures Answers(Den(PartTree([Operand(v)], line), p), p, Some(v))
  {
    var t := R.VToTree(Lit(v), line);
    var u := Tree(Word("val"), [Att(Index(0), Lit(v))], line, []);
    assert R.AsVal(t).tree == u;
    ValUnchanged(u, v);
    assert R.RewriteTree(t).Rewritten? && R.RewriteTree(t).tree == u;
  }

  lemma ValUnchanged(u: Tree, v: Value)
    requires u.head == Word("val") && u.atts == [Att(Index(0), Lit(v))] && u.children == [] && Plain(v)
    ensures R.ElseIf(u) == R.PostIf(u) == R.HeadIf(u) == R.SetPass(u) == R.Pinfixes(R.OPS, u) == R.Rewritten(u, false)
  {
    PinfixesIdle(R.OPS, u);
  }

  /** A line yields its value by precedence, whatever the payload, or fails when it has none. */
  lemma {:induction false} LineMeans(ts: seq<Token>, line: nat, p: Payload)
    requires WellFormed(ts)
    ensures Answers(Den(PartTree(ts, line), p), p, Worth(R.OPS, ts))
    decreases Size(ts), 0, 1
  {
    hide Den, Worth, R.RewriteTree;
    if |ts| == 1 {
      SingleWorth(ts);
      match ts[0] {
        case Operand(v) =>
          OperandMeans(v, line, p);
          assert ts == [Operand(v)];
        case Group(inner) =>
          assert Size(ts) == TokenSize(ts[0]) + Size(ts[1..]) && TokenSize(ts[0]) == 1 + Size(inner);
          LineMeans(inner, line, p);
      }
    } else {
      assert |ts| >= 3;
      var k := FirstSign(ts);
      RewriteLine(ts, k, line);
      WorthOfParts(ts, k);
      SplitSize(R.OPS[k], [], ts);
      OperatorMeans(ts, k, line, p);
    }
  }

  lemma SingleWorth(ts: seq<Token>)
    requires |ts| == 1 && WellFormed(ts)
    ensures Worth(R.OPS, ts) == match ts[0] case Operand(v) => Some(v) case Group(inner) => Worth(R.OPS, inner) case Sign(_) => None
  {
    hide Worth;
    SkipLevels(R.OPS, |R.OPS|, ts);
    assert R.OPS[|R.OPS|..] == [];
    NoLevels(ts);
  }

  lemma NoLevels(ts: seq<Token>)
    requires ts != []
    ensures Worth([], ts) == match ts[0] case Operand(v) => Some(v) case Group(inner) => Worth(R.OPS, inner) case Sign(_) => None
  {
  }

  lemma {:induction false} OperatorMeans(ts: seq<Token>, k: nat, line: nat, p: Payload)
    requires WellFormed(ts) && |ts| >= 3 && k < |R.OPS| && Sign(R.OPS[k]) in ts
    requires
      var op := R.OPS[k];
      var parts := Split(op, [], ts);
      && |parts| > 1 && PartsSize(parts) < Size(ts)
      && (forall i :: 0 <= i < |parts| ==> WellFormed(parts[i]))
      && R.RewriteTree(LineTree(ts, line)) == R.Rewritten(Tree(Word(op), [], line, PartTrees(parts, line)), true)
    ensures
      var op := R.OPS[k];
      var parts := Split(op, [], ts);
      Answers(Den(PartTree(ts, line), p), p,
        if op == "or" then Asked(R.OPS, parts, true)
        else if op == "and" then Asked(R.OPS, parts, false)
        else Combined(op, Worths(R.OPS, parts)))
    decreases Size(ts), 0, 0
  {
    hide Worth, Den, R.RewriteTree, Until, Gather, Fold, Doubles, Chain, Asked, Worths, Wrap32, IntValue;
    var op := R.OPS[k];
    var parts := Split(op, [], ts);
    var trees := PartTrees(parts, line);
    SignsAreModelled(ts, op);
    OperatorDen(LineTree(ts, line), op, line, trees, p);
    if op == "or" {
      UntilMeans(parts, line, true, p);
    } else if op == "and" {
      UntilMeans(parts, line, false, p);
    } else {
      GatherMeans(parts, line, p, []);
      var vs := Worths(R.OPS, parts);
      if vs.Some? {
        assert [] + vs.value == vs.value;
      }
    }
  }

  /** The meaning of a line once it is taken apart. */
  lemma OperatorDen(t: Tree, op: string, line: nat, trees: seq<Tree>, p: Payload)
    requires R.RewriteTree(t) == R.Rewritten(Tree(Word(op), [], line, trees), true) && trees != [] && IsModelled(op)
    ensures
      Den(t, p) ==
      if op == "or" then Shift(Until(trees, true, p), 1)
      else if op == "and" then Shift(Until(trees, false, p), 1)
      else
        var (o, rets) := Gather(trees, p, []);
        match OpNamed(op)
        case Arith(sign) => Total(sign, rets, Shift(o, 1))
        case Cmp(rel) => Compared(rel, rets, Shift(o, 1))
        case _ => Never
  {
    hide R.RewriteTree, Until, Gather, Total, Compared, InTurn, Guarded, Choice, Assigned, Each, Latest, ExeVal, ExeTrace;
    assert OpOf(Tree(Word(op), [], line, trees)) == OpNamed(op);
  }

  lemma {:induction false} SignsAreModelled(ts: seq<Token>, op: string)
    requires WellFormed(ts) && Sign(op) in ts
    ensures IsModelled(op)
    decreases |ts|
  {
    if |ts| > 1 && ts[1] != Sign(op) {
      assert ts == [ts[0], ts[1]] + ts[2..];
      SignsAreModelled(ts[2..], op);
    }
  }

  lemma {:induction false} UntilMeans(parts: seq<seq<Token>>, line: nat, stop: bool, p: Payload)
    requires [] !in parts && forall i :: 0 <= i < |parts| ==> WellFormed(parts[i])
    ensures
      var o := Until(PartTrees(parts, line), stop, p);
      if parts == [] then o == Done(p, 0) else Answers(o, p, Asked(R.OPS, parts, stop))
    decreases PartsSize(parts), 1, |parts|
  {
    hide Den, Worth, Gather, PartTree, WellFormed;
    if parts != [] {
      LineMeans(parts[0], line, p);
      assert PartTrees(parts, line)[1..] == PartTrees(parts[1..], line);
      var o := Den(PartTree(parts[0], line), p);
      if o.Done? && Truth(o.payload) != stop {
        var r := WithRet(o.payload, Bool(!stop));
        UntilMeans(parts[1..], line, stop, r);
        var v := Asked(R.OPS, parts[1..], stop);
        assert v.Some? ==> WithRet(r, v.value) == WithRet(p, v.value);
      }
    }
  }

  lemma {:induction false} GatherMeans(parts: seq<seq<Token>>, line: nat, p: Payload, rets: seq<Value>)
    requires [] !in parts && forall i :: 0 <= i < |parts| ==> WellFormed(parts[i])
    ensures
      var (o, all) := Gather(PartTrees(parts, line), p, rets);
      var vs := Worths(R.OPS, parts);
      if vs.None? then o.Never?
      else o.Done? && all == rets + vs.value && forall v :: WithRet(o.payload, v) == WithRet(p, v)
    decreases PartsSize(parts), 1, |parts|
  {
    hide Den, Worth, PartTree, WellFormed;
    if parts == [] {
      assert rets + [] == rets;
    } else {
      LineMeans(parts[0], line, p);
      assert PartTrees(parts, line)[1..] == PartTrees(parts[1..], line);
      var o := Den(PartTree(parts[0], line), p);
      if o.Done? {
        var v := Worth(R.OPS, parts[0]).value;
        assert Collect(Some(rets), o.payload) == rets + [v];
        GatherMeans(parts[1..], line, o.payload, rets + [v]);
        var vs := Worths(R.OPS, parts[1..]);
        if vs.Some? {
          assert rets + [v] + vs.value == rets + ([v] + vs.value);
        }
        assert forall w :: WithRet(o.payload, w) == WithRet(p, w);
      }
    }
  }
}
