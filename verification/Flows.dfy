/** What each instruction does, told from the word at the head of its tree and from the answers of its children alone. */
module Flows {
  import opened Values
  import opened Trees
  import opened Rewriting
  import opened Instructions
  import opened Evaluator
  import opened Operators
  import opened Expressions
  import R = Rewriting
  import Machine
  import Semantics

  /** The payload a tree answers with, if it does. */
  function Answer(t: Tree, p: Payload): Option<Payload> {
    match Eval(t, p) case Done(q, _) => Some(q) case Never => None
  }

  /** Its ret is there, and neither null nor false. */
  predicate Yes(p: Payload) { "ret" in p && p["ret"] != Null && p["ret"] != Bool(false) }

  predicate SaysFalse(p: Payload) { "ret" in p && p["ret"] == Bool(false) }

  /** Each tree on the answer of the one before it. */
  function InTurn(ts: seq<Tree>, p: Payload): Option<Payload> {
    if ts == [] then Some(p) else
    match Answer(ts[0], p) case None => None case Some(q) => InTurn(ts[1..], q)
  }

  /** In turn up to the first one whose answer is `stop`, the ret of each made a boolean. */
  function UpTo(ts: seq<Tree>, stop: bool, p: Payload): Option<Payload> {
    if ts == [] then Some(p) else
    match Answer(ts[0], p)
    case None => None
    case Some(q) =>
      var r := q["ret" := Bool(Yes(q))];
      if Yes(q) == stop then Some(r) else UpTo(ts[1..], stop, r)
  }

  /** In turn, with the rets that are there. */
  function Rets(ts: seq<Tree>, p: Payload): Option<(Payload, seq<Value>)> {
    if ts == [] then Some((p, [])) else
    match Answer(ts[0], p)
    case None => None
    case Some(q) =>
      match Rets(ts[1..], q)
      case None => None
      case Some((r, vs)) => Some((r, (if "ret" in q then [q["ret"]] else []) + vs))
  }

  /** The words that the rewriting looks for among attributes. */
  predicate IsSignal(w: string) {
    w in {"if", "unless", "or", "and", "==", "!=", "=~", "!~", ">", ">=", "<", "<=", "+", "-", "*", "/", "%"}
  }

  /** Plain values, none of them such a word. */
  predicate Quiet(atts: seq<Att>) {
    forall i :: 0 <= i < |atts| ==> atts[i].atom.Lit? && (atts[i].atom.v.Str? ==> !IsSignal(atts[i].atom.v.s))
  }

  // --- trees that are not rewritten ----------------------------------------------------------------------

  lemma {:induction false} QuietPlace(atts: seq<Att>)
    requires Quiet(atts)
    ensures IfPlace(atts) == |atts|
  {
    if atts != [] {
      assert atts[0].atom.Lit?;
      QuietPlace(atts[1..]);
    }
  }

  lemma {:induction false} NoOperators(ops: seq<string>, t: Tree)
    requires Quiet(t.atts) && (forall op :: op in ops ==> IsSignal(op))
    requires forall op :: op in ops ==> t.head != Word(op) || t.children != []
    ensures Pinfixes(ops, t) == Rewritten(t, false)
  {
    if ops != [] { NoOperators(ops[1..], t); }
  }

  lemma OpsAreSignals()
    ensures forall op :: op in OPS ==> IsSignal(op)
  {
  }

  predicate IfLike(name: string) { name in {"if", "unless", "elsif", "elif", "else"} }

  /** Operators need children here: without them they take their attributes. */
  lemma Kept(name: string, atts: seq<Att>, line: nat, ts: seq<Tree>)
    requires IsInstruction(name) && Quiet(atts) && (IfLike(name) ==> atts == []) && (name == "set" && atts != [] ==> ts != [])
    requires name in OPS ==> ts != []
    ensures RewriteTree(Tree(Word(name), atts, line, ts)) == Rewritten(Tree(Word(name), atts, line, ts), IfLike(name))
  {
    hide Pinfixes, SplitIf;
    var t := Tree(Word(name), atts, line, ts);
    QuietPlace(atts);
    OpsAreSignals();
    assert forall op :: op in OPS && t.head == Word(op) ==> op == name;
    NoOperators(OPS, t);
    assert AsVal(t) == Rewritten(t, false) && ElseIf(t) == Rewritten(t, false) && PostIf(t) == Rewritten(t, false);
    if IfLike(name) {
      NoParts();
      assert [] + ts == ts;
      assert HeadIf(t) == Rewritten(t, true);
    } else {
      assert HeadIf(t) == Rewritten(t, false);
    }
    assert SetPass(t) == Rewritten(t, false);
  }

  lemma NoParts()
    ensures SplitIf([], Cond, IfParts([], [], [])) == IfParts([], [], [])
  {
  }

  lemma Ready(name: string, atts: seq<Att>, line: nat, ts: seq<Tree>)
    requires IsInstruction(name) && Quiet(atts) && (IfLike(name) ==> atts == []) && (name == "set" && atts != [] ==> ts != [])
    requires name in OPS ==> ts != []
    ensures
      var t := Tree(Word(name), atts, line, ts);
      Machine.Prepare(t) == Machine.Prepared(t, IfLike(name), OpNamed(name))
  {
    hide RewriteTree, OpNamed;
    Kept(name, atts, line, ts);
    assert forall a :: a in atts ==> a.atom.Lit?;
  }

  // --- answers by payload ----------------------------------------------------------------------------------

  function PayloadOf(o: Outcome): Option<Payload> { match o case Done(q, _) => Some(q) case Never => None }

  lemma AnswerIs(t: Tree, p: Payload)
    ensures Answer(t, p) == PayloadOf(Semantics.Den(t, p))
  {
    hide Eval, Semantics.Den;
    Semantics.EvalIsDen(t, p);
  }

  lemma {:induction false} RunAnswers(ts: seq<Tree>, p: Payload)
    ensures PayloadOf(Semantics.Run(ts, p)) == InTurn(ts, p)
    decreases |ts|
  {
    hide Eval, Semantics.Den, Answer;
    if ts != [] {
      AnswerIs(ts[0], p);
      var o := Semantics.Den(ts[0], p);
      if o.Done? { RunAnswers(ts[1..], o.payload); }
    }
  }

  lemma {:induction false} UntilAnswers(ts: seq<Tree>, stop: bool, p: Payload)
    ensures PayloadOf(Semantics.Until(ts, stop, p)) == UpTo(ts, stop, p)
    decreases |ts|
  {
    hide Eval, Semantics.Den, Answer;
    if ts != [] {
      AnswerIs(ts[0], p);
      var o := Semantics.Den(ts[0], p);
      if o.Done? { UntilAnswers(ts[1..], stop, WithRet(o.payload, Bool(Truth(o.payload)))); }
    }
  }

  lemma {:induction false} GatherAnswers(ts: seq<Tree>, p: Payload, rets: seq<Value>)
    ensures
      var (o, all) := Semantics.Gather(ts, p, rets);
      match Rets(ts, p)
      case None => o.Never?
      case Some((q, vs)) => o.Done? && o.payload == q && all == rets + vs
    decreases |ts|
  {
    hide Eval, Semantics.Den, Answer;
    if ts == [] {
      assert rets + [] == rets;
    } else {
      AnswerIs(ts[0], p);
      var o := Semantics.Den(ts[0], p);
      if o.Done? {
        var more := Semantics.Collect(Some(rets), o.payload);
        GatherAnswers(ts[1..], o.payload, more);
      }
    }
  }

  // --- in turn ---------------------------------------------------------------------------------------------

  lemma KnownSteps()
    ensures OpNamed("sequence") == Sequence && OpNamed("concurrence") == Concurrence && OpNamed("set") == Set
    ensures OpNamed("val") == Val && OpNamed("trace") == Trace && OpNamed("noop") == Noop && OpNamed("stall") == Stall
  {
  }

  lemma KnownBranches()
    ensures OpNamed("if") == If && OpNamed("unless") == Unless && OpNamed("else") == Op.Else
    ensures OpNamed("elsif") == Elsif && OpNamed("elif") == Elsif && OpNamed("ife") == Ife && OpNamed("unlesse") == Unlesse
  {
  }

  lemma KnownSigns()
    ensures OpNamed("and") == And && OpNamed("or") == Or
    ensures OpNamed("+") == Arith('+') && OpNamed("-") == Arith('-') && OpNamed("*") == Arith('*') && OpNamed("/") == Arith('/')
  {
  }

  lemma KnownRelations(rel: string)
    requires IsRelation(rel)
    ensures OpNamed(rel) == Cmp(rel)
  {
  }

  /** The meaning of a node that is not rewritten, by its instruction. */
  lemma Means(name: string, atts: seq<Att>, line: nat, ts: seq<Tree>, p: Payload)
    requires IsInstruction(name) && Quiet(atts) && (IfLike(name) ==> atts == []) && (name == "set" && atts != [] ==> ts != [])
    requires name in OPS ==> ts != []
    ensures
      var t := Tree(Word(name), atts, line, ts);
      && Machine.Prepare(t) == Machine.Prepared(t, IfLike(name), OpNamed(name))
      && Answer(t, p) == PayloadOf(Semantics.Den(t, p))
  {
    hide OpNamed, Semantics.Den, Answer;
    Ready(name, atts, line, ts);
    AnswerIs(Tree(Word(name), atts, line, ts), p);
  }

  lemma SequenceRuns(atts: seq<Att>, line: nat, ts: seq<Tree>, p: Payload)
    requires Quiet(atts)
    ensures Answer(Tree(Word("sequence"), atts, line, ts), p) == InTurn(ts, p)
  {
    hide Answer, Eval, OpNamed, Machine.Prepare, Semantics.Run, InTurn;
    KnownSteps();
    Means("sequence", atts, line, ts, p);
    RunAnswers(ts, p);
    NothingInTurn(p);
  }

  lemma NothingInTurn(p: Payload)
    ensures InTurn([], p) == Some(p)
  {
  }

  /** `if`: the first child guards the others. */
  lemma IfGuards(line: nat, ts: seq<Tree>, p: Payload)
    ensures
      Answer(Tree(Word("if"), [], line, ts), p)
      == if ts == [] then Some(p) else
         match Answer(ts[0], p)
         case None => None
         case Some(q) => if Yes(q) then InTurn(ts[1..], q) else Some(q)
  {
    hide Answer, Eval, OpNamed, Machine.Prepare, InTurn;
    KnownBranches();
    Means("if", [], line, ts, p);
    GuardAnswers(ts, false, p);
  }

  lemma GuardAnswers(ts: seq<Tree>, negated: bool, p: Payload)
    ensures
      PayloadOf(Semantics.Guarded(ts, negated, p))
      == if ts == [] then Some(p) else
         match Answer(ts[0], p)
         case None => None
         case Some(q) =>
           var r := if negated then q["ret" := Bool(!Yes(q))] else q;
           if Yes(q) != negated then InTurn(ts[1..], r) else Some(r)
  {
    hide Answer, Eval, InTurn, Semantics.Den, Semantics.Run;
    if ts != [] {
      AnswerIs(ts[0], p);
      var o := Semantics.Den(ts[0], p);
      if o.Done? {
        RunAnswers(ts[1..], if negated then WithRet(o.payload, Bool(Truth(o.payload) != negated)) else o.payload);
      }
    }
  }

  /** `unless`: the other way round, and the ret says whether the others run. */
  lemma UnlessGuards(line: nat, ts: seq<Tree>, p: Payload)
    ensures
      Answer(Tree(Word("unless"), [], line, ts), p)
      == if ts == [] then Some(p) else
         match Answer(ts[0], p)
         case None => None
         case Some(q) => if Yes(q) then Some(q["ret" := Bool(false)]) else InTurn(ts[1..], q["ret" := Bool(true)])
  {
    hide Answer, Eval, OpNamed, Machine.Prepare, InTurn;
    KnownBranches();
    Means("unless", [], line, ts, p);
    GuardAnswers(ts, true, p);
  }

  /** `elsif` and `elif`: as `if`, but only after a false ret. */
  lemma ElsifGuards(name: string, line: nat, ts: seq<Tree>, p: Payload)
    requires name == "elsif" || name == "elif"
    ensures
      Answer(Tree(Word(name), [], line, ts), p)
      == if !SaysFalse(p) || ts == [] then Some(p) else
         match Answer(ts[0], p)
         case None => None
         case Some(q) => if Yes(q) then InTurn(ts[1..], q) else Some(q)
  {
    hide Answer, Eval, OpNamed, Machine.Prepare, InTurn;
    KnownBranches();
    Means(name, [], line, ts, p);
    GuardAnswers(ts, false, p);
  }

  /** `else`: in turn, after a false ret. */
  lemma ElseRuns(line: nat, ts: seq<Tree>, p: Payload)
    ensures Answer(Tree(Word("else"), [], line, ts), p) == if SaysFalse(p) then InTurn(ts, p) else Some(p)
  {
    hide Answer, Eval, OpNamed, Machine.Prepare, InTurn;
    KnownBranches();
    Means("else", [], line, ts, p);
    RunAnswers(ts, p);
    NothingInTurn(p);
  }

  // --- branches --------------------------------------------------------------------------------------------

  lemma ChoiceAnswers(ts: seq<Tree>, negated: bool, p: Payload)
    requires ts != []
    ensures
      PayloadOf(Semantics.Choice(ts, negated, p))
      == match Answer(ts[0], p)
         case None => None
         case Some(q) =>
           var k := if Yes(q) != negated then 1 else 2;
           var r := q["ret" := Bool(Yes(q) != negated)];
           if k < |ts| then Answer(ts[k], r) else Some(r)
  {
    hide Answer, Eval, Semantics.Den;
    AnswerIs(ts[0], p);
    var o := Semantics.Den(ts[0], p);
    if o.Done? {
      var yes := Truth(o.payload) != negated;
      var k := if yes then 1 else 2;
      if k < |ts| { AnswerIs(ts[k], WithRet(o.payload, Bool(yes))); }
    }
  }

  /** `ife`: as the second child, on ret true, when the first one says yes, and as the third one, on ret false, when it
      does not; a branch that is not there answers the ret. */
  lemma IfeChooses(atts: seq<Att>, line: nat, ts: seq<Tree>, p: Payload)
    requires Quiet(atts) && ts != []
    ensures
      Answer(Tree(Word("ife"), atts, line, ts), p)
      == match Answer(ts[0], p)
         case None => None
         case Some(q) =>
           if Yes(q) then if |ts| > 1 then Answer(ts[1], q["ret" := Bool(true)]) else Some(q["ret" := Bool(true)])
           else if |ts| > 2 then Answer(ts[2], q["ret" := Bool(false)]) else Some(q["ret" := Bool(false)])
  {
    hide Answer, Eval, OpNamed, Machine.Prepare;
    KnownBranches();
    Means("ife", atts, line, ts, p);
    ChoiceAnswers(ts, false, p);
  }

  /** `unlesse`: the other way round. */
  lemma UnlesseChooses(atts: seq<Att>, line: nat, ts: seq<Tree>, p: Payload)
    requires Quiet(atts) && ts != []
    ensures
      Answer(Tree(Word("unlesse"), atts, line, ts), p)
      == match Answer(ts[0], p)
         case None => None
         case Some(q) =>
           if Yes(q) then if |ts| > 2 then Answer(ts[2], q["ret" := Bool(false)]) else Some(q["ret" := Bool(false)])
           else if |ts| > 1 then Answer(ts[1], q["ret" := Bool(true)]) else Some(q["ret" := Bool(true)])
  {
    hide Answer, Eval, OpNamed, Machine.Prepare;
    KnownBranches();
    Means("unlesse", atts, line, ts, p);
    ChoiceAnswers(ts, true, p);
  }

  /** `and` and `or` stop at the first child that decides. */
  lemma AndOrStop(name: string, atts: seq<Att>, line: nat, ts: seq<Tree>, p: Payload)
    requires (name == "and" || name == "or") && Quiet(atts) && ts != []
    ensures Answer(Tree(Word(name), atts, line, ts), p) == UpTo(ts, name == "or", p)
  {
    hide Answer, Eval, OpNamed, Machine.Prepare, UpTo, Semantics.Until;
    KnownSigns();
    Means(name, atts, line, ts, p);
    UntilAnswers(ts, name == "or", p);
  }

  // --- leaves ----------------------------------------------------------------------------------------------

  /** `noop` answers what it is given, `stall` never. */
  lemma NoopAnswers(atts: seq<Att>, line: nat, ts: seq<Tree>, p: Payload)
    requires Quiet(atts)
    ensures Answer(Tree(Word("noop"), atts, line, ts), p) == Some(p)
    ensures Answer(Tree(Word("stall"), atts, line, ts), p) == None
  {
    hide Answer, Eval, OpNamed, Machine.Prepare;
    KnownSteps();
    Means("noop", atts, line, ts, p);
    Means("stall", atts, line, ts, p);
  }

  /** `val`: its first attribute is the ret. */
  lemma ValAnswers(v: Value, more: seq<Att>, line: nat, ts: seq<Tree>, p: Payload)
    requires Quiet([Att(Index(0), Lit(v))] + more)
    ensures Answer(Tree(Word("val"), [Att(Index(0), Lit(v))] + more, line, ts), p) == Some(p["ret" := v])
  {
    hide Answer, Eval, OpNamed, Machine.Prepare;
    KnownSteps();
    var atts := [Att(Index(0), Lit(v))] + more;
    Means("val", atts, line, ts, p);
    assert AttAt(atts, Index(0)) == Some(Lit(v));
  }

  /** Without such an attribute it is null. */
  lemma ValNothing(atts: seq<Att>, line: nat, ts: seq<Tree>, p: Payload)
    requires Quiet(atts) && forall i :: 0 <= i < |atts| ==> atts[i].key != Index(0)
    ensures Answer(Tree(Word("val"), atts, line, ts), p) == Some(p["ret" := Null])
  {
    hide Answer, Eval, OpNamed, Machine.Prepare;
    KnownSteps();
    Means("val", atts, line, ts, p);
    NotAt(atts, Index(0));
  }

  lemma {:induction false} NotAt(atts: seq<Att>, k: Key)
    requires forall i :: 0 <= i < |atts| ==> atts[i].key != k
    ensures AttAt(atts, k) == None
  {
    if atts != [] { NotAt(atts[1..], k); }
  }

  /** The payload with one more value at the end of its trace. */
  function Noted(p: Payload, v: Value): Payload {
    if "trace" !in p then p["trace" := Arr([v])]
    else if p["trace"].Arr? then p["trace" := Arr(p["trace"].items + [v])]
    else p
  }

  /** Attributes without names. */
  function Listed(vs: seq<Value>): (atts: seq<Att>)
    ensures |atts| == |vs| && forall i :: 0 <= i < |vs| ==> atts[i] == Att(Index(i), Lit(vs[i]))
  {
    seq(|vs|, i requires 0 <= i < |vs| => Att(Index(i), Lit(vs[i])))
  }

  lemma ListedShrinks(vs: seq<Value>)
    ensures ShrinkAtts(Listed(vs)) == Arr(vs)
  {
    var atts := Listed(vs);
    assert forall a :: a in atts ==> a.key.Index?;
    assert ShrinkAtts(atts).items == vs;
  }

  /** `trace` notes its attribute, all of them in their order when there are several, or the ret when there is none; it
      leaves a trace that is no array alone. */
  lemma TraceNotes(vs: seq<Value>, line: nat, ts: seq<Tree>, p: Payload)
    requires Quiet(Listed(vs))
    ensures
      Answer(Tree(Word("trace"), Listed(vs), line, ts), p)
      == Some(Noted(p, if vs == [] then if "ret" in p then p["ret"] else Null else if |vs| == 1 then vs[0] else Arr(vs)))
  {
    hide Answer, Eval, OpNamed, Machine.Prepare, ShrinkAtts;
    KnownSteps();
    var atts := Listed(vs);
    Means("trace", atts, line, ts, p);
    if |vs| == 1 {
      assert AttAt(atts, Index(0)) == Some(atts[0].atom);
    } else if vs != [] {
      ListedShrinks(vs);
    }
    assert forall v: Value :: [] + [v] == [v];
    TraceLeft(p);
  }

  /** An attribute of its own with a name notes nothing, but starts the trace. */
  lemma TraceNamed(n: string, v: Value, line: nat, ts: seq<Tree>, p: Payload)
    requires Quiet([Att(Name(n), Lit(v))])
    ensures Answer(Tree(Word("trace"), [Att(Name(n), Lit(v))], line, ts), p)
         == Some(if "trace" in p then p else p["trace" := Arr([])])
  {
    hide Answer, Eval, OpNamed, Machine.Prepare;
    var atts := [Att(Name(n), Lit(v))];
    KnownSteps();
    Means("trace", atts, line, ts, p);
    NotAt(atts, Index(0));
    TraceLeft(p);
  }

  /** Of several attributes with names among them an object is noted, those without one under `_0`, `_1`... */
  lemma TraceObject(n: string, v: Value, w: Value, line: nat, ts: seq<Tree>, p: Payload)
    requires Quiet([Att(Index(0), Lit(v)), Att(Name(n), Lit(w))])
    ensures Answer(Tree(Word("trace"), [Att(Index(0), Lit(v)), Att(Name(n), Lit(w))], line, ts), p)
         == Some(Noted(p, Obj([("_0", v), (n, w)])))
  {
    hide Answer, Eval, OpNamed, Machine.Prepare, ShrinkAtts;
    var atts := [Att(Index(0), Lit(v)), Att(Name(n), Lit(w))];
    KnownSteps();
    Means("trace", atts, line, ts, p);
    NamedShrink(atts, n, v, w);
    assert forall x: Value :: [] + [x] == [x];
    TraceLeft(p);
  }

  lemma NamedShrink(atts: seq<Att>, n: string, v: Value, w: Value)
    requires atts == [Att(Index(0), Lit(v)), Att(Name(n), Lit(w))]
    ensures ShrinkAtts(atts) == Obj([("_0", v), (n, w)])
  {
    assert atts[1] in atts && atts[1].key.Name?;
    assert NatText(0) == "0" && "_" + "0" == "_0";
    assert ShrinkAtts(atts).entries == [("_0", v), (n, w)];
  }

  /** Writing back what is there changes nothing. */
  lemma TraceLeft(p: Payload)
    ensures "trace" in p ==> p["trace" := p["trace"]] == p
  {
  }

  // --- arithmetic, comparison, fields ----------------------------------------------------------------------

  lemma Gathered(ts: seq<Tree>, p: Payload)
    ensures
      var (o, all) := Semantics.Gather(ts, p, []);
      match Rets(ts, p)
      case None => o.Never?
      case Some((q, vs)) => o.Done? && o.payload == q && all == vs
  {
    hide Semantics.Gather, Rets;
    GatherAnswers(ts, p, []);
    var r := Rets(ts, p);
    if r.Some? { assert [] + r.value.1 == r.value.1; }
  }

  /** `+`, `-`, `*`, `/`: the rets of the children, taken from left to right; a division by zero has no answer. */
  lemma ArithAnswers(name: string, atts: seq<Att>, line: nat, ts: seq<Tree>, p: Payload)
    requires name in {"+", "-", "*", "/"} && Quiet(atts) && ts != []
    ensures
      var a := Answer(Tree(Word(name), atts, line, ts), p);
      match Rets(ts, p)
      case None => a == None
      case Some((q, vs)) =>
        !Pointed(vs) ==>
          if DividesByZero(name, Numbers(vs)) then a == None
          else exists w :: Amounts(name, vs, w) && a == Some(q["ret" := IntValue(w)])
  {
    hide Answer, Eval, OpNamed, Machine.Prepare, Rets, Semantics.Gather, Pointed, Doubles, Fold, Amounts, IntValue, Wrap32, DividesByZero;
    KnownSigns();
    Means(name, atts, line, ts, p);
    Gathered(ts, p);
    var r := Rets(ts, p);
    if r.Some? {
      PointedIs(r.value.1);
      FoldAmounts(name, r.value.1);
    }
  }

  /** Comparisons: true when each ret stands in the relation with the next one. */
  lemma CmpAnswers(name: string, atts: seq<Att>, line: nat, ts: seq<Tree>, p: Payload)
    requires IsRelation(name) && Quiet(atts) && ts != []
    ensures
      Answer(Tree(Word(name), atts, line, ts), p)
      == match Rets(ts, p)
         case None => None
         case Some((q, vs)) => Some(q["ret" := Bool(forall i :: 0 <= i < |vs| - 1 ==> Stands(name, vs[i], vs[i + 1]))])
  {
    hide Answer, Eval, OpNamed, Machine.Prepare, Rets, Semantics.Gather, Stands, Chain;
    KnownRelations(name);
    Means(name, atts, line, ts, p);
    Gathered(ts, p);
    var r := Rets(ts, p);
    if r.Some? { ChainIs(name, r.value.1); }
  }

  /** `set`: the answer of the child, its ret written to the field that the first attribute names, or the field gone
      when there is no ret; nothing is written when that attribute begins with a `d`. */
  lemma SetAnswers(k: Key, key: string, more: seq<Att>, line: nat, ts: seq<Tree>, name: string, p: Payload)
    requires Quiet([Att(k, Word(key))] + more) && ts != []
    ensures
      var a := Answer(Tree(Word("set"), [Att(k, Word(key))] + more, line, ts), p);
      match Answer(ts[0], p)
      case None => a == None
      case Some(q) =>
        if key != "" && key[0] == 'd' then a == Some(q)
        else Names(key, name) ==> a == Some(if "ret" in q then q[name := q["ret"]] else q - {name})
  {
    hide Answer, Eval, OpNamed, Machine.Prepare, Names, TargetOf, Semantics.Den;
    KnownSteps();
    var atts := [Att(k, Word(key))] + more;
    Means("set", atts, line, ts, p);
    AnswerIs(ts[0], p);
    SetMeans(Tree(Word("set"), atts, line, ts), p);
    SetIs(Tree(Word("set"), atts, line, ts), key, name);
  }

  lemma SetMeans(t: Tree, p: Payload)
    requires t.children != [] && Machine.Prepare(t) == Machine.Prepared(t, false, Set)
    ensures Semantics.Den(t, p) == Semantics.Assigned(t, Shift(Semantics.Den(t.children[0], p), 2))
  {
    hide Machine.Prepare, SetTarget;
  }

  lemma SetIs(t: Tree, key: string, name: string)
    requires t.atts != [] && t.atts[0].atom == Word(key)
    ensures key != "" && key[0] == 'd' ==> SetTarget(t) == Skip
    ensures (key == "" || key[0] != 'd') && Names(key, name) ==> SetTarget(t) == Field(name)
  {
    hide Names;
    if (key == "" || key[0] != 'd') && Names(key, name) { NamesField(key, name); }
  }

  // --- concurrence -----------------------------------------------------------------------------------------

  /** Child `i` is the last one to answer; of those that take as long, the last one in line. */
  ghost predicate AnswersLast(ts: seq<Tree>, i: nat, p: Payload) {
    && i < |ts| && Eval(ts[i], p).Done?
    && forall j :: 0 <= j < |ts| && Eval(ts[j], p).Done? ==>
         if j > i then Eval(ts[j], p).span < Eval(ts[i], p).span else Eval(ts[j], p).span <= Eval(ts[i], p).span
  }

  /** `concurrence`: every child on the payload it is given; the answer is that of the child that answers last. None if
      any of them has none, or when there are more than ten. */
  lemma ConcurrenceAnswers(atts: seq<Att>, line: nat, ts: seq<Tree>, p: Payload)
    requires Quiet(atts)
    ensures
      var a := Answer(Tree(Word("concurrence"), atts, line, ts), p);
      if ts == [] then a == Some(p)
      else if |ts| > 10 || exists i :: 0 <= i < |ts| && Answer(ts[i], p) == None then a == None
      else exists i: nat :: AnswersLast(ts, i, p) && a == Answer(ts[i], p)
  {
    hide Eval, Semantics.Each, Latest, OpNamed, Machine.Prepare;
    KnownSteps();
    Means("concurrence", atts, line, ts, p);
    if ts != [] && |ts| <= 10 {
      var os := Semantics.Each(ts, p);
      EachEvals(ts, p);
      AllDone(os);
      if Latest(os).Done? {
        var i := LatestIs(os);
        assert AnswersLast(ts, i, p);
      } else {
        var i :| 0 <= i < |os| && !os[i].Done?;
        assert Answer(ts[i], p) == None;
      }
    }
  }

  lemma EachEvals(ts: seq<Tree>, p: Payload)
    ensures |Semantics.Each(ts, p)| == |ts| && forall i :: 0 <= i < |ts| ==> Semantics.Each(ts, p)[i] == Eval(ts[i], p)
  {
    hide Eval, Semantics.Each, Semantics.Den;
    Semantics.EachIs(ts, p);
    forall i | 0 <= i < |ts| ensures Semantics.Each(ts, p)[i] == Eval(ts[i], p) { Semantics.EvalIsDen(ts[i], p); }
  }

  lemma {:induction false} LatestIs(os: seq<Outcome>) returns (i: nat)
    requires os != [] && forall j :: 0 <= j < |os| ==> os[j].Done?
    ensures i < |os| && Latest(os) == os[i]
    ensures forall j :: 0 <= j < |os| ==> if j > i then os[j].span < os[i].span else os[j].span <= os[i].span
  {
    if |os| == 1 { return 0; }
    var rest := os[1..];
    var k := LatestIs(rest);
    i := if rest[k].span >= os[0].span then k + 1 else 0;
    assert forall j :: 1 <= j < |os| ==> os[j] == rest[j - 1];
  }

  // --- words and lines -------------------------------------------------------------------------------------

  /** The words that are no values. */
  predicate Reserved(w: string) {
    w in {
      "sequence", "concurrence", "set", "val", "trace", "noop", "stall", "if", "unless", "elsif", "elif", "else", "ife",
      "unlesse", "and", "or", "+", "-", "*", "/", "==", "!=", ">", ">=", "<", "<=",
      "define", "call", "task", "wait", "log", "map", "cand", "cor", "=~", "!~"
    }
  }

  /** Any other word answers itself. */
  lemma WordAnswers(w: string, line: nat, p: Payload)
    requires !Reserved(w) && !IsSignal(w)
    ensures Answer(Tree(Word(w), [], line, []), p) == Some(p["ret" := Str(w)])
  {
    hide Answer, Eval;
    var t, u := Tree(Word(w), [], line, []), Tree(Word("val"), [Att(Index(0), Word(w))], line, []);
    Kept("val", u.atts, line, []);
    WordIsVal(w, line);
    ValAnswers(Str(w), [], line, [], p);
    assert u.atts + [] == u.atts;
    Semantics.EvalIsDen(t, p);
    Semantics.EvalIsDen(u, p);
    SamePrepared(t, u, p);
  }

  lemma WordIsVal(w: string, line: nat)
    requires !Reserved(w) && !IsSignal(w)
    ensures RewriteTree(Tree(Word(w), [], line, []))
         == Rewritten(Tree(Word("val"), [Att(Index(0), Word(w))], line, []), true)
  {
    hide Pinfixes;
    var u := Tree(Word("val"), [Att(Index(0), Word(w))], line, []);
    Kept("val", u.atts, line, []);
    QuietPlace(u.atts);
    OpsAreSignals();
    NoOperators(OPS, u);
  }

  /** Trees that are the same once rewritten answer the same. */
  lemma SamePrepared(t: Tree, u: Tree, p: Payload)
    requires Machine.Prepare(t).tree == Machine.Prepare(u).tree && Machine.Prepare(t).op == Machine.Prepare(u).op
    ensures Answer(t, p) == Answer(u, p)
  {
    hide Machine.Prepare, EvalNode;
    NodeOf(Machine.Prepare(t), Machine.Prepare(u), p);
  }

  lemma NodeOf(x: Machine.Prepared, y: Machine.Prepared, p: Payload)
    requires x.tree == y.tree && x.op == y.op
    ensures EvalNode(x, p) == EvalNode(y, p)
  {
    hide EvalFrom, Resume, Forks, Exe;
  }

  /** A line answers what it is worth. */
  lemma LineAnswers(ts: seq<Token>, line: nat, p: Payload)
    requires WellFormed(ts)
    ensures
      Answer(PartTree(ts, line), p)
      == match Worth(R.OPS, ts) case None => None case Some(v) => Some(p["ret" := v])
  {
    hide Eval, Semantics.Den, Worth, PartTree;
    Semantics.EvalIsDen(PartTree(ts, line), p);
    LineMeans(ts, line, p);
  }
}
