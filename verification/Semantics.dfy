/** The meaning of each instruction in plain terms: no messages, no indexes, no reactions. Module Runs shows
    that the engine computes Eval; this module shows that Eval is this. */
module Semantics {
  import opened Values
  import opened Trees
  import opened Rewriting
  import opened Instructions
  import opened Evaluator
  import Machine
  import Stepping

  const WIDEST := 10  // the largest concurrence that joins

  // --- the semantics -------------------------------------------------------------------------------

  /** A node that is over as soon as it executes. */
  function Direct(p: Payload): Outcome { Done(p, 2) }

  function Den(t: Tree, p: Payload): Outcome
    decreases 2 * Weight(t), 0
  {
    PrepareWeight(t);
    var u := Machine.Prepare(t);
    var ts := u.tree.children;
    match u.op
    case Sequence => InTurn(ts, p)
    case And => if ts == [] then Direct(p) else Shift(Until(ts, false, p), 1)
    case Or => if ts == [] then Direct(p) else Shift(Until(ts, true, p), 1)
    case Arith(sign) =>
      if ts == [] then Total(sign, Collect(None, p), Direct(p))
      else var (o, rets) := Gather(ts, p, []); Total(sign, rets, Shift(o, 1))
    case Cmp(rel) =>
      if ts == [] then Compared(rel, Collect(None, p), Direct(p))
      else var (o, rets) := Gather(ts, p, []); Compared(rel, rets, Shift(o, 1))
    case If => Guarded(ts, false, p)
    case Unless => Guarded(ts, true, p)
    case Elsif => if RetIsFalse(p) then Guarded(ts, false, p) else Direct(p)
    case Else => if RetIsFalse(p) then InTurn(ts, p) else Direct(p)
    case Ife => Choice(ts, false, p)
    case Unlesse => Choice(ts, true, p)
    case Set => if ts == [] then Assigned(u.tree, Direct(p)) else Assigned(u.tree, Shift(Den(ts[0], p), 2))
    case Concurrence =>
      if ts == [] then Direct(p) else if |ts| > WIDEST then Never
      else Shift(Latest(Each(ts, p)), 2)
    case Val => Direct(ExeVal(u.tree, p))
    case Trace => Direct(ExeTrace(u.tree, p))
    case Noop => Direct(p)
    case Stall | Unknown => Never
  }

  /** Each tree on the payload of the one before it. */
  function Run(ts: seq<Tree>, p: Payload): Outcome
    decreases 2 * TreesWeight(ts) + 1, |ts|
  {
    if ts == [] then Done(p, 0) else
    match Den(ts[0], p)
    case Done(q, span) => Shift(Run(ts[1..], q), span + 1)
    case Never => Never
  }

  function InTurn(ts: seq<Tree>, p: Payload): Outcome
    decreases 2 * TreesWeight(ts) + 1, |ts| + 1
  {
    if ts == [] then Direct(p) else Shift(Run(ts, p), 1)
  }

  /** In turn until one answers with the truth `stop`; the answer is a boolean. */
  function Until(ts: seq<Tree>, stop: bool, p: Payload): Outcome
    decreases 2 * TreesWeight(ts) + 1, |ts|
  {
    if ts == [] then Done(p, 0) else
    match Den(ts[0], p)
    case Done(q, span) =>
      var b := Truth(q);
      var r := WithRet(q, Bool(b));
      if b == stop then Done(r, span + 1) else Shift(Until(ts[1..], stop, r), span + 1)
    case Never => Never
  }

  function Collect(rets: Option<seq<Value>>, p: Payload): seq<Value> {
    (if rets.Some? then rets.value else []) + if "ret" in p then [p["ret"]] else []
  }

  /** In turn, with the ret of each. */
  function Gather(ts: seq<Tree>, p: Payload, rets: seq<Value>): (Outcome, seq<Value>)
    decreases 2 * TreesWeight(ts) + 1, |ts|
  {
    if ts == [] then (Done(p, 0), rets) else
    match Den(ts[0], p)
    case Done(q, span) =>
      var (o, all) := Gather(ts[1..], q, Collect(Some(rets), q));
      (Shift(o, span + 1), all)
    case Never => (Never, rets)
  }

  /** The fold of the rets becomes the ret. */
  function Total(sign: char, rets: seq<Value>, o: Outcome): Outcome {
    match o
    case Done(p, span) =>
      if Doubles(rets) || Fold(sign, rets).None? then Never
      else Done(WithRet(p, IntValue(Wrap32(Fold(sign, rets).value))), span)
    case Never => Never
  }

  function Compared(rel: string, rets: seq<Value>, o: Outcome): Outcome {
    match o
    case Done(p, span) => Done(WithRet(p, Bool(Chain(rel, rets))), span)
    case Never => Never
  }

  /** The first tree guards the others. */
  function Guarded(ts: seq<Tree>, negated: bool, p: Payload): Outcome
    decreases 2 * TreesWeight(ts) + 1, |ts|
  {
    if ts == [] then Direct(p) else
    match Den(ts[0], p)
    case Done(q, span) =>
      var go := Truth(q) != negated;
      var r := if negated then WithRet(q, Bool(go)) else q;
      if go then Shift(Run(ts[1..], r), span + 2) else Done(r, span + 2)
    case Never => Never
  }

  /** The first tree chooses between the next two; a branch that is not there changes nothing. */
  function Choice(ts: seq<Tree>, negated: bool, p: Payload): Outcome
    decreases 2 * TreesWeight(ts) + 1, |ts|
  {
    if ts == [] then Direct(p) else
    match Den(ts[0], p)
    case Done(q, span) =>
      var yes := Truth(q) != negated;
      var r := WithRet(q, Bool(yes));
      var k := if yes then 1 else 2;
      if k < |ts| then ChildWeight(ts, k); Shift(Den(ts[k], r), span + 3) else Done(r, span + 2)
    case Never => Never
  }

  function Assigned(t: Tree, o: Outcome): Outcome {
    if o.Never? then Never else
    match SetTarget(t)
    case Skip => o
    case Outside => Never
    case Field(name) => o.(payload := SetField(name, o.payload))
  }

  /** Each tree on the same payload. */
  function Each(ts: seq<Tree>, p: Payload): seq<Outcome>
    decreases 2 * TreesWeight(ts) + 1, |ts|
  {
    if ts == [] then [] else [Den(ts[0], p)] + Each(ts[1..], p)
  }

  lemma {:induction false} EachIs(ts: seq<Tree>, p: Payload)
    ensures |Each(ts, p)| == |ts| && forall i :: 0 <= i < |ts| ==> Each(ts, p)[i] == Den(ts[i], p)
  {
    hide Den;
    if ts != [] {
      EachIs(ts[1..], p);
    }
  }

  // --- the evaluator computes it ---------------------------------------------------------------------

  lemma {:induction false} EvalIsDen(t: Tree, p: Payload)
    ensures Eval(t, p) == Den(t, p)
    decreases 2 * Weight(t), 0
  {
    hide RewriteTree, OpOf, SetTarget, Fold, Chain, Doubles, ExeVal, ExeTrace, EvalNode, EvalFrom, Resume;
    PrepareWeight(t);
    var u := Machine.Prepare(t);
    var ts := u.tree.children;
    assert ts != [] ==> ts[0..] == ts;
    if u.op == Concurrence && ts != [] {
      ForkNode(u, p);
      EachJoins(ts, p);
    } else {
      var r := Exe(u.op, u.tree, p, ts != []);
      PlainNode(u, p);
      if r.next.Some? {
        match u.op {
          case Sequence | Else => RunIs(u.op, u.tree, 0, None, p);
          case And | Or => UntilIs(u.op, u.tree, 0, None, p);
          case Arith(_) | Cmp(_) => GatherIs(u.op, u.tree, 0, [], p);
          case If | Unless | Elsif => GuardedIs(u.op, u.tree, p);
          case Ife | Unlesse => ChoiceIs(u.op, u.tree, p);
          case Set => AssignedIs(u.tree, p);
          case _ =>
        }
      }
    }
  }

  lemma ForkNode(u: Machine.Prepared, p: Payload)
    requires Machine.Forks(u)
    ensures EvalNode(u, p) == Shift(Latest(Forks(u.tree.children, |u.tree.children|, p)), 1)
  {
  }

  /** A node that does not fork, as its instruction leaves it: over, waiting for child 0, or for nothing. */
  lemma PlainNode(u: Machine.Prepared, p: Payload)
    requires !Machine.Forks(u)
    ensures
      var r := Exe(u.op, u.tree, p, u.tree.children != []);
      match r.verdict
      case Ok => EvalNode(u, p) == if r.next.Some? then EvalFrom(u.op, u.tree, 0, r.rets, r.payload) else Never
      case Error => EvalNode(u, p) == Never
      case Over => Shift(EvalNode(u, p), 1) == AloneAnswer(u.op, u.tree, r.payload, p)
  {
    hide ExeVal, ExeTrace, EvalFrom, Fold, Chain, Doubles, Wrap32, IntValue, SetTarget;
    var r := Exe(u.op, u.tree, p, u.tree.children != []);
    if r.verdict.Over? {
      Alone(u.op, u.tree, r, p);
      assert EvalNode(u, p) == Resume(u.op, u.tree, r.rets, None, r.payload);
    }
  }

  /** The answer of a node that starts no child; `q` is the payload as its instruction left it. */
  function AloneAnswer(op: Op, t: Tree, q: Payload, p: Payload): Outcome {
    match op
    case Arith(_) | Cmp(_) => Finished(op, Collect(None, p), Direct(p))
    case Set => Assigned(t, Direct(p))
    case _ => Direct(q)
  }

  lemma Alone(op: Op, t: Tree, r: Reaction, p: Payload)
    requires r == Exe(op, t, p, t.children != []) && r.verdict.Over?
    ensures Shift(Resume(op, t, r.rets, None, r.payload), 1) == AloneAnswer(op, t, r.payload, p)
  {
    hide ExeVal, ExeTrace, EvalFrom, Fold, Chain, Doubles, Wrap32, IntValue, SetTarget;
    assert Collect(Some([]), p) == Collect(None, p);
  }

  /** A message received after child `i` by an instruction that runs its children in turn. */
  lemma AfterRun(op: Op, t: Tree, i: nat, q: Payload)
    requires op == Sequence || op == Op.Else || (op in {If, Unless, Elsif} && i > 0)
    ensures Resume.requires(op, t, None, Some(i), q) ==>
      Resume(op, t, None, Some(i), q) ==
      if i + 1 < |t.children| then Shift(EvalFrom(op, t, i + 1, None, q), 1) else Done(q, 1)
  {
  }

  lemma {:induction false} RunIs(op: Op, t: Tree, i: nat, rets: Option<seq<Value>>, p: Payload)
    requires i < |t.children|
    requires op == Sequence || op == Op.Else || (op in {If, Unless, Elsif} && i > 0)
    requires rets == None
    ensures EvalFrom(op, t, i, rets, p) == Run(t.children[i..], p)
    decreases 2 * TreesWeight(t.children) + 1, |t.children| - i
  {
    hide Eval, Den, Resume;
    ChildWeight(t.children, i);
    EvalIsDen(t.children[i], p);
    var rest := t.children[i..];
    assert rest[0] == t.children[i] && rest[1..] == t.children[i + 1..];
    var o := Eval(t.children[i], p);
    if o.Done? {
      AfterRun(op, t, i, o.payload);
    }
    if o.Done? && i + 1 < |t.children| {
      RunIs(op, t, i + 1, rets, o.payload);
    }
  }

  lemma AfterUntil(op: Op, t: Tree, i: nat, q: Payload)
    requires op in {And, Or} && i < |t.children|
    ensures
      var b := Truth(q);
      var r := WithRet(q, Bool(b));
      Resume(op, t, None, Some(i), q) ==
      if b == (op == Or) || i + 1 >= |t.children| then Done(r, 1) else Shift(EvalFrom(op, t, i + 1, None, r), 1)
  {
    hide EvalFrom;
  }

  lemma {:induction false} UntilIs(op: Op, t: Tree, i: nat, rets: Option<seq<Value>>, p: Payload)
    requires i < |t.children| && op in {And, Or} && rets == None
    ensures EvalFrom(op, t, i, rets, p) == Until(t.children[i..], op == Or, p)
    decreases 2 * TreesWeight(t.children) + 1, |t.children| - i
  {
    hide Eval, Den, Resume, Truth, WithRet;
    ChildWeight(t.children, i);
    EvalIsDen(t.children[i], p);
    var rest := t.children[i..];
    assert rest[0] == t.children[i] && rest[1..] == t.children[i + 1..];
    var o := Eval(t.children[i], p);
    if o.Done? {
      AfterUntil(op, t, i, o.payload);
    }
    if o.Done? && i + 1 < |t.children| && Truth(o.payload) != (op == Or) {
      UntilIs(op, t, i + 1, rets, WithRet(o.payload, Bool(Truth(o.payload))));
    }
  }

  /** What an arithmetic or comparison instruction makes of the rets of its children. */
  function Finished(op: Op, rets: seq<Value>, o: Outcome): Outcome
    requires op.Arith? || op.Cmp?
  {
    match op case Arith(sign) => Total(sign, rets, o) case Cmp(rel) => Compared(rel, rets, o)
  }

  lemma AfterGather(op: Op, t: Tree, i: nat, rets: seq<Value>, q: Payload)
    requires (op.Arith? || op.Cmp?) && i < |t.children|
    ensures
      var all := Collect(Some(rets), q);
      Resume(op, t, Some(rets), Some(i), q) ==
      if i + 1 < |t.children| then Shift(EvalFrom(op, t, i + 1, Some(all), q), 1) else Finished(op, all, Done(q, 1))
  {
    hide EvalFrom, Fold, Chain, Doubles, Wrap32, IntValue;
    assert Collect(Some(rets), q) == if "ret" in q then rets + [q["ret"]] else rets;
  }

  lemma {:induction false} GatherIs(op: Op, t: Tree, i: nat, rets: seq<Value>, p: Payload)
    requires i < |t.children| && (op.Arith? || op.Cmp?)
    ensures
      var (o, all) := Gather(t.children[i..], p, rets);
      EvalFrom(op, t, i, Some(rets), p) == Finished(op, all, o)
    decreases 2 * TreesWeight(t.children) + 1, |t.children| - i
  {
    hide Eval, Den, Resume, Fold, Chain, Doubles, Wrap32, IntValue, WithRet;
    ChildWeight(t.children, i);
    EvalIsDen(t.children[i], p);
    var rest := t.children[i..];
    assert rest[0] == t.children[i] && rest[1..] == t.children[i + 1..];
    var o := Eval(t.children[i], p);
    if o.Done? {
      AfterGather(op, t, i, rets, o.payload);
    }
    if o.Done? && i + 1 < |t.children| {
      GatherIs(op, t, i + 1, Collect(Some(rets), o.payload), o.payload);
    }
  }

  lemma {:induction false} GuardedIs(op: Op, t: Tree, p: Payload)
    requires t.children != [] && op in {If, Unless, Elsif}
    ensures Shift(EvalFrom(op, t, 0, None, p), 1) == Guarded(t.children, op == Unless, p)
    decreases 2 * TreesWeight(t.children) + 1, |t.children|
  {
    hide Eval, Den, Truth, WithRet, Resume;
    ChildWeight(t.children, 0);
    EvalIsDen(t.children[0], p);
    var o := Eval(t.children[0], p);
    if o.Done? {
      Guards(op, t, o.payload);
      if 1 < |t.children| {
        var go := Truth(o.payload) != (op == Unless);
        var r := if op == Unless then WithRet(o.payload, Bool(go)) else o.payload;
        RunIs(op, t, 1, None, r);
      }
    }
  }

  /** The answer of the condition lets the rest run, or not. */
  lemma Guards(op: Op, t: Tree, q: Payload)
    requires t.children != [] && op in {If, Unless, Elsif}
    ensures
      var go := Truth(q) != (op == Unless);
      var r := if op == Unless then WithRet(q, Bool(go)) else q;
      Resume(op, t, None, Some(0), q)
      == if go && 1 < |t.children| then Shift(EvalFrom(op, t, 1, None, r), 1) else Done(r, 1)
  {
    hide Eval, EvalFrom, Truth, WithRet;
  }

  lemma {:induction false} ChoiceIs(op: Op, t: Tree, p: Payload)
    requires t.children != [] && op in {Ife, Unlesse}
    ensures Shift(EvalFrom(op, t, 0, None, p), 1) == Choice(t.children, op == Unlesse, p)
    decreases 2 * TreesWeight(t.children) + 1, |t.children|
  {
    hide Eval, Den, Truth, WithRet, Resume;
    ChildWeight(t.children, 0);
    EvalIsDen(t.children[0], p);
    var o := Eval(t.children[0], p);
    if o.Done? {
      var yes := Truth(o.payload) != (op == Unlesse);
      var k, r := if yes then 1 else 2, WithRet(o.payload, Bool(yes));
      Chooses(op, t, o.payload);
      if k < |t.children| {
        ChildWeight(t.children, k);
        EvalIsDen(t.children[k], r);
        BranchEnds(op, t, k, r);
      }
    }
  }

  /** The answer of the condition chooses the branch. */
  lemma Chooses(op: Op, t: Tree, q: Payload)
    requires t.children != [] && op in {Ife, Unlesse}
    ensures
      var yes := Truth(q) != (op == Unlesse);
      var k, r := if yes then 1 else 2, WithRet(q, Bool(yes));
      Resume(op, t, None, Some(0), q)
      == if k < |t.children| then Shift(EvalFrom(op, t, k, None, r), 1) else Done(r, 1)
  {
    hide Eval, EvalFrom, Truth, WithRet;
  }

  /** The answer of a branch is that of the node. */
  lemma BranchEnds(op: Op, t: Tree, k: nat, r: Payload)
    requires op in {Ife, Unlesse} && 1 <= k < |t.children|
    ensures EvalFrom(op, t, k, None, r) == Shift(Eval(t.children[k], r), 1)
  {
    hide Eval, Truth, WithRet;
  }

  lemma {:induction false} AssignedIs(t: Tree, p: Payload)
    requires t.children != []
    ensures Shift(EvalFrom(Set, t, 0, None, p), 1) == Assigned(t, Shift(Den(t.children[0], p), 2))
    decreases 2 * TreesWeight(t.children) + 1, |t.children|
  {
    hide Eval, Den, SetTarget;
    ChildWeight(t.children, 0);
    EvalIsDen(t.children[0], p);
  }

  /** A concurrence joins if it has at most ten children; any eleventh one is looked up under a wrong index. */
  lemma {:induction false} EachJoins(ts: seq<Tree>, p: Payload)
    requires ts != []
    ensures Latest(Forks(ts, |ts|, p)) == if |ts| > WIDEST then Never else Latest(Each(ts, p))
    decreases 2 * TreesWeight(ts) + 1, |ts|
  {
    hide Eval, Den, Machine.ConIndex, Latest;
    var os := Forks(ts, |ts|, p);
    if |ts| > WIDEST {
      Stepping.ConIndexAbove(|ts| - 1);
      AllDone(os);
      assert os[|ts| - 1] == Fork(ts, |ts| - 1, p) == Never;
    } else {
      EachIs(ts, p);
      forall i | 0 <= i < |ts| ensures os[i] == Each(ts, p)[i] {
        ChildWeight(ts, i);
        SmallIndex(i);
        EvalIsDen(ts[i], p);
      }
      assert os == Each(ts, p);
    }
  }

  lemma SmallIndex(i: nat)
    requires i < 10
    ensures Machine.ConIndex(i) == i
  {
  }
}
