/** What a flow means, without nodes, ids or messages: a recursive evaluator over trees. */
module Evaluator {
  import opened Values
  import opened Trees
  import opened Rewriting
  import opened Instructions
  import Machine

  /** Done: the payload a tree answers with, and after how many turns of the whole queue. Never: no answer,
      because of an error, a stall, or a concurrence waiting for a child that was not found. */
  datatype Outcome = Done(payload: Payload, span: nat) | Never

  function Shift(o: Outcome, turns: nat): Outcome {
    match o case Done(p, span) => Done(p, span + turns) case Never => Never
  }

  /** Of two outcomes, the one that comes last; the second one when they come together. */
  function Later(a: Outcome, b: Outcome): Outcome {
    if a.Never? || b.Never? then Never else if b.span >= a.span then b else a
  }

  function Latest(os: seq<Outcome>): Outcome
    requires os != []
  {
    if |os| == 1 then os[0] else Later(os[0], Latest(os[1..]))
  }

  // --- the evaluator -----------------------------------------------------------------------------

  function Eval(t: Tree, p: Payload): Outcome
    decreases 2 * Weight(t), 0, 0
  {
    PrepareWeight(t);
    Shift(EvalNode(Machine.Prepare(t), p), 1)
  }

  /** A node whose tree is rewritten. */
  function EvalNode(u: Machine.Prepared, p: Payload): Outcome
    decreases 2 * TreesWeight(u.tree.children) + 1, |u.tree.children| + 2, 0
  {
    if Machine.Forks(u) then Shift(Latest(Forks(u.tree.children, |u.tree.children|, p)), 1)
    else
      var r := Exe(u.op, u.tree, p, u.tree.children != []);
      match r.verdict
      case Over => Resume(u.op, u.tree, r.rets, None, r.payload)
      case Ok => if r.next.Some? then EvalFrom(u.op, u.tree, 0, r.rets, r.payload) else Never
      case Error => Never
  }

  /** Child `i` on, with the rets collected so far. */
  function EvalFrom(op: Op, t: Tree, i: nat, rets: Option<seq<Value>>, p: Payload): Outcome
    requires i < |t.children|
    decreases 2 * TreesWeight(t.children) + 1, |t.children| - i, 1
  {
    ChildWeight(t.children, i);
    match Eval(t.children[i], p)
    case Done(q, span) => Shift(Resume(op, t, rets, Some(i), q), span)
    case Never => Never
  }

  /** The rest of a node from a message it receives: the answer of child `from`, or its own. */
  function Resume(op: Op, t: Tree, rets: Option<seq<Value>>, from: Option<nat>, p: Payload): Outcome
    requires from.Some? ==> from.value < |t.children|
    decreases 2 * TreesWeight(t.children) + 1, if from.Some? then |t.children| - from.value else |t.children| + 1, 0
  {
    var k := NextIndex(op, from, p);
    var r := Rcv(op, t, rets, from, p, k < |t.children|);
    match r.verdict
    case Over => Done(r.payload, 1)
    case Ok => if r.next.Some? then Shift(EvalFrom(op, t, k, r.rets, r.payload), 1) else Never
    case Error => Never
  }

  /** The outcomes of the first `n` children of a concurrence, each on the payload of the concurrence. */
  function Forks(ts: seq<Tree>, n: nat, p: Payload): (os: seq<Outcome>)
    ensures |os| == n
    ensures forall i :: 0 <= i < n ==> os[i] == Fork(ts, i, p)
    decreases 2 * TreesWeight(ts) + 1, |ts| + 1, n
  {
    if n == 0 then [] else Forks(ts, n - 1, p) + [Fork(ts, n - 1, p)]
  }

  function Fork(ts: seq<Tree>, i: nat, p: Payload): Outcome
    decreases 2 * TreesWeight(ts) + 1, |ts| + 1, i
  {
    var k := Machine.ConIndex(i);
    if k < |ts| then ChildWeight(ts, k); Eval(ts[k], p) else Never
  }

  lemma PrepareWeight(t: Tree)
    ensures TreesWeight(Machine.Prepare(t).tree.children) < Weight(t)
  {
    var r := RewriteTree(t);
    if r.Crash? {
      ChildrenWeight(t);
    } else {
      RewriteWeight(t);
      ChildrenWeight(r.tree);
    }
  }

  // --- counting ----------------------------------------------------------------------------------

  /** The nodes executed, those that are over as soon as they execute, and the messages handled. */
  datatype Tally = Tally(nodes: nat, direct: nat, msgs: nat)

  function Plus(a: Tally, b: Tally): Tally {
    a.(nodes := a.nodes + b.nodes, direct := a.direct + b.direct, msgs := a.msgs + b.msgs)
  }

  const NOTHING := Tally(0, 0, 0)
  const MESSAGE := Tally(0, 0, 1)
  const EXECUTED := Tally(1, 0, 1)
  const DIRECT := Tally(0, 1, 1)

  lemma PlusLaws(a: Tally, b: Tally, c: Tally)
    ensures Plus(Plus(a, b), c) == Plus(a, Plus(b, c))
    ensures Plus(a, NOTHING) == a == Plus(NOTHING, a)
    ensures Plus(a, b) == Plus(b, a)
  {
  }

  /** All that executing a tree costs, its own answer included. */
  function Count(t: Tree, p: Payload): Tally
    decreases 2 * Weight(t), 0, 0
  {
    PrepareWeight(t);
    Plus(EXECUTED, CountNode(Machine.Prepare(t), p))
  }

  function CountNode(u: Machine.Prepared, p: Payload): Tally
    decreases 2 * TreesWeight(u.tree.children) + 1, |u.tree.children| + 2, 0
  {
    if Machine.Forks(u) then
      var n := |u.tree.children|;
      Plus(CountForks(u.tree.children, n, p), if Latest(Forks(u.tree.children, n, p)).Done? then MESSAGE else NOTHING)
    else
      var r := Exe(u.op, u.tree, p, u.tree.children != []);
      match r.verdict
      case Over => Plus(DIRECT, CountResume(u.op, u.tree, r.rets, None, r.payload))
      case Ok => if r.next.Some? then CountFrom(u.op, u.tree, 0, r.rets, r.payload) else NOTHING
      case Error => MESSAGE
  }

  function CountFrom(op: Op, t: Tree, i: nat, rets: Option<seq<Value>>, p: Payload): Tally
    requires i < |t.children|
    decreases 2 * TreesWeight(t.children) + 1, |t.children| - i, 1
  {
    ChildWeight(t.children, i);
    var rest :=
      match Eval(t.children[i], p)
      case Done(q, _) => CountResume(op, t, rets, Some(i), q)
      case Never => NOTHING;
    Plus(Count(t.children[i], p), rest)
  }

  /** What a received message leads to, itself not included. */
  function CountResume(op: Op, t: Tree, rets: Option<seq<Value>>, from: Option<nat>, p: Payload): Tally
    requires from.Some? ==> from.value < |t.children|
    decreases 2 * TreesWeight(t.children) + 1, if from.Some? then |t.children| - from.value else |t.children| + 1, 0
  {
    var k := NextIndex(op, from, p);
    var r := Rcv(op, t, rets, from, p, k < |t.children|);
    if r.verdict.Ok? then (if r.next.Some? then CountFrom(op, t, k, r.rets, r.payload) else NOTHING) else MESSAGE
  }

  function CountForks(ts: seq<Tree>, n: nat, p: Payload): Tally
    decreases 2 * TreesWeight(ts) + 1, |ts| + 1, n
  {
    if n == 0 then NOTHING else Plus(CountForks(ts, n - 1, p), CountFork(ts, n - 1, p))
  }

  /** A child that is not found costs its rejected message. */
  function CountFork(ts: seq<Tree>, i: nat, p: Payload): Tally
    decreases 2 * TreesWeight(ts) + 1, |ts| + 1, i
  {
    var k := Machine.ConIndex(i);
    if k < |ts| then ChildWeight(ts, k); Count(ts[k], p) else MESSAGE
  }

  // --- a successful evaluation handles two messages a node, and one more for each direct one ------

  predicate Exact(c: Tally) { c.msgs == 2 * c.nodes + c.direct }

  lemma {:induction false} CountIsExact(t: Tree, p: Payload)
    requires Eval(t, p).Done?
    ensures Exact(Count(t, p))
    decreases 2 * Weight(t), 0, 0
  {
    PrepareWeight(t);
    CountNodeIsExact(Machine.Prepare(t), p);
  }

  lemma {:induction false} CountNodeIsExact(u: Machine.Prepared, p: Payload)
    requires EvalNode(u, p).Done?
    ensures var c := CountNode(u, p); c.msgs == 2 * c.nodes + c.direct + 1
    decreases 2 * TreesWeight(u.tree.children) + 1, |u.tree.children| + 2, 0
  {
    if Machine.Forks(u) {
      var n := |u.tree.children|;
      var os := Forks(u.tree.children, n, p);
      AllDone(os);
      assert forall i :: 0 <= i < n ==> os[i].Done? && os[i] == Fork(u.tree.children, i, p);
      CountForksIsExact(u.tree.children, n, p);
    } else {
      var r := Exe(u.op, u.tree, p, u.tree.children != []);
      if r.verdict.Over? {
        CountResumeIsExact(u.op, u.tree, r.rets, None, r.payload);
      } else {
        CountFromIsExact(u.op, u.tree, 0, r.rets, r.payload);
      }
    }
  }

  lemma {:induction false} CountFromIsExact(op: Op, t: Tree, i: nat, rets: Option<seq<Value>>, p: Payload)
    requires i < |t.children|
    requires EvalFrom(op, t, i, rets, p).Done?
    ensures var c := CountFrom(op, t, i, rets, p); c.msgs == 2 * c.nodes + c.direct + 1
    decreases 2 * TreesWeight(t.children) + 1, |t.children| - i, 1
  {
    ChildWeight(t.children, i);
    CountIsExact(t.children[i], p);
    CountResumeIsExact(op, t, rets, Some(i), Eval(t.children[i], p).payload);
  }

  lemma {:induction false} CountResumeIsExact(op: Op, t: Tree, rets: Option<seq<Value>>, from: Option<nat>, p: Payload)
    requires from.Some? ==> from.value < |t.children|
    requires Resume(op, t, rets, from, p).Done?
    ensures var c := CountResume(op, t, rets, from, p); c.msgs == 2 * c.nodes + c.direct + 1
    decreases 2 * TreesWeight(t.children) + 1, if from.Some? then |t.children| - from.value else |t.children| + 1, 0
  {
    var k := NextIndex(op, from, p);
    var r := Rcv(op, t, rets, from, p, k < |t.children|);
    if r.verdict.Ok? {
      CountFromIsExact(op, t, k, r.rets, r.payload);
    }
  }

  lemma {:induction false} AllDone(os: seq<Outcome>)
    requires os != []
    ensures Latest(os).Done? <==> forall i :: 0 <= i < |os| ==> os[i].Done?
  {
    if |os| > 1 {
      AllDone(os[1..]);
      assert forall i :: 1 <= i < |os| ==> os[i] == os[1..][i - 1];
    }
  }

  lemma {:induction false} CountForksIsExact(ts: seq<Tree>, n: nat, p: Payload)
    requires forall i :: 0 <= i < n ==> Fork(ts, i, p).Done?
    ensures Exact(CountForks(ts, n, p))
    decreases 2 * TreesWeight(ts) + 1, |ts| + 1, n
  {
    if n > 0 {
      CountForksIsExact(ts, n - 1, p);
      assert Fork(ts, n - 1, p).Done?;
      var k := Machine.ConIndex(n - 1);
      ChildWeight(ts, k);
      CountIsExact(ts[k], p);
    }
  }
}
