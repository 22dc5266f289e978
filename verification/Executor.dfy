/** The execution engine as it is run: `execution` and `msgs` changed in place by every handler, proved to be
    the functions of module Machine, and the loop of flon_execut proved to return what the evaluator says. */
module Executor {
  import opened Values
  import opened Trees
  import opened Instructions
  import opened Machine
  import Rewriter
  import Rewriting
  import Simulation
  import Evaluator
  import Semantics
  import Runs
  import Invariants

  function NextNid(from: Nid, count: nat): Nid { Chop(from) + [Last(from) + count] }

  /** A message to a node comes from itself or from one of its children. */
  predicate FromFamily(nid: Nid, from: Nid) { from == nid || from == nid + [Last(from)] }

  // --- what an instruction does to a state ---------------------------------------------------------

  /** The node settled, its next child queued. */
  function After(s: State, nid: Nid, r: Reaction, kids: Option<seq<Nid>>): State
    requires nid in s.nodes
  {
    State(s.nodes[nid := Settled(s.nodes[nid], r, kids)], s.msgs + NextMsgs(nid, r))
  }

  predicate Untouched(node: Node) { node.children.None? && node.rets.None? && !node.failed }

  /** From `s`, an execute message for `nid` leads to `u`, with the verdict `v` and the payload `q`. */
  predicate Executes(s: State, nid: Nid, t: Tree, p: Payload, u: State, v: Verdict, q: Payload)
    requires nid in s.nodes
  {
    var op := s.nodes[nid].op;
    if op == Concurrence && t.children != [] then
      u == ForkIn(s, nid, s.nodes[nid], t, p) && v == Ok && q == p
    else
      var r := Exe(op, t, p, Found(s.nodes, nid + [0]));
      u == After(s, nid, r, ExeKids(op, t, p, nid, r.next)) && v == r.verdict && q == r.payload
  }

  /** The same for a receive message. */
  predicate Receives(s: State, nid: Nid, from: Nid, p: Payload, u: State, v: Verdict, q: Payload)
    requires nid in s.nodes
  {
    var (r, kids) := Receiving(s.nodes, nid, from, p);
    u == After(s, nid, r, kids) && v == r.verdict && q == r.payload
  }

  /** How an arithmetic instruction ends, once it has the rets of all its children. */
  function ArithEnd(sign: char, rets: seq<Value>, p: Payload): (Verdict, Payload) {
    if Doubles(rets) then (Error, p) else
    var r := Fold(sign, rets);
    if r.None? then (Error, WithRet(p, IntValue(Wrap32(0)))) else (Over, WithRet(p, IntValue(Wrap32(r.value))))
  }

  /** Lookups only depend on the parents and on the trees of the nodes. */
  lemma {:induction false} SameLookups(m: Nodes, n: Nodes, id: Nid)
    requires m.Keys == n.Keys
    requires forall k :: k in m ==> m[k].tree == n[k].tree && m[k].parent == n[k].parent
    ensures NodeTree(m, id) == NodeTree(n, id)
    decreases |id|
  {
    if id in m && m[id].parent.Some? && |m[id].parent.value| < |id| {
      SameLookups(m, n, m[id].parent.value);
    }
    if |id| > 1 {
      SameLookups(m, n, Chop(id));
    }
  }

  lemma NodeChanged(m: Nodes, nid: Nid, node: Node, id: Nid)
    requires nid in m && node.tree == m[nid].tree && node.parent == m[nid].parent
    ensures NodeTree(m[nid := node], id) == NodeTree(m, id)
  {
    assert m[nid := node].Keys == m.Keys;
    SameLookups(m[nid := node], m, id);
  }

  class Execution {
    var nodes: Nodes
    var msgs: seq<Msg>

    function Now(): State
      reads this
    {
      State(nodes, msgs)
    }

    constructor ()
      ensures nodes == map[] && msgs == []
    {
      nodes, msgs := map[], [];
    }

    method QueueMsg(m: Msg)
      modifies `msgs
      ensures msgs == old(msgs) + [m]
    {
      msgs := msgs + [m];
    }

    method QueueChildExecute(nid: Nid, next: Nid, p: Payload)
      requires nid in nodes
      modifies this
      ensures var kids := old(nodes)[nid].children;
        nodes == old(nodes)[nid := old(nodes)[nid].(children := Some((if kids.Some? then kids.value else []) + [next]))]
      ensures msgs == old(msgs) + [Execute(next, Some(nid), None, p)]
    {
      if nodes[nid].children.None? {
        nodes := nodes[nid := nodes[nid].(children := Some([]))];
      }
      QueueMsg(Execute(next, Some(nid), None, p));
      nodes := nodes[nid := nodes[nid].(children := Some(nodes[nid].children.value + [next]))];
    }

    // --- sequences ---------------------------------------------------------------------------------

    /** seq_rcv; `from` is None for an execute message. */
    method SeqRcv(nid: Nid, from: Option<Nid>, p: Payload) returns (v: Verdict)
      requires nid in nodes && (from.Some? ==> FromFamily(nid, from.value))
      modifies this
      ensures
        var node := old(nodes)[nid];
        var k := if from.None? || from.value == nid then 0 else Last(from.value) + 1;
        var r := Instructions.SeqRcv(p, node.rets, k, Found(old(nodes), nid + [k]));
        var kept := if node.children.Some? then Some(DropFirst(node.children.value)) else None;
        var kids := if r.next.None? then kept else Some((if kept.Some? then kept.value else []) + [nid + [k]]);
        v == r.verdict
        && Now() == After(old(Now()), nid, if from.Some? then r else r.(rets := node.rets), kids)
    {
      hide NodeTree;
      var children := nodes[nid].children;
      if children.Some? {
        nodes := nodes[nid := nodes[nid].(children := Some(DropFirst(children.value)))];
      }
      if from.Some? && nodes[nid].rets.Some? && "ret" in p {
        nodes := nodes[nid := nodes[nid].(rets := Some(nodes[nid].rets.value + [p["ret"]]))];
      }
      var next := if from.None? || from.value == nid then nid + [0] else NextNid(from.value, 1);
      var t := NodeTree(nodes, next);
      NodeChanged(old(nodes), nid, nodes[nid], next);
      assert nodes == old(nodes)[nid := nodes[nid]];
      assert from.Some? && from.value != nid ==> Chop(from.value) == nid;
      v := Over;
      if t.Some? {
        QueueChildExecute(nid, next, p);
        v := Ok;
      }
      assert nodes == old(nodes)[nid := nodes[nid]];
    }

    /** seq_exe. */
    method SeqExe(nid: Nid, t: Tree, p: Payload, trackRet: bool) returns (v: Verdict)
      requires nid in nodes && Untouched(nodes[nid])
      modifies this
      ensures
        var r := Instructions.SeqExe(t, p, if trackRet then Some([]) else None, Found(old(nodes), nid + [0]));
        v == r.verdict
        && Now() == After(old(Now()), nid, r, Some(if r.next.Some? then [nid + [0]] else []))
    {
      nodes := nodes[nid := nodes[nid].(children := Some([]))];
      if trackRet {
        nodes := nodes[nid := nodes[nid].(rets := Some([]))];
      }
      NodeChanged(old(nodes), nid, nodes[nid], nid + [0]);
      assert nodes == old(nodes)[nid := nodes[nid]];
      v := Over;
      if t.children != [] {
        v := SeqRcv(nid, None, p);
        assert [] + [nid + [0]] == [nid + [0]];
      }
      assert nodes == old(nodes)[nid := nodes[nid]];
      assert msgs + [] == msgs;
    }

    // --- concurrences ------------------------------------------------------------------------------

    /** con_exe over at least one child. */
    method ConExe(nid: Nid, t: Tree, p: Payload) returns (v: Verdict)
      requires nid in nodes && nodes[nid].op == Concurrence && Untouched(nodes[nid])
      modifies this
      ensures Executes(old(Now()), nid, t, p, Now(), v, p)
    {
      hide ConIndex, NodeTree, Found;
      var cts := t.children;
      if |cts| < 1 { return Over; }
      var i := 0;
      while i < |cts|
        invariant i <= |cts|
        invariant nodes == if i == 0 then old(nodes) else old(nodes)[nid := old(nodes)[nid].(children := Some(ConIds(nid, i)))]
        invariant msgs == old(msgs) + ConMsgs(nid, i, p)
      {
        var cnid := nid + [ConIndex(i)];
        QueueChildExecute(nid, cnid, p);
        assert ConIds(nid, i + 1) == ConIds(nid, i) + [cnid];
        assert i == 0 ==> ConIds(nid, 0) == [];
        i := i + 1;
      }
      return Ok;
    }

    /** con_rcv. */
    method ConRcv(nid: Nid, from: Nid, p: Payload) returns (v: Verdict)
      requires nid in nodes && nodes[nid].op == Concurrence
      modifies this
      ensures Receives(old(Now()), nid, from, p, Now(), v, p)
    {
      var children := nodes[nid].children;
      if children.None? {
        assert nodes[nid := nodes[nid]] == nodes;
        return Over;
      }
      nodes := nodes[nid := nodes[nid].(children := Some(Remove(children.value, from)))];
      if nodes[nid].children.value == [] { return Over; }
      return Ok;
    }

    // --- branches ----------------------------------------------------------------------------------

    /** Leaves the node as it is. */
    method Pass(nid: Nid)
      requires nid in nodes
      ensures nodes == old(nodes)[nid := old(nodes)[nid]] && msgs == old(msgs) + []
    {
      assert nodes[nid := nodes[nid]] == nodes;
    }

    /** Queues child 0. */
    method QueueFirst(nid: Nid, p: Payload)
      requires nid in nodes && Untouched(nodes[nid])
      modifies this
      ensures nodes == old(nodes)[nid := old(nodes)[nid].(children := Some([nid + [0]]))]
      ensures msgs == old(msgs) + [Execute(nid + [0], Some(nid), None, p)]
    {
      QueueChildExecute(nid, nid + [0], p);
      assert [] + [nid + [0]] == [nid + [0]];
    }

    /** exe_if, for `if`, `unless` and `elsif`. */
    method ExeIf(nid: Nid, t: Tree, p: Payload) returns (v: Verdict)
      requires nid in nodes && nodes[nid].op in {If, Unless, Elsif} && Untouched(nodes[nid])
      modifies this
      ensures Executes(old(Now()), nid, t, p, Now(), v, p)
    {
      hide NodeTree;
      Pass(nid);
      if t.children == [] { return Over; }
      if nodes[nid].op == Elsif && !RetIsFalse(p) { return Over; }
      QueueFirst(nid, p);
      return Ok;
    }

    /** Queues the child `count` places after `from`, if it is found. */
    method QueueNext(nid: Nid, from: Nid, count: nat, p: Payload) returns (v: Verdict)
      requires nid in nodes && from == nid + [Last(from)]
      modifies this
      ensures
        var k := Last(from) + count;
        var found := Found(old(nodes), nid + [k]);
        var kids := old(nodes)[nid].children;
        v == (if found then Ok else Over)
        && nodes == old(nodes)[nid := old(nodes)[nid].(
             children := if found then Some((if kids.Some? then kids.value else []) + [nid + [k]]) else kids)]
        && msgs == old(msgs) + if found then [Execute(nid + [k], Some(nid), None, p)] else []
    {
      hide NodeTree;
      var next := NextNid(from, count);
      assert Chop(from) == nid;
      Pass(nid);
      v := Over;
      if NodeTree(nodes, next).Some? {
        QueueChildExecute(nid, next, p);
        v := Ok;
      }
    }

    /** rcv_if. */
    method RcvIf(nid: Nid, from: Nid, p: Payload) returns (v: Verdict, q: Payload)
      requires nid in nodes && nodes[nid].op in {If, Unless, Elsif} && FromFamily(nid, from)
      modifies this
      ensures Receives(old(Now()), nid, from, p, Now(), v, q)
    {
      hide NodeTree, Found, TreeOf, WithRet, Truth;
      q := p;
      Pass(nid);
      if from == nid { return Over, q; }
      var conditional := nid + [0];
      assert from == conditional <==> Last(from) == 0;
      var then_ := true;
      if from == conditional {
        then_ := Truth(p);
        if nodes[nid].op == Unless {
          then_ := !then_;
          q := WithRet(q, Bool(then_));
        }
      }
      v := Over;
      if then_ {
        v := QueueNext(nid, from, 1, q);
      }
    }

    /** exe_ife. */
    method ExeIfe(nid: Nid, t: Tree, p: Payload) returns (v: Verdict)
      requires nid in nodes && nodes[nid].op in {Ife, Unlesse} && Untouched(nodes[nid])
      modifies this
      ensures Executes(old(Now()), nid, t, p, Now(), v, p)
    {
      hide NodeTree;
      Pass(nid);
      if t.children == [] { return Over; }
      QueueFirst(nid, p);
      return Ok;
    }

    /** rcv_ife. */
    method RcvIfe(nid: Nid, from: Nid, p: Payload) returns (v: Verdict, q: Payload)
      requires nid in nodes && nodes[nid].op in {Ife, Unlesse} && FromFamily(nid, from)
      modifies this
      ensures Receives(old(Now()), nid, from, p, Now(), v, q)
    {
      hide NodeTree;
      q := p;
      Pass(nid);
      var conditional := nid + [0];
      assert from != nid ==> (from == conditional <==> Last(from) == 0);
      assert |nid| != |conditional|;
      if from != conditional { return Over, q; }
      var ret := Truth(p);
      if nodes[nid].op != Ife { ret := !ret; }
      var branch := if ret then 1 else 2;
      q := WithRet(q, Bool(ret));
      v := QueueNext(nid, from, branch, q);
    }

    /** exe_else. */
    method ExeElse(nid: Nid, t: Tree, p: Payload) returns (v: Verdict)
      requires nid in nodes && nodes[nid].op == Else && Untouched(nodes[nid])
      modifies this
      ensures Executes(old(Now()), nid, t, p, Now(), v, p)
    {
      hide NodeTree;
      Pass(nid);
      if t.children == [] { return Over; }
      if !RetIsFalse(p) { return Over; }
      v := SeqExe(nid, t, p, false);
    }

    /** rcv_else. */
    method RcvElse(nid: Nid, from: Nid, p: Payload) returns (v: Verdict)
      requires nid in nodes && nodes[nid].op == Else && FromFamily(nid, from)
      modifies this
      ensures Receives(old(Now()), nid, from, p, Now(), v, p)
    {
      hide NodeTree;
      Pass(nid);
      if from == nid { return Over; }
      v := SeqRcv(nid, Some(from), p);
    }

    // --- instructions over the rets of their children --------------------------------------------------

    /** rcv_and, for `and` and `or`. */
    method RcvAnd(nid: Nid, from: Nid, p: Payload) returns (v: Verdict, q: Payload)
      requires nid in nodes && nodes[nid].op in {And, Or} && FromFamily(nid, from)
      modifies this
      ensures Receives(old(Now()), nid, from, p, Now(), v, q)
    {
      hide NodeTree;
      q := p;
      Pass(nid);
      if from == nid {
        v := SeqRcv(nid, Some(from), p);
        return;
      }
      var ret := Truth(p);
      v := Ok;
      if nodes[nid].op == Or {
        if ret { v := Over; }
      } else {
        if !ret { v := Over; }
      }
      q := WithRet(q, Bool(ret));
      if v != Ok { return; }
      v := SeqRcv(nid, Some(from), q);
    }

    /** push_error: the node is marked as failed. */
    method PushError(nid: Nid)
      requires nid in nodes
      modifies `nodes
      ensures nodes == old(nodes)[nid := old(nodes)[nid].(failed := true)]
    {
      nodes := nodes[nid := nodes[nid].(failed := true)];
    }

    /** The end of rcv_arith: folds the rets. */
    method FoldRets(nid: Nid, p: Payload) returns (v: Verdict, q: Payload)
      requires nid in nodes && nodes[nid].op.Arith?
      modifies `nodes
      ensures
        var node := old(nodes)[nid];
        && (v, q) == ArithEnd(node.op.sign, if node.rets.Some? then node.rets.value else [], p)
        && nodes == old(nodes)[nid := node.(failed := node.failed || v == Error)]
    {
      hide Fold, Doubles, Wrap32, IntValue, WithRet;
      var rets := if nodes[nid].rets.Some? then nodes[nid].rets.value else [];
      if Doubles(rets) {
        PushError(nid);
        return Error, p;
      }
      var r := ArithFold(nodes[nid].op.sign, rets);
      q := WithRet(p, IntValue(Wrap32(if r.Some? then r.value else 0)));
      if r.None? {
        PushError(nid);
        return Error, q;
      }
      assert nodes[nid := nodes[nid]] == nodes;
      return Over, q;
    }

    /** rcv_arith. */
    method RcvArith(nid: Nid, from: Nid, p: Payload) returns (v: Verdict, q: Payload)
      requires nid in nodes && nodes[nid].op.Arith? && FromFamily(nid, from)
      modifies this
      ensures Receives(old(Now()), nid, from, p, Now(), v, q)
    {
      hide NodeTree, Found, TreeOf, Fold, Doubles, Wrap32, IntValue, WithRet;
      q := p;
      v := SeqRcv(nid, Some(from), p);
      if v != Over { return; }
      v, q := FoldRets(nid, p);
      assert nodes == old(nodes)[nid := nodes[nid]];
    }

    /** rcv_cmp. */
    method RcvCmp(nid: Nid, from: Nid, p: Payload) returns (v: Verdict, q: Payload)
      requires nid in nodes && nodes[nid].op.Cmp? && FromFamily(nid, from)
      modifies this
      ensures Receives(old(Now()), nid, from, p, Now(), v, q)
    {
      hide NodeTree, Chain;
      q := p;
      v := SeqRcv(nid, Some(from), p);
      if v != Over { return; }
      var ret := CmpChain(nodes[nid].op.rel, if nodes[nid].rets.Some? then nodes[nid].rets.value else []);
      q := WithRet(q, Bool(ret));
    }

    // --- set ---------------------------------------------------------------------------------------

    /** exe_set. */
    method ExeSet(nid: Nid, t: Tree, p: Payload) returns (v: Verdict)
      requires nid in nodes && nodes[nid].op == Set && Untouched(nodes[nid])
      modifies this
      ensures Executes(old(Now()), nid, t, p, Now(), v, p)
    {
      hide NodeTree;
      Pass(nid);
      if t.children == [] { return Over; }
      QueueFirst(nid, p);
      return Ok;
    }

    /** rcv_set: the tree is the one looked up for the node. */
    method RcvSet(nid: Nid, from: Nid, p: Payload) returns (v: Verdict, q: Payload)
      requires nid in nodes && nodes[nid].op == Set && FromFamily(nid, from)
      modifies this
      ensures Receives(old(Now()), nid, from, p, Now(), v, q)
    {
      hide NodeTree, SetTarget, SetField;
      q := p;
      Pass(nid);
      match SetTarget(TreeOf(nodes, nid)) {
        case Skip => v := Over;
        case Outside =>
          PushError(nid);
          v := Error;
        case Field(name) =>
          q := SetField(name, q);
          v := Over;
      }
    }

    // --- calling an instruction ------------------------------------------------------------------------

    method CallExe(nid: Nid, t: Tree, p: Payload) returns (v: Verdict, q: Payload)
      requires nid in nodes && Untouched(nodes[nid])
      modifies this
      ensures Executes(old(Now()), nid, t, p, Now(), v, q)
    {
      hide NodeTree;
      q := p;
      match nodes[nid].op {
        case Sequence | And | Or => v := SeqExe(nid, t, p, false);
        case Arith(_) | Cmp(_) => v := SeqExe(nid, t, p, true);
        case If | Unless | Elsif => v := ExeIf(nid, t, p);
        case Ife | Unlesse => v := ExeIfe(nid, t, p);
        case Else => v := ExeElse(nid, t, p);
        case Set => v := ExeSet(nid, t, p);
        case Concurrence => v := ConExe(nid, t, p);
        case Val =>
          Pass(nid);
          v, q := Over, ExeVal(t, p);
        case Trace =>
          Pass(nid);
          v, q := Over, ExeTrace(t, p);
        case Noop =>
          Pass(nid);
          v := Over;
        case Stall =>
          Pass(nid);
          v := Ok;
        case Unknown =>
          PushError(nid);
          v := Error;
      }
    }

    method CallRcv(nid: Nid, from: Nid, p: Payload) returns (v: Verdict, q: Payload)
      requires nid in nodes && FromFamily(nid, from)
      modifies this
      ensures Receives(old(Now()), nid, from, p, Now(), v, q)
    {
      hide NodeTree;
      q := p;
      match nodes[nid].op {
        case Sequence => v := SeqRcv(nid, Some(from), p);
        case And | Or => v, q := RcvAnd(nid, from, p);
        case Arith(_) => v, q := RcvArith(nid, from, p);
        case Cmp(_) => v, q := RcvCmp(nid, from, p);
        case If | Unless | Elsif => v, q := RcvIf(nid, from, p);
        case Ife | Unlesse => v, q := RcvIfe(nid, from, p);
        case Else => v := RcvElse(nid, from, p);
        case Set => v, q := RcvSet(nid, from, p);
        case Concurrence => v := ConRcv(nid, from, p);
        case Val | Trace | Noop | Stall | Unknown =>
          Pass(nid);
          v := Over;
      }
    }

    // --- the handlers ----------------------------------------------------------------------------------

    /** create_node: the instruction is only known after the rewriting. */
    method CreateNode(nid: Nid, parent: Option<Nid>, t: Tree)
      modifies `nodes
      ensures nodes == old(nodes)[nid := Node(Unknown, parent, if nid == ROOT then Some(t) else None, None, None, false)]
    {
      nodes := nodes[nid := Node(Unknown, parent, None, None, None, false)];
      if nid == ROOT {
        nodes := nodes[nid := nodes[nid].(tree := Some(t))];
      }
    }

    /** Rewrites the tree of a node just created; the node keeps it if it changed. */
    method RewriteNode(nid: Nid, t: Tree) returns (u: Tree)
      requires nid in nodes
      modifies `nodes
      ensures
        var prepared := Prepare(t);
        var node := old(nodes)[nid];
        && u == prepared.tree
        && nodes == old(nodes)[nid := node.(op := prepared.op, tree := if prepared.changed then Some(u) else node.tree)]
    {
      var draft := new Rewriter.Draft(t);
      var ok, changed := draft.RewriteTree();
      if !ok {
        nodes := nodes[nid := nodes[nid].(op := Unknown)];
        return t;
      }
      u := draft.tree;
      if changed {
        nodes := nodes[nid := nodes[nid].(tree := Some(u))];
      }
      nodes := nodes[nid := nodes[nid].(op := OpOf(u))];
    }

    method HandleExecute(nid: Nid, parent: Option<Nid>, tree: Option<Tree>, p: Payload)
      modifies this
      ensures Now() == Machine.HandleExecute(old(Now()), Execute(nid, parent, tree, p))
    {
      hide NodeTree, Found, Prepare, Exe, ConIds, ConMsgs, ExeKids;
      var t := tree;
      if t.None? { t := NodeTree(nodes, nid); }
      if t.None? { return; }
      CreateNode(nid, parent, t.value);
      var u := RewriteNode(nid, t.value);
      assert nodes == old(nodes)[nid := NewNode(nid, parent, t.value)];
      if parent.None? && nid == ROOT {
        QueueMsg(Launched(nid, p));
      }
      assert msgs == old(msgs) + LaunchMsgs(nid, parent, p);
      ghost var launched := Now();
      var v, q := CallExe(nid, u, p);
      if v == Over {
        QueueMsg(Receive(nid, nid, q));
      } else if v == Error {
        QueueMsg(Failed(nid, q));
      }
    }

    method HandleReturn(nid: Nid, from: Nid, p: Payload)
      requires FromFamily(nid, from)
      modifies this
      ensures Now() == Machine.HandleReturn(old(Now()), Receive(nid, from, p))
    {
      hide NodeTree, Found, Receiving;
      if nid !in nodes { return; }
      var parent := nodes[nid].parent;
      var v, q := CallRcv(nid, from, p);
      if v == Over {
        if parent.Some? {
          QueueMsg(Receive(parent.value, nid, q));
        } else if nid == ROOT {
          QueueMsg(Terminated(nid, q));
        } else {
          QueueMsg(Ceased(nid, q));
        }
        nodes := nodes - {nid};
      } else if v == Error {
        QueueMsg(Failed(nid, q));
      }
    }

    // --- the run loop ----------------------------------------------------------------------------------

    /** flon_execut: what a flow returns is what its tree means, and nothing is left behind when it answers. */
    method Execut(t: Tree, p: Payload) returns (terminated: Option<Payload>)
      modifies this
      ensures terminated ==
        match Semantics.Den(t, p)
        case Done(q, _) => Some(q)
        case Never => None
      ensures terminated.Some? ==> nodes == map[]
      ensures msgs == []
    {
      hide Semantics.Den, Evaluator.Eval, Evaluator.Count, Machine.Step, Runs.StateAt, Runs.Ended, Runs.Total;
      Semantics.EvalIsDen(t, p);
      nodes, msgs := map[], [];
      QueueMsg(Execute(ROOT, None, Some(t), p));
      terminated := None;
      ghost var k := 0;
      FirstState(t, p);
      while true
        invariant Now() == Runs.StateAt(t, p, k)
        invariant k <= Runs.Total(t, p)
        invariant terminated == None
        decreases Runs.Total(t, p) - k
      {
        LastState(t, p, k);
        if msgs == [] { break; }
        var m := msgs[0];
        ghost var before := Now();
        msgs := msgs[1..];
        if m.Terminated? {
          terminated := Some(m.payload);
          break;
        }
        match m {
          case Execute(nid, parent, tree, payload) => HandleExecute(nid, parent, tree, payload);
          case Receive(nid, from, payload) =>
            SendersAreFamily(t, p, k, m);
            HandleReturn(nid, from, payload);
          case _ =>
        }
        assert Now() == Machine.Step(before) by { StepIs(before); }
        NextState(t, p, k);
        k := k + 1;
      }
    }
  }

  lemma StepIs(s: State)
    requires s.msgs != []
    ensures Machine.Step(s) == Machine.Handle(State(s.nodes, s.msgs[1..]), s.msgs[0])
  {
  }

  lemma FirstState(t: Tree, p: Payload)
    ensures Runs.StateAt(t, p, 0) == State(map[], [] + [Execute(ROOT, None, Some(t), p)])
  {
  }

  lemma NextState(t: Tree, p: Payload, k: nat)
    requires !Runs.Ended(Runs.StateAt(t, p, k))
    ensures Runs.StateAt(t, p, k + 1) == Machine.Step(Runs.StateAt(t, p, k))
    ensures k < Runs.Total(t, p)
  {
    hide Machine.Step, Machine.Init, Runs.Total;
    Runs.RunIsFinite(t, p, k + 1);
  }

  /** What the loop finds when it looks at the queue. */
  lemma LastState(t: Tree, p: Payload, k: nat)
    ensures
      var s := Runs.StateAt(t, p, k);
      var o := Evaluator.Eval(t, p);
      && (Runs.Ended(s) <==> s.msgs == [] || s.msgs[0].Terminated?)
      && (s.msgs == [] ==> o.Never?)
      && (s.msgs != [] && s.msgs[0].Terminated? ==> o.Done? && s == State(map[], [Terminated(ROOT, o.payload)]))
  {
    hide Evaluator.Eval, Evaluator.Count, Machine.Step, Machine.Init, Runs.StateAt;
    if Runs.Ended(Runs.StateAt(t, p, k)) {
      Runs.Endings(t, p, k);
    }
  }

  lemma SendersAreFamily(t: Tree, p: Payload, k: nat, m: Msg)
    requires Runs.StateAt(t, p, k).msgs != [] && Runs.StateAt(t, p, k).msgs[0] == m && m.Receive?
    ensures FromFamily(m.nid, m.from)
  {
    hide Runs.StateAt, Invariants.Waits, Invariants.Claims, Invariants.Navigate, NodeTree;
    Invariants.RunIsSafe(t, p, k);
    var s := Runs.StateAt(t, p, k);
    assert m in s.msgs;
    assert Invariants.Addressed(s.nodes, m);
    if m.from != m.nid {
      assert m.nid == Chop(m.from) && m.from != ROOT;
    }
  }
}
