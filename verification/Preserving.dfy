/** Every step keeps the configuration well formed and its messages in turn. */
module Preserving {
  import opened Values
  import opened Trees
  import opened Rewriting
  import opened Instructions
  import opened Machine
  import opened Simulation
  import opened Stepping

  lemma ConfExeGood(nid: Nid, node: Node, tree: Tree, r: Reaction, kids: Option<seq<Nid>>, found: Option<Tree>, at: nat)
    requires nid != [] && Rooted(nid, node, tree, found) && !node.failed
    requires r.next.Some? ==> r.next.value < |tree.children|
    requires node.op == Concurrence ==> kids == None && r.next.None?
    requires r.verdict.Ok? && r.next.None? ==> node.op == Stall
    requires r.verdict.Over? ==> NoChildren(kids)
    requires r.next.Some? ==> kids == Some(Keeps(node.op, nid, r.next.value))
    ensures Good(nid, ConfExe(nid, node, tree, r, kids, at), found)
    ensures Tidy(ConfExe(nid, node, tree, r, kids, at), at)
    ensures UpTo(ConfExe(nid, node, tree, r, kids, at), at)
  {
    if r.next.Some? {
      assert nid + [r.next.value] != [];
    }
  }

  lemma {:induction false} AllAwaited(nid: Nid, cs: seq<Conf>, k: nat)
    requires k <= |cs| && forall i :: 0 <= i < |cs| ==> !cs[i].Gone?
    ensures Awaited(nid, cs, k) == ConIds(nid, |cs|)[k..]
    decreases |cs| - k
  {
    hide ConIndex;
    if k < |cs| {
      AllAwaited(nid, cs, k + 1);
    }
  }

  lemma ConfForkGood(nid: Nid, node: Node, tree: Tree, p: Payload, found: Option<Tree>, at: nat)
    requires nid != [] && Rooted(nid, node, tree, found) && node.op == Concurrence && !node.failed
    requires tree.children != []
    ensures Good(nid, ConfFork(nid, node, tree, p, at), found)
    ensures Tidy(ConfFork(nid, node, tree, p, at), at) && UpTo(ConfFork(nid, node, tree, p, at), at)
  {
    hide ConIndex, Awaited, ConIds;
    var n := |tree.children|;
    var cs := ForkConfs(tree.children, n, p, at);
    AllAwaited(nid, cs, 0);
    assert ConIds(nid, n)[0..] == ConIds(nid, n);
    assert forall i :: 0 <= i < n ==> Tidy(cs[i], at) && UpTo(cs[i], at);
  }

  lemma AfterExeGood(nid: Nid, t: Tree, p: Payload, found: Option<Tree>, at: nat)
    requires nid != [] && (nid != ROOT ==> found == Some(t))
    ensures Good(nid, AfterExe(nid, t, p, at), found)
    ensures Tidy(AfterExe(nid, t, p, at), at) && UpTo(AfterExe(nid, t, p, at), at)
  {
    hide Good, Tidy, UpTo, Rooted, ConfExe, ConfFork, Prepare, RewriteTree;
    var u := Prepare(t);
    var node := NewNode(nid, ParentOf(nid), t);
    NewNodeIsRooted(nid, t, found);
    if Machine.Forks(u) {
      ConfForkGood(nid, node, u.tree, p, found, at);
    } else {
      var e := Exe(u.op, u.tree, p, u.tree.children != []);
      KeepsFirst(u.op, nid);
      ConfExeGood(nid, node, u.tree, e, ExeKids(u.op, u.tree, p, nid, e.next), found, at);
    }
  }

  /** Taking the first child out and adding the next one, or only adding it, keeps what is kept. */
  lemma RcvKeeps(nid: Nid, node: Node, tree: Tree, from: Option<nat>, p: Payload)
    requires if from.None? then NoChildren(node.children) else node.children == Some(Keeps(node.op, nid, from.value))
    ensures
      var e := RcvReaction(node, tree, from, p);
      var kids := RcvKids(node.op, node.children, nid, from, p, e.next);
      e.next.Some? ==> kids == Some(Keeps(node.op, nid, e.next.value))
  {
    hide Truth, WithRet, RcvSet;
    var e := RcvReaction(node, tree, from, p);
    if e.next.Some? {
      var i, op := e.next.value, node.op;
      assert op != Set by { SetIsLast(tree, p); }
      if from.None? {
        KeepsFirst(op, nid);
        assert i == 0 && [] + [nid + [i]] == [nid + [i]];
      } else if op in {If, Unless, Elsif} {
        assert UpToChild(nid, i - 1) + [nid + [i]] == UpToChild(nid, i);
      } else if Branching(op) {
        assert [nid + [0]] + [nid + [i]] == [nid + [0], nid + [i]];
      } else {
        assert Splices(op, from, p);
        assert DropFirst([nid + [i - 1]]) + [nid + [i]] == [nid + [i]];
      }
    }
  }

  lemma KeepsFirst(op: Op, nid: Nid)
    ensures Keeps(op, nid, 0) == [nid + [0]]
  {
  }

  lemma SetIsLast(t: Tree, p: Payload)
    ensures RcvSet(t, p).next == None
  {
  }

  lemma AfterRcvGood(nid: Nid, node: Node, tree: Tree, from: Option<nat>, p: Payload, found: Option<Tree>, at: nat)
    requires nid != [] && Rooted(nid, node, tree, found) && !node.failed
    requires node.op == Concurrence ==> node.children == None
    requires if from.None? then NoChildren(node.children) else node.children == Some(Keeps(node.op, nid, from.value))
    ensures Good(nid, AfterRcv(nid, node, tree, from, p, at), found)
    ensures Tidy(AfterRcv(nid, node, tree, from, p, at), at) && UpTo(AfterRcv(nid, node, tree, from, p, at), at)
  {
    hide Rooted, Keeps;
    var e := RcvReaction(node, tree, from, p);
    if !e.verdict.Over? {
      RcvKeeps(nid, node, tree, from, p);
      ConfExeGood(nid, node, tree, e, RcvKids(node.op, node.children, nid, from, p, e.next), found, at);
    }
  }

  /** A configuration whose messages are all of turn `at` is tidy in that turn and in the one before. */
  lemma {:induction false} TidyBefore(c: Conf, at: nat)
    requires Tidy(c, at) && UpTo(c, at) && at > 0
    ensures Tidy(c, at - 1)
    decreases c
  {
    Earlier(c, at);
    OrderedBefore(c, at);
  }

  lemma {:induction false} Earlier(c: Conf, at: nat)
    ensures AllFrom(c, at) && at > 0 ==> AllFrom(c, at - 1)
    ensures UpTo(c, at) ==> UpTo(c, at + 1)
    decreases c
  {
    match c
    case One(_, _, _, child) => Earlier(child, at);
    case Many(_, _, cs) =>
      forall j | 0 <= j < |cs|
        ensures AllFrom(cs[j], at) && at > 0 ==> AllFrom(cs[j], at - 1)
        ensures UpTo(cs[j], at) ==> UpTo(cs[j], at + 1)
      {
        Earlier(cs[j], at);
      }
    case _ =>
  }

  lemma {:induction false} OrderedBefore(c: Conf, at: nat)
    requires AllFrom(c, at) && at > 0
    ensures Ordered(c, at - 1)
    decreases c
  {
    match c
    case One(_, _, _, child) => OrderedBefore(child, at);
    case Many(_, _, cs) =>
      forall j | 0 <= j < |cs| ensures Ordered(cs[j], at - 1) {
        OrderedBefore(cs[j], at);
      }
    case _ =>
  }

  /** When no message of turn `r` is left, the next turn begins. */
  lemma {:induction false} NextTurn(c: Conf, r: nat)
    requires Tidy(c, r) && !Due(c, r)
    ensures Tidy(c, r + 1)
    decreases c
  {
    Earlier(c, r + 1);
    OrderedAfter(c, r);
  }

  lemma {:induction false} OrderedAfter(c: Conf, r: nat)
    requires AllFrom(c, r + 1) && UpTo(c, r + 1)
    ensures Ordered(c, r + 1)
    decreases c
  {
    match c
    case One(_, _, _, child) => OrderedAfter(child, r);
    case Many(_, _, cs) =>
      forall j | 0 <= j < |cs| ensures Ordered(cs[j], r + 1) {
        OrderedAfter(cs[j], r);
      }
    case _ =>
  }

  lemma {:induction false} StepGood(nid: Nid, c: Conf, found: Option<Tree>, r: nat)
    requires Good(nid, c, found) && Tidy(c, r) && Due(c, r) && !c.Reply?
    ensures Good(nid, Next(nid, c, r), found) && Tidy(Next(nid, c, r), r)
    decreases c
  {
    hide AfterExe, AfterRcv, ConIndex;
    match c {
      case Exec(None, _, _) =>
      case Exec(Some(t), p, _) =>
        AfterExeGood(nid, t, p, found, r + 1);
        TidyBefore(Next(nid, c, r), r + 1);
      case Self(node, tree, p, _) =>
        AfterRcvGood(nid, node, tree, None, p, found, r + 1);
        TidyBefore(Next(nid, c, r), r + 1);
      case One(node, tree, i, child) =>
        if child.Reply? {
          AfterRcvGood(nid, node, tree, Some(i), child.payload, found, r + 1);
          TidyBefore(Next(nid, c, r), r + 1);
        } else {
          StepGood(nid + [i], child, At(tree.children, i), r);
        }
      case Failing(_, _, _, _) =>
      case Many(node, tree, cs) =>
        StepManyGood(nid, node, tree, cs, found, r);
    }
  }

  lemma {:induction false} StepManyGood(nid: Nid, node: Node, tree: Tree, cs: seq<Conf>, found: Option<Tree>, r: nat)
    requires var c := Many(node, tree, cs); Good(nid, c, found) && Tidy(c, r) && Due(c, r)
    ensures var after := Next(nid, Many(node, tree, cs), r); Good(nid, after, found) && Tidy(after, r)
    decreases cs
  {
    hide ConIndex, Awaited, AfterAnswer;
    var j := FirstDue(cs, r);
    assert Tidy(cs[j], r);
    if cs[j].Reply? {
      AnswerGood(nid, node, tree, cs, found, j, r);
    } else {
      var id := nid + [ConIndex(j)];
      StepGood(id, cs[j], At(tree.children, ConIndex(j)), r);
      ChildGood(nid, node, tree, cs, found, j, Next(id, cs[j], r), r);
    }
  }

  lemma ChildGood(nid: Nid, node: Node, tree: Tree, cs: seq<Conf>, found: Option<Tree>, j: nat, x: Conf, r: nat)
    requires var c := Many(node, tree, cs); Good(nid, c, found) && Tidy(c, r)
    requires j < |cs| && Due(cs[j], r) && !cs[j].Gone? && forall k :: 0 <= k < j ==> !Due(cs[k], r)
    requires !x.Gone? && Tidy(x, r) && Good(nid + [ConIndex(j)], x, At(tree.children, ConIndex(j)))
    ensures var after := Many(node, tree, cs[j := x]); Good(nid, after, found) && Tidy(after, r)
  {
    hide ConIndex;
    ReplaceTidy(node, tree, cs, cs[j := x], j, r);
    AwaitedSame(nid, cs, cs[j := x], 0);
  }

  lemma AnswerGood(nid: Nid, node: Node, tree: Tree, cs: seq<Conf>, found: Option<Tree>, j: nat, r: nat)
    requires var c := Many(node, tree, cs); Good(nid, c, found) && Tidy(c, r)
    requires j < |cs| && Due(cs[j], r) && cs[j].Reply? && forall k :: 0 <= k < j ==> !Due(cs[k], r)
    ensures var after := AfterAnswer(nid, node, tree, cs, j, r + 1); Good(nid, after, found) && Tidy(after, r)
  {
    hide ConIndex;
    AwaitedRemove(nid, cs, 0, j);
    ReplaceTidy(node, tree, cs, cs[j := Gone], j, r);
  }

  lemma ReplaceTidy(node: Node, tree: Tree, cs: seq<Conf>, ds: seq<Conf>, j: nat, r: nat)
    requires j < |cs| == |ds| && ds == cs[j := ds[j]] && Due(cs[j], r) && Tidy(ds[j], r)
    requires Tidy(Many(node, tree, cs), r)
    requires forall k :: 0 <= k < j ==> !Due(cs[k], r)
    ensures Tidy(Many(node, tree, ds), r)
  {
  }
}
