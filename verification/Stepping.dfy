/** One message handled by the engine is one step of the configuration: the same nodes, and the same queue. */
module Stepping {
  import opened Values
  import opened Trees
  import opened Rewriting
  import opened Instructions
  import opened Machine
  import opened Simulation

  // --- tree lookup -------------------------------------------------------------------------------

  predicate Chopped(nodes: Nodes) {
    forall k :: k in nodes ==> k != [] && nodes[k].parent == ParentOf(k)
  }

  predicate Above(a: Nid, b: Nid) { a <= b }

  /** A lookup only depends on the ancestors. */
  lemma {:induction false} NodeTreeFrame(m: Nodes, n: Nodes, nid: Nid)
    requires Chopped(m) && Chopped(n)
    requires forall k :: Above(k, nid) ==> (k in m <==> k in n) && (k in m ==> m[k] == n[k])
    ensures NodeTree(m, nid) == NodeTree(n, nid)
    decreases |nid|
  {
    if |nid| > 0 {
      forall k | Above(k, Chop(nid)) ensures Above(k, nid) {}
      NodeTreeFrame(m, n, Chop(nid));
    }
  }

  lemma ChopExtend(nid: Nid, i: nat)
    ensures Chop(nid + [i]) == nid && Last(nid + [i]) == i
  {
  }

  /** The tree of a node just put in place, and of a child of it that is not there yet. */
  lemma ChildTree(ctx: Nodes, nid: Nid, node: Node, tree: Tree, i: nat)
    requires Chopped(ctx) && nid != [] && nid !in ctx && nid + [i] !in ctx
    requires Rooted(nid, node, tree, NodeTree(ctx, nid))
    ensures Chopped(ctx[nid := node])
    ensures NodeTree(ctx[nid := node], nid) == Some(tree)
    ensures NodeTree(ctx[nid := node], nid + [i]) == At(tree.children, i)
  {
    var nodes := ctx[nid := node];
    if node.tree.None? {
      assert forall k :: Above(k, Chop(nid)) ==> k != nid;
      NodeTreeFrame(ctx, nodes, Chop(nid));
    }
    ChopExtend(nid, i);
    assert nid + [i] != nid;
  }

  // --- where the nodes are -----------------------------------------------------------------------

  lemma {:induction false} ConIndexGrows(i: nat, j: nat)
    requires i < j
    ensures ConIndex(i) < ConIndex(j)
  {
    if j >= 10 {
      if i / 10 < j / 10 {
        if i >= 10 {
          ConIndexGrows(i / 10, j / 10);
        } else {
          ConIndexAbove(j);
        }
      }
    }
  }

  /** Read back in hexadecimal, a decimal number of two digits or more has grown. */
  lemma {:induction false} ConIndexAbove(i: nat)
    ensures ConIndex(i) >= i
    ensures i >= 10 ==> ConIndex(i) >= i + 6
  {
    if i >= 10 {
      ConIndexAbove(i / 10);
    }
  }

  lemma {:induction false} NodesUnder(nid: Nid, c: Conf)
    ensures forall k :: k in NodesOf(nid, c) ==> nid <= k
    decreases c, 0
  {
    match c
    case One(_, _, i, child) => NodesUnder(nid + [i], child);
    case Many(_, _, cs) => NodesFromUnder(nid, cs, 0);
    case _ =>
  }

  lemma {:induction false} NodesFromUnder(nid: Nid, cs: seq<Conf>, k: nat)
    requires k <= |cs|
    ensures forall id :: id in NodesFrom(nid, cs, k) ==> nid <= id && |id| > |nid| && id[|nid|] >= ConIndex(k)
    ensures forall id, j :: id in NodesFrom(nid, cs, k) && 0 <= j < |cs| && cs[j].Gone? ==> id[|nid|] != ConIndex(j)
    decreases cs, |cs| - k
  {
    if k < |cs| {
      NodesUnder(nid + [ConIndex(k)], cs[k]);
      NodesFromUnder(nid, cs, k + 1);
      ConIndexGrows(k, k + 1);
      forall id | id in NodesOf(nid + [ConIndex(k)], cs[k])
        ensures |id| > |nid| && id[|nid|] == ConIndex(k)
      {
        assert id[|nid|] == (nid + [ConIndex(k)])[|nid|];
      }
      forall j | 0 <= j < |cs| && cs[j].Gone? && j != k ensures ConIndex(j) != ConIndex(k) {
        if j < k { ConIndexGrows(j, k); } else { ConIndexGrows(k, j); }
      }
    }
  }

  lemma {:induction false} NodesFromSame(nid: Nid, cs: seq<Conf>, ds: seq<Conf>, k: nat)
    requires k <= |cs| == |ds|
    requires forall j :: k <= j < |cs| ==> cs[j] == ds[j]
    ensures NodesFrom(nid, cs, k) == NodesFrom(nid, ds, k)
    decreases |cs| - k
  {
    if k < |cs| {
      NodesFromSame(nid, cs, ds, k + 1);
    }
  }

  /** The nodes of child `j` can be told apart from those of its siblings. */
  lemma {:induction false} NodesFromSplit(nid: Nid, cs: seq<Conf>, k: nat, j: nat)
    requires k <= j < |cs|
    ensures NodesFrom(nid, cs, k) == NodesFrom(nid, cs[j := Gone], k) + NodesOf(nid + [ConIndex(j)], cs[j])
    decreases j - k
  {
    hide ConIndex;
    var ds := cs[j := Gone];
    var child := NodesOf(nid + [ConIndex(j)], cs[j]);
    if k < j {
      NodesFromSplit(nid, cs, k + 1, j);
      Associate(NodesOf(nid + [ConIndex(k)], cs[k]), NodesFrom(nid, ds, k + 1), child);
    } else {
      NodesFromSame(nid, cs, ds, k + 1);
      NodesUnder(nid + [ConIndex(j)], cs[j]);
      NodesFromUnder(nid, cs, j + 1);
      ConIndexGrows(j, j + 1);
      forall id | id in child ensures id !in NodesFrom(nid, cs, j + 1) {
        assert id[|nid|] == (nid + [ConIndex(j)])[|nid|];
      }
      Commute(child, NodesFrom(nid, cs, j + 1));
      assert NodesFrom(nid, ds, j) == NodesFrom(nid, ds, j + 1);
    }
  }

  lemma Associate(a: Nodes, b: Nodes, c: Nodes)
    ensures a + (b + c) == (a + b) + c
  {
  }

  lemma Commute(a: Nodes, b: Nodes)
    requires a.Keys !! b.Keys
    ensures a + b == b + a
  {
  }

  lemma {:induction false} GoodChopped(nid: Nid, c: Conf, found: Option<Tree>)
    requires Good(nid, c, found)
    ensures Chopped(NodesOf(nid, c))
    decreases c, 0
  {
    match c
    case One(_, tree, i, child) => GoodChopped(nid + [i], child, At(tree.children, i));
    case Many(_, tree, cs) => GoodFromChopped(nid, cs, tree, 0);
    case _ =>
  }

  lemma {:induction false} GoodFromChopped(nid: Nid, cs: seq<Conf>, tree: Tree, k: nat)
    requires k <= |cs|
    requires forall j :: 0 <= j < |cs| && !cs[j].Gone? ==> Good(nid + [ConIndex(j)], cs[j], At(tree.children, ConIndex(j)))
    ensures Chopped(NodesFrom(nid, cs, k))
    decreases cs, |cs| - k
  {
    if k < |cs| {
      if !cs[k].Gone? {
        GoodChopped(nid + [ConIndex(k)], cs[k], At(tree.children, ConIndex(k)));
      }
      GoodFromChopped(nid, cs, tree, k + 1);
    }
  }

  // --- which messages are queued -------------------------------------------------------------------

  lemma {:induction false} NoMsgs(nid: Nid, c: Conf, r: nat)
    ensures AllFrom(c, r + 1) ==> MsgsAt(nid, c, r) == []
    ensures UpTo(c, r) ==> MsgsAt(nid, c, r + 1) == []
    decreases c, 0
  {
    match c
    case One(_, _, i, child) => NoMsgs(nid + [i], child, r);
    case Many(_, _, cs) => NoMsgsFrom(nid, cs, 0, r);
    case _ =>
  }

  lemma {:induction false} NoMsgsFrom(nid: Nid, cs: seq<Conf>, k: nat, r: nat)
    requires k <= |cs|
    ensures (forall j :: k <= j < |cs| ==> AllFrom(cs[j], r + 1)) ==> MsgsFrom(nid, cs, k, r) == []
    ensures (forall j :: k <= j < |cs| ==> UpTo(cs[j], r)) ==> MsgsFrom(nid, cs, k, r + 1) == []
    decreases cs, |cs| - k
  {
    if k < |cs| {
      NoMsgs(nid + [ConIndex(k)], cs[k], r);
      NoMsgsFrom(nid, cs, k + 1, r);
    }
  }

  lemma {:induction false} MsgsFromSame(nid: Nid, cs: seq<Conf>, ds: seq<Conf>, k: nat, r: nat)
    requires k <= |cs| == |ds|
    requires forall j :: k <= j < |cs| ==> cs[j] == ds[j]
    ensures MsgsFrom(nid, cs, k, r) == MsgsFrom(nid, ds, k, r)
    decreases |cs| - k
  {
    if k < |cs| {
      MsgsFromSame(nid, cs, ds, k + 1, r);
    }
  }

  /** Child `j` is the first one with a message of turn `r`. Its step shows as it is in the messages of the
      whole: taken at the head for this turn, added at the end for the next. */
  lemma {:induction false} MsgsFromStep(nid: Nid, cs: seq<Conf>, k: nat, j: nat, x: Conf, r: nat, outs: seq<Msg>)
    requires k <= j < |cs|
    requires forall m :: k <= m < j ==> AllFrom(cs[m], r + 1)
    requires forall m :: j < m < |cs| ==> UpTo(cs[m], r)
    requires MsgsAt(nid + [ConIndex(j)], cs[j], r) != []
    requires MsgsAt(nid + [ConIndex(j)], x, r) == MsgsAt(nid + [ConIndex(j)], cs[j], r)[1..]
    requires MsgsAt(nid + [ConIndex(j)], x, r + 1) == MsgsAt(nid + [ConIndex(j)], cs[j], r + 1) + outs
    ensures MsgsFrom(nid, cs, k, r) != []
    ensures MsgsFrom(nid, cs, k, r)[0] == MsgsAt(nid + [ConIndex(j)], cs[j], r)[0]
    ensures MsgsFrom(nid, cs[j := x], k, r) == MsgsFrom(nid, cs, k, r)[1..]
    ensures MsgsFrom(nid, cs[j := x], k, r + 1) == MsgsFrom(nid, cs, k, r + 1) + outs
    decreases j - k
  {
    hide ConIndex, MsgsAt;
    if k < j {
      NoMsgs(nid + [ConIndex(k)], cs[k], r);
      MsgsFromStep(nid, cs, k + 1, j, x, r, outs);
    } else {
      MsgsFromSame(nid, cs, cs[j := x], j + 1, r);
      MsgsFromSame(nid, cs, cs[j := x], j + 1, r + 1);
      NoMsgsFrom(nid, cs, j + 1, r);
    }
  }

  // --- awaited children ----------------------------------------------------------------------------

  lemma {:induction false} AwaitedSame(nid: Nid, cs: seq<Conf>, ds: seq<Conf>, k: nat)
    requires k <= |cs| == |ds|
    requires forall j :: k <= j < |cs| ==> cs[j].Gone? == ds[j].Gone?
    ensures Awaited(nid, cs, k) == Awaited(nid, ds, k)
    decreases |cs| - k
  {
    if k < |cs| {
      AwaitedSame(nid, cs, ds, k + 1);
    }
  }

  lemma {:induction false} AwaitedRemove(nid: Nid, cs: seq<Conf>, k: nat, j: nat)
    requires k <= j < |cs| && !cs[j].Gone?
    ensures Remove(Awaited(nid, cs, k), nid + [ConIndex(j)]) == Awaited(nid, cs[j := Gone], k)
    decreases j - k
  {
    hide ConIndex;
    if k < j {
      AwaitedRemove(nid, cs, k + 1, j);
      ConIndexGrows(k, j);
      assert (nid + [ConIndex(k)])[|nid|] != (nid + [ConIndex(j)])[|nid|];
      assert cs[j := Gone][k] == cs[k];
      if !cs[k].Gone? {
        assert Awaited(nid, cs, k)[0] == nid + [ConIndex(k)];
        assert Awaited(nid, cs, k)[1..] == Awaited(nid, cs, k + 1);
      } else {
        assert Awaited(nid, cs, k) == Awaited(nid, cs, k + 1);
        assert Awaited(nid, cs[j := Gone], k) == Awaited(nid, cs[j := Gone], k + 1);
      }
    } else {
      AwaitedSame(nid, cs, cs[j := Gone], j + 1);
      assert Awaited(nid, cs, j)[1..] == Awaited(nid, cs, j + 1);
    }
  }

  lemma {:induction false} AllGone(nid: Nid, cs: seq<Conf>, k: nat)
    requires k <= |cs|
    ensures Awaited(nid, cs, k) == [] <==> forall j :: k <= j < |cs| ==> cs[j].Gone?
    ensures Awaited(nid, cs, k) == [] ==> NodesFrom(nid, cs, k) == map[]
    ensures Awaited(nid, cs, k) == [] ==> forall r :: MsgsFrom(nid, cs, k, r) == []
    decreases |cs| - k
  {
    if k < |cs| {
      AllGone(nid, cs, k + 1);
    }
  }

  // --- the step ------------------------------------------------------------------------------------

  /** `nid` has nothing of its own in `ctx` yet, and `found` is what is found for it there. */
  predicate Context(ctx: Nodes, nid: Nid, found: Option<Tree>) {
    nid != [] && Chopped(ctx) && (forall k :: k in ctx ==> !Above(nid, k)) && NodeTree(ctx, nid) == found
  }

  /** The messages of children that were just started; such children are no nodes yet. */
  lemma {:induction false} ForkMsgs(nid: Nid, cs: seq<Conf>, ms: seq<Msg>, p: Payload, at: nat, k: nat)
    requires nid != [] && k <= |cs| == |ms|
    requires forall i :: 0 <= i < |cs| ==> cs[i].Exec? && cs[i].payload == p && cs[i].at == at
    requires forall i :: 0 <= i < |cs| ==> ms[i] == Execute(nid + [ConIndex(i)], Some(nid), None, p)
    ensures MsgsFrom(nid, cs, k, at) == ms[k..]
    ensures NodesFrom(nid, cs, k) == map[]
    decreases |cs| - k
  {
    hide ConIndex;
    if k < |cs| {
      ForkMsgs(nid, cs, ms, p, at, k + 1);
      ChopExtend(nid, ConIndex(k));
      assert |nid + [ConIndex(k)]| > |ROOT|;
      assert MsgsAt(nid + [ConIndex(k)], cs[k], at) == [ms[k]];
    }
  }

  lemma NewNodeIsRooted(nid: Nid, t: Tree, found: Option<Tree>)
    requires nid != ROOT ==> found == Some(t)
    ensures Rooted(nid, NewNode(nid, ParentOf(nid), t), Prepare(t).tree, found)
  {
    if RewriteTree(t).Rewritten? && !RewriteTree(t).changed {
      Unchanged(t);
    }
  }

  /** What a reaction leaves of a node alone in its context, and what it queues. */
  lemma SettleStep(ctx: Nodes, nid: Nid, node: Node, tree: Tree, r: Reaction, kids: Option<seq<Nid>>, at: nat, queue: seq<Msg>)
    returns (outs: seq<Msg>)
    requires nid != [] && nid !in ctx
    requires node.parent == ParentOf(nid)
    requires r.next.Some? ==> r.verdict.Ok?
    requires at > 0
    ensures outs == NextMsgs(nid, r) + VerdictMsgs(nid, r)
    ensures
      var c := ConfExe(nid, node, tree, r, kids, at);
      && SettleExe(State(ctx[nid := node], queue), nid, node, r, kids) == State(ctx + NodesOf(nid, c), queue + outs)
      && MsgsAt(nid, c, at - 1) == []
      && MsgsAt(nid, c, at) == outs
  {
    outs := NextMsgs(nid, r) + VerdictMsgs(nid, r);
    if r.next.Some? {
      ChopExtend(nid, r.next.value);
      assert |nid + [r.next.value]| > |ROOT|;
    }
  }

  lemma SettleRcvStep(ctx: Nodes, nid: Nid, node: Node, tree: Tree, r: Reaction, kids: Option<seq<Nid>>, at: nat, queue: seq<Msg>)
    returns (outs: seq<Msg>)
    requires nid != [] && nid !in ctx
    requires node.parent == ParentOf(nid)
    requires r.next.Some? ==> r.verdict.Ok?
    requires at > 0
    ensures
      var c := ConfRcv(nid, node, tree, r, kids, at);
      && SettleRcv(State(ctx[nid := node], queue), nid, node, r, kids) == State(ctx + NodesOf(nid, c), queue + outs)
      && MsgsAt(nid, c, at - 1) == []
      && MsgsAt(nid, c, at) == outs
  {
    if r.verdict.Over? {
      outs := [OverMsg(nid, node.parent, r.payload)];
      assert ctx[nid := node] - {nid} == ctx;
    } else {
      outs := SettleStep(ctx, nid, node, tree, r, kids, at, queue);
    }
  }

  /** The nodes and the messages of a concurrence. */
  lemma ManyIs(nid: Nid, node: Node, tree: Tree, cs: seq<Conf>, r: nat)
    ensures NodesOf(nid, Many(node, tree, cs)) == map[nid := node] + NodesFrom(nid, cs, 0)
    ensures MsgsAt(nid, Many(node, tree, cs), r) == MsgsFrom(nid, cs, 0, r)
    ensures MsgsAt(nid, Many(node, tree, cs), r + 1) == MsgsFrom(nid, cs, 0, r + 1)
  {
  }

  lemma ForkStep(ctx: Nodes, nid: Nid, node: Node, tree: Tree, p: Payload, at: nat, queue: seq<Msg>) returns (outs: seq<Msg>)
    requires nid != [] && nid !in ctx && at > 0
    ensures
      var c := ConfFork(nid, node, tree, p, at);
      && ForkIn(State(ctx[nid := node], queue), nid, node, tree, p) == State(ctx + NodesOf(nid, c), queue + outs)
      && MsgsAt(nid, c, at - 1) == []
      && MsgsAt(nid, c, at) == outs
  {
    hide ConIndex, MsgsFrom, NodesFrom;
    var n := |tree.children|;
    var cs := ForkConfs(tree.children, n, p, at);
    outs := ConMsgs(nid, n, p);
    ForkMsgs(nid, cs, outs, p, at, 0);
    NoMsgsFrom(nid, cs, 0, at - 1);
    assert outs[0..] == outs;
    var after := node.(children := Some(ConIds(nid, n)));
    ManyIs(nid, after, tree, cs, at - 1);
    assert ctx[nid := node][nid := after] == ctx + (map[nid := after] + map[]);
  }

  /** A node just created finds its first child, if it has one, and nothing else of its own. */
  lemma PlainExec(ctx: Nodes, nid: Nid, t: Tree, p: Payload)
    requires Context(ctx, nid, NodeTree(ctx, nid))
    requires nid != ROOT ==> NodeTree(ctx, nid) == Some(t)
    ensures
      var u := Prepare(t);
      ExeReaction(ctx[nid := NewNode(nid, ParentOf(nid), t)], nid, u, p) == Exe(u.op, u.tree, p, u.tree.children != [])
  {
    assert Above(nid, nid) && Above(nid, nid + [0]);
    NewNodeIsRooted(nid, t, NodeTree(ctx, nid));
    ChildTree(ctx, nid, NewNode(nid, ParentOf(nid), t), Prepare(t).tree, 0);
  }

  lemma StepExec(ctx: Nodes, nid: Nid, t: Tree, p: Payload, at: nat, queue: seq<Msg>) returns (outs: seq<Msg>)
    requires Context(ctx, nid, NodeTree(ctx, nid)) && at > 0
    requires nid != ROOT ==> NodeTree(ctx, nid) == Some(t)
    ensures
      var c := AfterExe(nid, t, p, at);
      && ExecuteIn(State(ctx, queue), nid, ParentOf(nid), t, p)
         == State(ctx + NodesOf(nid, c), queue + LaunchMsgs(nid, ParentOf(nid), p) + outs)
      && MsgsAt(nid, c, at - 1) == []
      && MsgsAt(nid, c, at) == outs
  {
    var u := Prepare(t);
    var node := NewNode(nid, ParentOf(nid), t);
    var launched := queue + LaunchMsgs(nid, ParentOf(nid), p);
    assert Above(nid, nid);
    if Machine.Forks(u) {
      outs := ForkStep(ctx, nid, node, u.tree, p, at, launched);
    } else {
      PlainExec(ctx, nid, t, p);
      var e := Exe(u.op, u.tree, p, u.tree.children != []);
      outs := SettleStep(ctx, nid, node, u.tree, e, ExeKids(u.op, u.tree, p, nid, e.next), at, launched);
    }
  }

  /** A node alone in its context receives a message, from itself or from its child `from`. */
  lemma StepRcv(ctx: Nodes, nid: Nid, node: Node, tree: Tree, from: Option<nat>, p: Payload, r: nat, queue: seq<Msg>)
    returns (outs: seq<Msg>)
    requires Context(ctx, nid, NodeTree(ctx, nid)) && Rooted(nid, node, tree, NodeTree(ctx, nid))
    requires node.op != Concurrence || (from.None? && node.children == None)
    ensures
      var c := AfterRcv(nid, node, tree, from, p, r + 1);
      var sender := if from.None? then nid else nid + [from.value];
      && HandleReturn(State(ctx[nid := node], queue), Receive(nid, sender, p))
         == State(ctx + NodesOf(nid, c), queue + outs)
      && MsgsAt(nid, c, r) == []
      && MsgsAt(nid, c, r + 1) == outs
  {
    assert Above(nid, nid);
    var k := NextIndex(node.op, from, p);
    assert Above(nid, nid + [k]);
    ChildTree(ctx, nid, node, tree, k);
    var sender := if from.None? then nid else nid + [from.value];
    assert FromIndex(nid, sender) == from by {
      if from.Some? {
        ChopExtend(nid, from.value);
        assert |sender| != |nid|;
      }
    }
    var e := RcvReaction(node, tree, from, p);
    var kids := RcvKids(node.op, node.children, nid, from, p, e.next);
    outs := SettleRcvStep(ctx, nid, node, tree, e, kids, r + 1, queue);
    ReceivingIs(ctx[nid := node], nid, node, tree, from, sender, p);
  }

  lemma ReceivingIs(nodes: Nodes, nid: Nid, node: Node, tree: Tree, from: Option<nat>, sender: Nid, p: Payload)
    requires nid in nodes && nodes[nid] == node
    requires NodeTree(nodes, nid) == Some(tree)
    requires FromIndex(nid, sender) == from
    requires var k := NextIndex(node.op, from, p); NodeTree(nodes, nid + [k]) == At(tree.children, k)
    requires node.op != Concurrence || (from.None? && node.children == None)
    ensures
      var e := RcvReaction(node, tree, from, p);
      Receiving(nodes, nid, sender, p) == (e, RcvKids(node.op, node.children, nid, from, p, e.next))
  {
  }

  /** The first child of a concurrence with a message of this turn is one of `cs`, and its siblings are told
      apart from it. */
  lemma ManyContext(ctx: Nodes, nid: Nid, node: Node, tree: Tree, cs: seq<Conf>, j: nat) returns (inner: Nodes)
    requires Context(ctx, nid, NodeTree(ctx, nid)) && Good(nid, Many(node, tree, cs), NodeTree(ctx, nid))
    requires j < |cs|
    ensures inner == ctx[nid := node] + NodesFrom(nid, cs[j := Gone], 0)
    ensures Context(inner, nid + [ConIndex(j)], At(tree.children, ConIndex(j)))
    ensures ctx + NodesOf(nid, Many(node, tree, cs)) == inner + NodesOf(nid + [ConIndex(j)], cs[j])
    ensures forall x: Conf :: ctx + NodesOf(nid, Many(node, tree, cs[j := x])) == inner + NodesOf(nid + [ConIndex(j)], x)
  {
    hide NodeTree, ConIndex;
    var id := nid + [ConIndex(j)];
    var ds := cs[j := Gone];
    var others := NodesFrom(nid, ds, 0);
    inner := ctx[nid := node] + others;
    assert Above(nid, id) && Above(nid, nid);
    ChildTree(ctx, nid, node, tree, ConIndex(j));
    NodesFromUnder(nid, ds, 0);
    assert ds[j].Gone?;
    GoodFromChopped(nid, ds, tree, 0);
    forall k | k in others ensures !Above(id, k) && !Above(k, id) {
      assert k[|nid|] != ConIndex(j);
      assert id[|nid|] == ConIndex(j);
    }
    NodeTreeFrame(ctx[nid := node], inner, id);
    assert forall k :: Above(id, k) ==> Above(nid, k);
    forall x: Conf ensures ctx + NodesOf(nid, Many(node, tree, cs[j := x])) == inner + NodesOf(id, x) {
      NodesFromSplit(nid, cs[j := x], 0, j);
      assert cs[j := x][j := Gone] == ds;
      Reassociate(ctx, nid, node, others, NodesOf(id, x));
    }
    assert cs[j := cs[j]] == cs;
  }

  lemma Reassociate(ctx: Nodes, nid: Nid, node: Node, others: Nodes, child: Nodes)
    ensures ctx + (map[nid := node] + (others + child)) == (ctx[nid := node] + others) + child
  {
  }

  /** The engine and the configuration make the same step. */
  ghost predicate Simulates(ctx: Nodes, nid: Nid, c: Conf, after: Conf, r: nat, queue: seq<Msg>, outs: seq<Msg>) {
    && MsgsAt(nid, c, r) != []
    && Handle(State(ctx + NodesOf(nid, c), queue), MsgsAt(nid, c, r)[0]) == State(ctx + NodesOf(nid, after), queue + outs)
    && MsgsAt(nid, after, r) == MsgsAt(nid, c, r)[1..]
    && MsgsAt(nid, after, r + 1) == MsgsAt(nid, c, r + 1) + outs
  }

  /** The nodes of a concurrence around child `j`, which has answered. */
  lemma AnswerNodes(ctx: Nodes, nid: Nid, node: Node, after: Node, tree: Tree, cs: seq<Conf>, j: nat)
    requires nid != [] && nid !in ctx && j < |cs| && cs[j].Reply?
    ensures
      var others := NodesFrom(nid, cs[j := Gone], 0);
      && nid !in others
      && ctx + NodesOf(nid, Many(node, tree, cs)) == ctx[nid := node] + others
      && ctx + NodesOf(nid, Many(after, tree, cs[j := Gone])) == ctx[nid := after] + others
  {
    hide ConIndex;
    var ds := cs[j := Gone];
    NodesFromSplit(nid, cs, 0, j);
    NodesFromUnder(nid, ds, 0);
    ManyIs(nid, node, tree, cs, 0);
    ManyIs(nid, after, tree, ds, 0);
    var others := NodesFrom(nid, ds, 0);
    Regroup(ctx, nid, node, others);
    Regroup(ctx, nid, after, others);
  }

  lemma Regroup(ctx: Nodes, nid: Nid, node: Node, others: Nodes)
    ensures ctx + (map[nid := node] + (others + map[])) == ctx[nid := node] + others
    ensures others + map[] == others
  {
  }

  /** What a concurrence does with an answer. */
  lemma AnswerHandled(ctx: Nodes, others: Nodes, nid: Nid, node: Node, from: Nid, p: Payload, kids: seq<Nid>, queue: seq<Msg>)
    requires nid !in ctx && nid !in others && node.op == Concurrence
    requires node.children.Some? && Remove(node.children.value, from) == kids
    ensures
      HandleReturn(State(ctx[nid := node] + others, queue), Receive(nid, from, p)) ==
      if kids == [] then State(ctx + others, queue + [OverMsg(nid, node.parent, p)])
      else State(ctx[nid := node.(children := Some(kids))] + others, queue)
  {
    var nodes := ctx[nid := node] + others;
    assert nodes[nid] == node;
    assert nodes - {nid} == ctx + others;
    var after := node.(children := Some(kids));
    assert nodes[nid := after] == ctx[nid := after] + others;
  }

  /** Child `j` has answered its concurrence. */
  lemma StepAnswer(ctx: Nodes, nid: Nid, node: Node, tree: Tree, cs: seq<Conf>, j: nat, r: nat, queue: seq<Msg>)
    returns (outs: seq<Msg>)
    requires nid != [] && nid !in ctx && node.parent == ParentOf(nid) && !node.failed
    requires node.op == Concurrence && node.children == Some(Awaited(nid, cs, 0))
    requires j < |cs| && cs[j].Reply? && cs[j].at == r
    requires forall m :: 0 <= m < j ==> AllFrom(cs[m], r + 1)
    requires forall m :: j < m < |cs| ==> UpTo(cs[m], r)
    ensures Simulates(ctx, nid, Many(node, tree, cs), AfterAnswer(nid, node, tree, cs, j, r + 1), r, queue, outs)
  {
    hide ConIndex, Awaited, AllFrom, UpTo, NodesFrom, MsgsFrom;
    var id := nid + [ConIndex(j)];
    var ds := cs[j := Gone];
    var kids := Awaited(nid, ds, 0);
    var after := node.(children := Some(kids));
    ChopExtend(nid, ConIndex(j));
    assert |id| > |ROOT|;
    AwaitedRemove(nid, cs, 0, j);
    MsgsFromStep(nid, cs, 0, j, Gone, r, []);
    ManyIs(nid, node, tree, cs, r);
    ManyIs(nid, after, tree, ds, r);
    AnswerNodes(ctx, nid, node, after, tree, cs, j);
    AnswerHandled(ctx, NodesFrom(nid, ds, 0), nid, node, id, cs[j].payload, kids, queue);
    AllGone(nid, ds, 0);
    outs := if kids == [] then [OverMsg(nid, node.parent, cs[j].payload)] else [];
    assert kids == [] ==> ctx + map[] == ctx;
    assert MsgsAt(nid, Many(node, tree, cs), r)[0] == Receive(nid, id, cs[j].payload);
  }

  lemma StepSelf(ctx: Nodes, nid: Nid, node: Node, tree: Tree, p: Payload, r: nat, queue: seq<Msg>) returns (outs: seq<Msg>)
    requires Context(ctx, nid, NodeTree(ctx, nid)) && Rooted(nid, node, tree, NodeTree(ctx, nid))
    requires node.op == Concurrence ==> node.children == None
    ensures Simulates(ctx, nid, Self(node, tree, p, r), AfterRcv(nid, node, tree, None, p, r + 1), r, queue, outs)
  {
    outs := StepRcv(ctx, nid, node, tree, None, p, r, queue);
    SelfIs(ctx, nid, node, tree, p, r);
  }

  lemma SelfIs(ctx: Nodes, nid: Nid, node: Node, tree: Tree, p: Payload, r: nat)
    ensures ctx + NodesOf(nid, Self(node, tree, p, r)) == ctx[nid := node]
    ensures MsgsAt(nid, Self(node, tree, p, r), r) == [Receive(nid, nid, p)]
    ensures MsgsAt(nid, Self(node, tree, p, r), r + 1) == []
  {
  }

  lemma StepReplied(ctx: Nodes, nid: Nid, node: Node, tree: Tree, i: nat, p: Payload, r: nat, queue: seq<Msg>)
    returns (outs: seq<Msg>)
    requires Context(ctx, nid, NodeTree(ctx, nid)) && Rooted(nid, node, tree, NodeTree(ctx, nid))
    requires node.op != Concurrence
    ensures Simulates(ctx, nid, One(node, tree, i, Reply(p, r)), AfterRcv(nid, node, tree, Some(i), p, r + 1), r, queue, outs)
  {
    hide HandleReturn, AfterRcv;
    outs := StepRcv(ctx, nid, node, tree, Some(i), p, r, queue);
    OneIs(ctx, nid, node, tree, i, Reply(p, r), r);
    ChopExtend(nid, i);
    assert |nid + [i]| > |ROOT|;
    assert ctx[nid := node] + map[] == ctx[nid := node];
    assert MsgsAt(nid, One(node, tree, i, Reply(p, r)), r + 1) == [];
  }

  lemma StepFailing(ctx: Nodes, nid: Nid, node: Node, tree: Tree, p: Payload, r: nat, queue: seq<Msg>)
    ensures Simulates(ctx, nid, Failing(node, tree, p, r), Stuck(node, tree), r, queue, [])
  {
  }

  lemma StepRejected(ctx: Nodes, nid: Nid, p: Payload, r: nat, queue: seq<Msg>)
    requires nid != ROOT && NodeTree(ctx, nid) == None
    ensures Simulates(ctx, nid, Exec(None, p, r), Rejected, r, queue, [])
  {
    ExecIs(ctx, nid, None, p, r);
    assert ctx + map[] == ctx;
  }

  lemma StepPending(ctx: Nodes, nid: Nid, t: Tree, p: Payload, r: nat, queue: seq<Msg>) returns (outs: seq<Msg>)
    requires Context(ctx, nid, Some(t)) && nid != ROOT
    ensures Simulates(ctx, nid, Exec(Some(t), p, r), AfterExe(nid, t, p, r + 1), r, queue, outs)
  {
    outs := StepExec(ctx, nid, t, p, r + 1, queue);
    PendingIs(ctx, nid, t, p, r, queue, AfterExe(nid, t, p, r + 1), outs);
  }

  lemma PendingIs(ctx: Nodes, nid: Nid, t: Tree, p: Payload, r: nat, queue: seq<Msg>, after: Conf, outs: seq<Msg>)
    requires nid != ROOT && NodeTree(ctx, nid) == Some(t)
    requires ExecuteIn(State(ctx, queue), nid, ParentOf(nid), t, p)
          == State(ctx + NodesOf(nid, after), queue + LaunchMsgs(nid, ParentOf(nid), p) + outs)
    requires MsgsAt(nid, after, r) == [] && MsgsAt(nid, after, r + 1) == outs
    ensures Simulates(ctx, nid, Exec(Some(t), p, r), after, r, queue, outs)
  {
    hide ExecuteIn;
    ExecIs(ctx, nid, Some(t), p, r);
    assert queue + [] + outs == queue + outs;
  }

  lemma ExecIs(ctx: Nodes, nid: Nid, found: Option<Tree>, p: Payload, r: nat)
    ensures ctx + NodesOf(nid, Exec(found, p, r)) == ctx
    ensures MsgsAt(nid, Exec(found, p, r), r) == [ExecMsg(nid, found, p)]
    ensures MsgsAt(nid, Exec(found, p, r), r + 1) == []
  {
  }

  lemma StepOne(
    ctx: Nodes, nid: Nid, node: Node, tree: Tree, i: nat, child: Conf, after: Conf, r: nat, queue: seq<Msg>, outs: seq<Msg>)
    requires Simulates(ctx[nid := node], nid + [i], child, after, r, queue, outs)
    ensures Simulates(ctx, nid, One(node, tree, i, child), One(node, tree, i, after), r, queue, outs)
  {
    OneIs(ctx, nid, node, tree, i, child, r);
    OneIs(ctx, nid, node, tree, i, after, r);
  }

  lemma OneIs(ctx: Nodes, nid: Nid, node: Node, tree: Tree, i: nat, child: Conf, r: nat)
    ensures ctx + NodesOf(nid, One(node, tree, i, child)) == ctx[nid := node] + NodesOf(nid + [i], child)
    ensures MsgsAt(nid, One(node, tree, i, child), r) == MsgsAt(nid + [i], child, r)
    ensures MsgsAt(nid, One(node, tree, i, child), r + 1) == MsgsAt(nid + [i], child, r + 1)
  {
  }

  lemma StepChild(
    ctx: Nodes, inner: Nodes, nid: Nid, node: Node, tree: Tree, cs: seq<Conf>, j: nat, after: Conf, r: nat, queue: seq<Msg>,
    outs: seq<Msg>)
    requires j < |cs|
    requires forall m :: 0 <= m < j ==> AllFrom(cs[m], r + 1)
    requires forall m :: j < m < |cs| ==> UpTo(cs[m], r)
    requires ctx + NodesOf(nid, Many(node, tree, cs)) == inner + NodesOf(nid + [ConIndex(j)], cs[j])
    requires ctx + NodesOf(nid, Many(node, tree, cs[j := after])) == inner + NodesOf(nid + [ConIndex(j)], after)
    requires Simulates(inner, nid + [ConIndex(j)], cs[j], after, r, queue, outs)
    ensures Simulates(ctx, nid, Many(node, tree, cs), Many(node, tree, cs[j := after]), r, queue, outs)
  {
    hide ConIndex;
    MsgsFromStep(nid, cs, 0, j, after, r, outs);
  }

  /** The main lemma: handling the first message of the turn is one step of the configuration. */
  lemma {:induction false} StepSimulates(ctx: Nodes, nid: Nid, c: Conf, r: nat, queue: seq<Msg>) returns (outs: seq<Msg>)
    requires Context(ctx, nid, NodeTree(ctx, nid)) && Good(nid, c, NodeTree(ctx, nid))
    requires Tidy(c, r) && Due(c, r) && !c.Reply? && (nid == ROOT ==> !c.Exec?)
    ensures Simulates(ctx, nid, c, Next(nid, c, r), r, queue, outs)
    decreases c
  {
    hide Handle, NodesOf, ConIndex;
    assert Above(nid, nid);
    match c {
      case Exec(None, p, _) =>
        StepRejected(ctx, nid, p, r, queue);
        outs := [];
      case Exec(Some(t), p, _) =>
        outs := StepPending(ctx, nid, t, p, r, queue);
      case Self(node, tree, p, _) =>
        outs := StepSelf(ctx, nid, node, tree, p, r, queue);
      case Failing(node, tree, p, _) =>
        StepFailing(ctx, nid, node, tree, p, r, queue);
        outs := [];
      case One(node, tree, i, child) =>
        if child.Reply? {
          assert AllFrom(child, r) && !AllFrom(child, r + 1);
          assert child == Reply(child.payload, r);
          outs := StepReplied(ctx, nid, node, tree, i, child.payload, r, queue);
        } else {
          var id := nid + [i];
          assert |id| > |ROOT| && Above(nid, id);
          ChildTree(ctx, nid, node, tree, i);
          assert forall k :: Above(id, k) ==> Above(nid, k);
          outs := StepSimulates(ctx[nid := node], id, child, r, queue);
          StepOne(ctx, nid, node, tree, i, child, Next(id, child, r), r, queue, outs);
        }
      case Many(node, tree, cs) =>
        outs := StepMany(ctx, nid, node, tree, cs, r, queue);
    }
  }

  /** The child whose message is next. */
  lemma DueChild(nid: Nid, node: Node, tree: Tree, cs: seq<Conf>, found: Option<Tree>, r: nat) returns (j: nat)
    requires Good(nid, Many(node, tree, cs), found)
    requires Tidy(Many(node, tree, cs), r) && Due(Many(node, tree, cs), r)
    ensures j < |cs| && Due(cs[j], r) && j == FirstDue(cs, r) && Tidy(cs[j], r)
    ensures Good(nid + [ConIndex(j)], cs[j], At(tree.children, ConIndex(j)))
  {
    hide ConIndex, Awaited, Rooted;
    j := FirstDue(cs, r);
  }

  lemma {:induction false} StepMany(ctx: Nodes, nid: Nid, node: Node, tree: Tree, cs: seq<Conf>, r: nat, queue: seq<Msg>)
    returns (outs: seq<Msg>)
    requires Context(ctx, nid, NodeTree(ctx, nid)) && Good(nid, Many(node, tree, cs), NodeTree(ctx, nid))
    requires Tidy(Many(node, tree, cs), r) && Due(Many(node, tree, cs), r)
    ensures Simulates(ctx, nid, Many(node, tree, cs), Next(nid, Many(node, tree, cs), r), r, queue, outs)
    decreases cs
  {
    hide ConIndex, Handle, NodesOf, MsgsAt, AfterAnswer, Awaited, NodeTree, Simulates;
    var j := DueChild(nid, node, tree, cs, NodeTree(ctx, nid), r);
    var id := nid + [ConIndex(j)];
    assert |id| > |ROOT|;
    if cs[j].Reply? {
      outs := StepAnswer(ctx, nid, node, tree, cs, j, r, queue);
    } else {
      var inner := ManyContext(ctx, nid, node, tree, cs, j);
      outs := StepSimulates(inner, id, cs[j], r, queue);
      StepChild(ctx, inner, nid, node, tree, cs, j, Next(id, cs[j], r), r, queue, outs);
    }
  }
}
