/** What holds of every state of every run: who is alive, who waits for what, and which lookups succeed. */
module Invariants {
  import opened Values
  import opened Trees
  import opened Instructions
  import opened Machine
  import opened Simulation
  import opened Stepping
  import opened Preserving
  import opened Meaning
  import opened Runs
  import R = Rewriting

  // --- what a state says of an id ------------------------------------------------------------------

  /** The node that a message stands for: one still to execute, or one that has answered. */
  function Owner(m: Msg): Option<Nid> {
    match m
    case Execute(nid, _, _, _) => Some(nid)
    case Receive(nid, from, _) => if nid == from then None else Some(from)
    case Terminated(nid, _) => Some(nid)
    case _ => None
  }

  function Times(ms: seq<Msg>, id: Nid): nat {
    if ms == [] then 0 else (if Owner(ms[0]) == Some(id) then 1 else 0) + Times(ms[1..], id)
  }

  /** The messages from `id` to itself. */
  function Selfs(ms: seq<Msg>, id: Nid): nat {
    if ms == [] then 0 else
    (if ms[0].Receive? && ms[0].nid == ms[0].from == id then 1 else 0) + Selfs(ms[1..], id)
  }

  /** How many times `id` is taken: as a live node, as one to execute, as one whose answer is queued. */
  function Claims(s: State, id: Nid): nat {
    Times(s.msgs, id) + if id in s.nodes then 1 else 0
  }

  // --- safe states ---------------------------------------------------------------------------------

  /** The parent of a live node is live. */
  ghost predicate Linked(nodes: Nodes) {
    forall id :: id in nodes ==>
      id != [] && nodes[id].parent == ParentOf(id) && (id != ROOT ==> Chop(id) in nodes)
  }

  /** No queued message is for a node that is gone. */
  predicate Addressed(nodes: Nodes, m: Msg) {
    match m
    case Execute(nid, parent, _, _) => parent == ParentOf(nid) && (parent.Some? ==> parent.value in nodes)
    case Receive(nid, from, _) => nid in nodes && (from == nid || ParentOf(from) == Some(nid))
    case _ => true
  }

  /** A node waits for nothing: no message to itself, no child claimed. */
  ghost predicate Silent(s: State, id: Nid) {
    Selfs(s.msgs, id) == 0 && forall i: nat :: Claims(s, id + [i]) == 0
  }

  /** A node waits for child `i` and for nothing else, with what it keeps then in `children`. */
  ghost predicate WaitsForChild(s: State, id: Nid, i: nat)
    requires id in s.nodes
  {
    && Selfs(s.msgs, id) == 0
    && Claims(s, id + [i]) == 1
    && (forall j: nat :: j != i ==> Claims(s, id + [j]) == 0)
    && s.nodes[id].children == Some(Keeps(s.nodes[id].op, id, i))
  }

  /** A node waits for exactly one thing: its own message, with nothing in `children`, or one child. */
  ghost predicate WaitsForOne(s: State, id: Nid)
    requires id in s.nodes
  {
    || (Selfs(s.msgs, id) == 1 && (forall i: nat :: Claims(s, id + [i]) == 0) && NoChildren(s.nodes[id].children))
    || exists i: nat :: WaitsForChild(s, id, i)
  }

  /** A concurrence waits for its `children`, each claimed once as long as the tree has it. */
  ghost predicate WaitsForAll(s: State, id: Nid, kids: seq<Nid>, n: nat) {
    && kids != []
    && Selfs(s.msgs, id) == 0
    && (forall i: nat :: Claims(s, id + [i]) == 1 ==> id + [i] in kids)
    && (forall i: nat :: i < n && id + [i] in kids ==> Claims(s, id + [i]) == 1)
  }

  /** `n` is the number of children of the tree of `id`. */
  ghost predicate Waits(s: State, id: Nid, n: nat)
    requires id in s.nodes
  {
    var node := s.nodes[id];
    if node.failed then Silent(s, id)
    else if node.op == Concurrence && node.children.Some? then WaitsForAll(s, id, node.children.value, n)
    else WaitsForOne(s, id) || (node.op == Stall && Silent(s, id))
  }

  /** The tree at the end of the path `id`, from the root through the current trees. */
  function Navigate(nodes: Nodes, id: Nid): Option<Tree>
    decreases |id|
  {
    if id in nodes && nodes[id].tree.Some? then nodes[id].tree
    else if |id| <= 1 then None
    else
      var up := Navigate(nodes, Chop(id));
      if up.None? then None else At(up.value.children, Last(id))
  }

  ghost predicate Safe(s: State) {
    && Linked(s.nodes)
    && (forall m :: m in s.msgs ==> Addressed(s.nodes, m))
    && (forall id :: Claims(s, id) <= 1)
    && (forall id :: id in s.nodes ==> Waits(s, id, |TreeOf(s.nodes, id).children|))
    && (forall m :: m in s.msgs && m.Terminated? ==> s == State(map[], [m]))
    && (forall id :: id in s.nodes ==> Navigate(s.nodes, id).Some?)
    && (forall id :: NodeTree(s.nodes, id) == Navigate(s.nodes, id))
  }

  // --- counting in configurations ------------------------------------------------------------------

  lemma {:induction false} Counts(a: seq<Msg>, b: seq<Msg>, id: Nid)
    ensures Times(a + b, id) == Times(a, id) + Times(b, id)
    ensures Selfs(a + b, id) == Selfs(a, id) + Selfs(b, id)
  {
    if a == [] {
      assert a + b == b;
    } else {
      assert (a + b)[1..] == a[1..] + b;
      Counts(a[1..], b, id);
    }
  }

  /** Both turns of a configuration. */
  function TimesOf(nid: Nid, c: Conf, r: nat, id: Nid): nat {
    Times(MsgsAt(nid, c, r), id) + Times(MsgsAt(nid, c, r + 1), id)
  }

  function SelfsOf(nid: Nid, c: Conf, r: nat, id: Nid): nat {
    Selfs(MsgsAt(nid, c, r), id) + Selfs(MsgsAt(nid, c, r + 1), id)
  }

  function ClaimsOf(nid: Nid, c: Conf, r: nat, id: Nid): nat {
    TimesOf(nid, c, r, id) + if id in NodesOf(nid, c) then 1 else 0
  }

  function TimesFrom(nid: Nid, cs: seq<Conf>, k: nat, r: nat, id: Nid): nat
    requires k <= |cs|
  {
    Times(MsgsFrom(nid, cs, k, r), id) + Times(MsgsFrom(nid, cs, k, r + 1), id)
  }

  function SelfsFrom(nid: Nid, cs: seq<Conf>, k: nat, r: nat, id: Nid): nat
    requires k <= |cs|
  {
    Selfs(MsgsFrom(nid, cs, k, r), id) + Selfs(MsgsFrom(nid, cs, k, r + 1), id)
  }

  function ClaimsFrom(nid: Nid, cs: seq<Conf>, k: nat, r: nat, id: Nid): nat
    requires k <= |cs|
  {
    TimesFrom(nid, cs, k, r, id) + if id in NodesFrom(nid, cs, k) then 1 else 0
  }

  lemma FromSum(nid: Nid, cs: seq<Conf>, k: nat, r: nat, id: Nid)
    requires k < |cs|
    ensures var kid := nid + [ConIndex(k)];
      && TimesFrom(nid, cs, k, r, id) == TimesOf(kid, cs[k], r, id) + TimesFrom(nid, cs, k + 1, r, id)
      && SelfsFrom(nid, cs, k, r, id) == SelfsOf(kid, cs[k], r, id) + SelfsFrom(nid, cs, k + 1, r, id)
      && (id in NodesFrom(nid, cs, k) <==> id in NodesOf(kid, cs[k]) || id in NodesFrom(nid, cs, k + 1))
  {
    hide MsgsAt, NodesOf, ConIndex, Times, Selfs;
    var kid := nid + [ConIndex(k)];
    Counts(MsgsAt(kid, cs[k], r), MsgsFrom(nid, cs, k + 1, r), id);
    Counts(MsgsAt(kid, cs[k], r + 1), MsgsFrom(nid, cs, k + 1, r + 1), id);
  }

  lemma NoCounts(id: Nid)
    ensures Times([], id) == 0 == Selfs([], id)
  {
  }

  lemma OneCount(m: Msg, id: Nid)
    ensures Times([m], id) == if Owner(m) == Some(id) then 1 else 0
    ensures Selfs([m], id) == if m.Receive? && m.nid == m.from == id then 1 else 0
  {
    assert [m][1..] == [];
  }

  /** A configuration without children claims its own id at most. */
  lemma LeafCounts(nid: Nid, c: Conf, r: nat, id: Nid)
    requires nid != [] && !c.One? && !c.Many?
    ensures ClaimsOf(nid, c, r, id) ==
      if id == nid && !c.Gone? && !c.Rejected? && ((c.Exec? || c.Reply?) ==> r <= c.at <= r + 1) then 1 else 0
    ensures SelfsOf(nid, c, r, id) == if c.Self? && id == nid && r <= c.at <= r + 1 then 1 else 0
  {
    NoCounts(id);
    match c
    case Exec(found, p, _) => OneCount(ExecMsg(nid, found, p), id);
    case Self(_, _, p, _) => OneCount(Receive(nid, nid, p), id);
    case Reply(p, _) => OneCount(OverMsg(nid, ParentOf(nid), p), id);
    case Failing(_, _, p, _) => OneCount(Failed(nid, p), id);
    case _ =>
  }

  /** A configuration only claims ids under its own, and each once. */
  lemma {:induction false} ClaimedOnce(nid: Nid, c: Conf, r: nat, id: Nid)
    requires nid != []
    ensures ClaimsOf(nid, c, r, id) <= 1
    ensures !Above(nid, id) ==> ClaimsOf(nid, c, r, id) == 0 && SelfsOf(nid, c, r, id) == 0
    decreases c, 0
  {
    match c
    case One(_, _, i, child) => ClaimedOnce(nid + [i], child, r, id);
    case Many(_, _, cs) => ClaimedFrom(nid, cs, 0, r, id);
    case _ => LeafCounts(nid, c, r, id);
  }

  lemma {:induction false} ClaimedFrom(nid: Nid, cs: seq<Conf>, k: nat, r: nat, id: Nid)
    requires nid != [] && k <= |cs|
    ensures ClaimsFrom(nid, cs, k, r, id) <= 1
    ensures (!Above(nid, id) || id == nid) ==> ClaimsFrom(nid, cs, k, r, id) == 0 && SelfsFrom(nid, cs, k, r, id) == 0
    ensures (Above(nid, id) && id != nid && id[|nid|] < ConIndex(k)) ==>
      ClaimsFrom(nid, cs, k, r, id) == 0 && SelfsFrom(nid, cs, k, r, id) == 0
    decreases cs, |cs| - k
  {
    hide MsgsAt, NodesOf, ConIndex, Times, Selfs;
    if k < |cs| {
      var kid := nid + [ConIndex(k)];
      ClaimedOnce(kid, cs[k], r, id);
      ClaimedFrom(nid, cs, k + 1, r, id);
      FromSum(nid, cs, k, r, id);
      ConIndexGrows(k, k + 1);
      assert Above(kid, id) ==> id[|nid|] == ConIndex(k);
    } else {
      assert MsgsFrom(nid, cs, k, r) == [] == MsgsFrom(nid, cs, k, r + 1);
      NoCounts(id);
    }
  }

  /** The child of a concurrence that an id is under, if any, is alone to claim it. */
  lemma {:induction false} ClaimsUnder(nid: Nid, cs: seq<Conf>, k: nat, j: nat, r: nat, id: Nid)
    requires nid != [] && k <= j < |cs| && Above(nid + [ConIndex(j)], id)
    ensures ClaimsFrom(nid, cs, k, r, id) == ClaimsOf(nid + [ConIndex(j)], cs[j], r, id)
    ensures SelfsFrom(nid, cs, k, r, id) == SelfsOf(nid + [ConIndex(j)], cs[j], r, id)
    decreases j - k
  {
    hide MsgsAt, NodesOf, ConIndex, Times, Selfs;
    FromSum(nid, cs, k, r, id);
    assert Above(nid, id) && id[|nid|] == (nid + [ConIndex(j)])[|nid|];
    if k < j {
      ConIndexGrows(k, j);
      assert !Above(nid + [ConIndex(k)], id) by {
        assert (nid + [ConIndex(k)])[|nid|] != id[|nid|];
      }
      ClaimedOnce(nid + [ConIndex(k)], cs[k], r, id);
      ClaimsUnder(nid, cs, k + 1, j, r, id);
    } else {
      ConIndexGrows(k, k + 1);
      ClaimedFrom(nid, cs, k + 1, r, id);
    }
  }

  // --- who waits for what --------------------------------------------------------------------------

  /** The nodes and the messages of a configuration alone. */
  function Part(nid: Nid, c: Conf, r: nat): State {
    State(NodesOf(nid, c), MsgsAt(nid, c, r) + MsgsAt(nid, c, r + 1))
  }

  lemma PartCounts(nid: Nid, c: Conf, r: nat, id: Nid)
    ensures Claims(Part(nid, c, r), id) == ClaimsOf(nid, c, r, id)
    ensures Selfs(Part(nid, c, r).msgs, id) == SelfsOf(nid, c, r, id)
  {
    hide MsgsAt, NodesOf, Times, Selfs;
    Counts(MsgsAt(nid, c, r), MsgsAt(nid, c, r + 1), id);
  }

  /** Waiting only depends on the node, on its own messages and on the claims to its children. */
  lemma WaitsSame(s: State, u: State, id: Nid, n: nat)
    requires id in s.nodes && id in u.nodes && s.nodes[id] == u.nodes[id] && Waits(s, id, n)
    requires Selfs(s.msgs, id) == Selfs(u.msgs, id)
    requires forall i: nat :: Claims(s, id + [i]) == Claims(u, id + [i])
    ensures Waits(u, id, n)
  {
    hide Claims, Selfs, Keeps, WaitsForAll;
    WaitsForAllSame(s, u, id, n);
    if i: nat :| WaitsForChild(s, id, i) {
      assert WaitsForChild(u, id, i);
    }
  }

  lemma WaitsForAllSame(s: State, u: State, id: Nid, n: nat)
    requires id in s.nodes
    requires Selfs(s.msgs, id) == Selfs(u.msgs, id)
    requires forall i: nat :: Claims(s, id + [i]) == Claims(u, id + [i])
    ensures s.nodes[id].children.Some? && WaitsForAll(s, id, s.nodes[id].children.value, n)
      ==> WaitsForAll(u, id, s.nodes[id].children.value, n)
  {
    hide Claims, Selfs;
  }

  lemma PartSame(nid: Nid, c: Conf, kid: Nid, d: Conf, r: nat, id: Nid, n: nat)
    requires id in NodesOf(kid, d) && id in NodesOf(nid, c) && NodesOf(kid, d)[id] == NodesOf(nid, c)[id]
    requires Waits(Part(kid, d, r), id, n)
    requires SelfsOf(nid, c, r, id) == SelfsOf(kid, d, r, id)
    requires forall i: nat :: ClaimsOf(nid, c, r, id + [i]) == ClaimsOf(kid, d, r, id + [i])
    ensures Waits(Part(nid, c, r), id, n)
  {
    hide NodesOf, Claims, Selfs, SelfsOf, ClaimsOf, Waits;
    PartCounts(nid, c, r, id);
    PartCounts(kid, d, r, id);
    forall i: nat ensures Claims(Part(kid, d, r), id + [i]) == Claims(Part(nid, c, r), id + [i]) {
      PartCounts(nid, c, r, id + [i]);
      PartCounts(kid, d, r, id + [i]);
    }
    WaitsSame(Part(kid, d, r), Part(nid, c, r), id, n);
  }

  /** Whatever is not gone claims its own id. */
  lemma Own(nid: Nid, c: Conf, r: nat)
    requires nid != [] && AllFrom(c, r) && UpTo(c, r + 1)
    ensures ClaimsOf(nid, c, r, nid) == if c.Gone? || c.Rejected? then 0 else 1
  {
    hide MsgsAt, Times;
    ClaimedOnce(nid, c, r, nid);
    if !c.One? && !c.Many? {
      LeafCounts(nid, c, r, nid);
    }
  }

  lemma OneCounts(nid: Nid, node: Node, tree: Tree, i: nat, child: Conf, r: nat, id: Nid)
    requires nid != []
    ensures ClaimsOf(nid, One(node, tree, i, child), r, id) == if id == nid then 1 else ClaimsOf(nid + [i], child, r, id)
    ensures SelfsOf(nid, One(node, tree, i, child), r, id) == SelfsOf(nid + [i], child, r, id)
  {
    hide Times;
    ClaimedOnce(nid + [i], child, r, nid);
  }

  lemma ManyCounts(nid: Nid, node: Node, tree: Tree, cs: seq<Conf>, r: nat, id: Nid)
    requires nid != []
    ensures ClaimsOf(nid, Many(node, tree, cs), r, id) == if id == nid then 1 else ClaimsFrom(nid, cs, 0, r, id)
    ensures SelfsOf(nid, Many(node, tree, cs), r, id) == SelfsFrom(nid, cs, 0, r, id)
  {
    hide Times, ConIndex;
    ClaimedFrom(nid, cs, 0, r, nid);
  }

  lemma OneWaits(nid: Nid, node: Node, tree: Tree, i: nat, child: Conf, r: nat, found: Option<Tree>)
    requires Good(nid, One(node, tree, i, child), found)
    requires AllFrom(child, r) && UpTo(child, r + 1)
    ensures nid in NodesOf(nid, One(node, tree, i, child))
    ensures WaitsForChild(Part(nid, One(node, tree, i, child), r), nid, i)
  {
    hide MsgsAt, ClaimsOf, SelfsOf, Claims, Selfs, Keeps;
    var c := One(node, tree, i, child);
    OneNodes(nid, node, tree, i, child);
    NodesUnder(nid + [i], child);
    assert !Above(nid + [i], nid);
    PartCounts(nid, c, r, nid);
    OneCounts(nid, node, tree, i, child, r, nid);
    ClaimedOnce(nid + [i], child, r, nid);
    forall j: nat ensures Claims(Part(nid, c, r), nid + [j]) == if j == i then 1 else 0 {
      PartCounts(nid, c, r, nid + [j]);
      OneCounts(nid, node, tree, i, child, r, nid + [j]);
      ClaimedOnce(nid + [i], child, r, nid + [j]);
      Own(nid + [i], child, r);
      assert Above(nid + [i], nid + [j]) ==> (nid + [i])[|nid|] == (nid + [j])[|nid|];
      assert |nid + [i]| > |ROOT|;
    }
  }

  lemma LeafWaits(nid: Nid, c: Conf, r: nat, n: nat, found: Option<Tree>)
    requires Good(nid, c, found) && AllFrom(c, r) && UpTo(c, r + 1)
    requires c.Self? || c.Failing? || c.Stuck?
    ensures nid in NodesOf(nid, c) && Waits(Part(nid, c, r), nid, n)
  {
    hide MsgsAt, ClaimsOf, SelfsOf, Claims, Selfs;
    PartCounts(nid, c, r, nid);
    LeafCounts(nid, c, r, nid);
    forall j: nat ensures Claims(Part(nid, c, r), nid + [j]) == 0 {
      PartCounts(nid, c, r, nid + [j]);
      LeafCounts(nid, c, r, nid + [j]);
      assert nid + [j] != nid;
    }
  }

  lemma SameChild(nid: Nid, i: nat, j: nat)
    ensures nid + [i] == nid + [j] <==> i == j
  {
    assert (nid + [i])[|nid|] == i;
  }

  lemma {:induction false} AwaitedIn(nid: Nid, cs: seq<Conf>, k: nat, i: nat)
    requires k <= |cs|
    ensures nid + [i] in Awaited(nid, cs, k) <==> exists j :: k <= j < |cs| && !cs[j].Gone? && i == ConIndex(j)
    decreases |cs| - k
  {
    hide ConIndex;
    if k < |cs| {
      AwaitedIn(nid, cs, k + 1, i);
      SameChild(nid, ConIndex(k), i);
    }
  }

  lemma {:induction false} ClaimsNowhere(nid: Nid, cs: seq<Conf>, k: nat, r: nat, i: nat)
    requires nid != [] && k <= |cs| && forall j :: k <= j < |cs| ==> i != ConIndex(j)
    ensures ClaimsFrom(nid, cs, k, r, nid + [i]) == 0
    decreases |cs| - k
  {
    hide MsgsAt, NodesOf, ConIndex, Times, Selfs;
    if k < |cs| {
      ClaimsNowhere(nid, cs, k + 1, r, i);
      FromSum(nid, cs, k, r, nid + [i]);
      assert (nid + [ConIndex(k)])[|nid|] != (nid + [i])[|nid|];
      ClaimedOnce(nid + [ConIndex(k)], cs[k], r, nid + [i]);
    } else {
      ClaimedFrom(nid, cs, k, r, nid + [i]);
      assert MsgsFrom(nid, cs, k, r) == [] == MsgsFrom(nid, cs, k, r + 1);
      NoCounts(nid + [i]);
    }
  }

  lemma ManyWaits(nid: Nid, node: Node, tree: Tree, cs: seq<Conf>, r: nat, found: Option<Tree>)
    requires Good(nid, Many(node, tree, cs), found)
    requires forall j :: 0 <= j < |cs| ==> AllFrom(cs[j], r) && UpTo(cs[j], r + 1)
    ensures WaitsForAll(Part(nid, Many(node, tree, cs), r), nid, Awaited(nid, cs, 0), |tree.children|)
  {
    hide MsgsAt, NodesOf, ClaimsOf, SelfsOf, ClaimsFrom, SelfsFrom, Claims, Selfs, ConIndex, Awaited, AllFrom, UpTo;
    var c := Many(node, tree, cs);
    PartCounts(nid, c, r, nid);
    ManyCounts(nid, node, tree, cs, r, nid);
    ClaimedFrom(nid, cs, 0, r, nid);
    forall i: nat
      ensures Claims(Part(nid, c, r), nid + [i]) == 1 ==> nid + [i] in Awaited(nid, cs, 0)
      ensures i < |tree.children| && nid + [i] in Awaited(nid, cs, 0) ==> Claims(Part(nid, c, r), nid + [i]) == 1
    {
      PartCounts(nid, c, r, nid + [i]);
      ManyCounts(nid, node, tree, cs, r, nid + [i]);
      AwaitedIn(nid, cs, 0, i);
      if j :| 0 <= j < |cs| && i == ConIndex(j) {
        ClaimsUnder(nid, cs, 0, j, r, nid + [i]);
        Own(nid + [i], cs[j], r);
        assert |nid + [i]| > |ROOT|;
        forall k | 0 <= k < |cs| && i == ConIndex(k) ensures k == j {
          if k < j { ConIndexGrows(k, j); } else if j < k { ConIndexGrows(j, k); }
        }
      } else {
        ClaimsNowhere(nid, cs, 0, r, i);
      }
    }
  }

  // --- every node, with its tree ---------------------------------------------------------------------

  /** The tree of the topmost node of a configuration is found. */
  lemma TopTree(ctx: Nodes, nid: Nid, node: Node, tree: Tree, below: Nodes)
    requires Context(ctx, nid, NodeTree(ctx, nid)) && Rooted(nid, node, tree, NodeTree(ctx, nid))
    requires Chopped(below) && forall k :: k in below ==> Above(nid, k) && k != nid
    ensures NodeTree(ctx + (map[nid := node] + below), nid) == Some(tree)
  {
    hide NodeTree;
    var nodes := ctx + (map[nid := node] + below);
    assert Above(nid, nid) && Above(nid, nid + [0]);
    assert nid !in ctx && nid + [0] !in ctx;
    ChildTree(ctx, nid, node, tree, 0);
    assert Chopped(nodes);
    forall k | Above(k, nid) ensures k !in below {}
    NodeTreeFrame(ctx[nid := node], nodes, nid);
  }

  /** Every node of a configuration waits for what it has to, and its tree is found. */
  ghost predicate Attended(ctx: Nodes, nid: Nid, c: Conf, r: nat, id: Nid)
    requires id in NodesOf(nid, c)
  {
    var t := NodeTree(ctx + NodesOf(nid, c), id);
    t.Some? && Waits(Part(nid, c, r), id, |t.value.children|)
  }

  lemma {:induction false} AllAttended(ctx: Nodes, nid: Nid, c: Conf, r: nat, id: Nid)
    requires Context(ctx, nid, NodeTree(ctx, nid)) && Good(nid, c, NodeTree(ctx, nid))
    requires AllFrom(c, r) && UpTo(c, r + 1) && id in NodesOf(nid, c)
    ensures Attended(ctx, nid, c, r, id)
    decreases c
  {
    hide NodeTree, Waits, WaitsForOne, WaitsForAll, Silent, ConIndex, Awaited, MsgsAt, ClaimsOf, SelfsOf;
    match c {
      case One(node, tree, i, child) =>
        if id == nid {
          OneAttended(ctx, nid, node, tree, i, child, r);
        } else {
          assert Above(nid, nid) && Above(nid, nid + [i]);
          ChildTree(ctx, nid, node, tree, i);
          assert forall k :: Above(nid + [i], k) ==> Above(nid, k);
          AllAttended(ctx[nid := node], nid + [i], child, r, id);
          OneBelow(ctx, nid, node, tree, i, child, r, id);
        }
      case Many(node, tree, cs) =>
        if id == nid {
          ManyAttended(ctx, nid, node, tree, cs, r);
        } else {
          var j := FindKid(nid, cs, 0, id);
          var inner := ManyContext(ctx, nid, node, tree, cs, j);
          AllAttended(inner, nid + [ConIndex(j)], cs[j], r, id);
          assert cs[j := cs[j]] == cs;
          ManyBelow(nid, node, tree, cs, j, r, id, |NodeTree(ctx + NodesOf(nid, c), id).value.children|);
        }
      case _ => LeafAttended(ctx, nid, c, r);
    }
  }

  lemma LeafAttended(ctx: Nodes, nid: Nid, c: Conf, r: nat)
    requires Context(ctx, nid, NodeTree(ctx, nid)) && Good(nid, c, NodeTree(ctx, nid))
    requires AllFrom(c, r) && UpTo(c, r + 1) && !c.One? && !c.Many? && nid in NodesOf(nid, c)
    ensures Attended(ctx, nid, c, r, nid)
  {
    hide NodeTree, Waits;
    LeafWaits(nid, c, r, |c.tree.children|, NodeTree(ctx, nid));
    TopTree(ctx, nid, c.node, c.tree, map[]);
    assert map[nid := c.node] + map[] == NodesOf(nid, c);
  }

  lemma OneAttended(ctx: Nodes, nid: Nid, node: Node, tree: Tree, i: nat, child: Conf, r: nat)
    requires var c := One(node, tree, i, child);
      Context(ctx, nid, NodeTree(ctx, nid)) && Good(nid, c, NodeTree(ctx, nid)) && AllFrom(c, r) && UpTo(c, r + 1)
    ensures Attended(ctx, nid, One(node, tree, i, child), r, nid)
  {
    hide NodeTree, WaitsForChild, NodesOf, MsgsAt;
    OneWaits(nid, node, tree, i, child, r, NodeTree(ctx, nid));
    NodesUnder(nid + [i], child);
    GoodChopped(nid + [i], child, At(tree.children, i));
    OneNodes(nid, node, tree, i, child);
    TopTree(ctx, nid, node, tree, NodesOf(nid + [i], child));
  }

  lemma OneNodes(nid: Nid, node: Node, tree: Tree, i: nat, child: Conf)
    ensures NodesOf(nid, One(node, tree, i, child)) == map[nid := node] + NodesOf(nid + [i], child)
    ensures forall k :: k in NodesOf(nid + [i], child) ==> Above(nid, k) && k != nid
    ensures NodesOf(nid, One(node, tree, i, child))[nid] == node
  {
    NodesUnder(nid + [i], child);
    forall k | k in NodesOf(nid + [i], child) ensures Above(nid, k) && |k| > |nid| {
      assert Above(nid + [i], k);
    }
  }

  lemma ManyNodes(nid: Nid, node: Node, tree: Tree, cs: seq<Conf>)
    ensures NodesOf(nid, Many(node, tree, cs)) == map[nid := node] + NodesFrom(nid, cs, 0)
    ensures forall k :: k in NodesFrom(nid, cs, 0) ==> Above(nid, k) && k != nid
    ensures NodesOf(nid, Many(node, tree, cs))[nid] == node
  {
    hide ConIndex;
    NodesFromUnder(nid, cs, 0);
  }

  lemma ManyAttended(ctx: Nodes, nid: Nid, node: Node, tree: Tree, cs: seq<Conf>, r: nat)
    requires var c := Many(node, tree, cs);
      Context(ctx, nid, NodeTree(ctx, nid)) && Good(nid, c, NodeTree(ctx, nid)) && AllFrom(c, r) && UpTo(c, r + 1)
    ensures Attended(ctx, nid, Many(node, tree, cs), r, nid)
  {
    hide NodeTree, WaitsForAll, NodesOf, NodesFrom, MsgsAt, ConIndex, Awaited;
    ManyWaits(nid, node, tree, cs, r, NodeTree(ctx, nid));
    GoodFromChopped(nid, cs, tree, 0);
    ManyNodes(nid, node, tree, cs);
    TopTree(ctx, nid, node, tree, NodesFrom(nid, cs, 0));
  }

  lemma OneBelow(ctx: Nodes, nid: Nid, node: Node, tree: Tree, i: nat, child: Conf, r: nat, id: Nid)
    requires nid != [] && id in NodesOf(nid + [i], child) && id in NodesOf(nid, One(node, tree, i, child))
    requires Attended(ctx[nid := node], nid + [i], child, r, id)
    ensures Attended(ctx, nid, One(node, tree, i, child), r, id)
  {
    hide NodeTree, Waits, MsgsAt, NodesOf, ClaimsOf, SelfsOf;
    var c := One(node, tree, i, child);
    OneNodes(nid, node, tree, i, child);
    assert ctx[nid := node] + NodesOf(nid + [i], child) == ctx + NodesOf(nid, c);
    OneCounts(nid, node, tree, i, child, r, id);
    forall j: nat ensures ClaimsOf(nid, c, r, id + [j]) == ClaimsOf(nid + [i], child, r, id + [j]) {
      OneCounts(nid, node, tree, i, child, r, id + [j]);
      assert |id + [j]| > |nid|;
    }
    PartSame(nid, c, nid + [i], child, r, id, |NodeTree(ctx + NodesOf(nid, c), id).value.children|);
  }

  lemma ManyBelow(nid: Nid, node: Node, tree: Tree, cs: seq<Conf>, j: nat, r: nat, id: Nid, n: nat)
    requires nid != [] && j < |cs|
    requires id in NodesOf(nid + [ConIndex(j)], cs[j]) && Waits(Part(nid + [ConIndex(j)], cs[j], r), id, n)
    ensures id in NodesOf(nid, Many(node, tree, cs)) && Waits(Part(nid, Many(node, tree, cs), r), id, n)
  {
    hide Waits, MsgsAt, NodesOf, NodesFrom, ClaimsOf, SelfsOf, ClaimsFrom, SelfsFrom, ConIndex;
    var c := Many(node, tree, cs);
    var kid := nid + [ConIndex(j)];
    NodesUnder(kid, cs[j]);
    assert Above(kid, id);
    ManyNodes(nid, node, tree, cs);
    NodesFromSplit(nid, cs, 0, j);
    ManyCounts(nid, node, tree, cs, r, id);
    ClaimsUnder(nid, cs, 0, j, r, id);
    forall i: nat ensures ClaimsOf(nid, c, r, id + [i]) == ClaimsOf(kid, cs[j], r, id + [i]) {
      assert Above(kid, id + [i]) && |id + [i]| > |nid|;
      ManyCounts(nid, node, tree, cs, r, id + [i]);
      ClaimsUnder(nid, cs, 0, j, r, id + [i]);
    }
    PartSame(nid, c, kid, cs[j], r, id, n);
  }

  lemma {:induction false} FindKid(nid: Nid, cs: seq<Conf>, k: nat, id: Nid) returns (j: nat)
    requires k <= |cs| && id in NodesFrom(nid, cs, k)
    ensures j < |cs| && id in NodesOf(nid + [ConIndex(j)], cs[j])
    decreases |cs| - k
  {
    hide ConIndex, NodesOf;
    if id in NodesOf(nid + [ConIndex(k)], cs[k]) {
      j := k;
    } else {
      j := FindKid(nid, cs, k + 1, id);
    }
  }

  // --- links and addresses -----------------------------------------------------------------------------

  /** The parent of a node is a node, up to the topmost one. */
  ghost predicate LinkedUpTo(nid: Nid, nodes: Nodes) {
    forall id :: id in nodes ==> id != [] && nodes[id].parent == ParentOf(id) && (id != nid ==> id != ROOT && Chop(id) in nodes)
  }

  lemma {:induction false} PartLinked(nid: Nid, c: Conf, found: Option<Tree>)
    requires Good(nid, c, found)
    ensures LinkedUpTo(nid, NodesOf(nid, c))
    ensures NodesOf(nid, c) != map[] ==> nid in NodesOf(nid, c)
    decreases c
  {
    hide ConIndex, Awaited, NodesOf, LinkedUpTo;
    match c {
      case One(node, tree, i, child) =>
        PartLinked(nid + [i], child, At(tree.children, i));
        OneLinked(nid, node, tree, i, child);
      case Many(node, tree, cs) =>
        ManyLinked(nid, node, tree, cs, found);
      case _ => LeafLinked(nid, c, found);
    }
  }

  lemma {:induction false} ManyLinked(nid: Nid, node: Node, tree: Tree, cs: seq<Conf>, found: Option<Tree>)
    requires Good(nid, Many(node, tree, cs), found)
    ensures LinkedUpTo(nid, NodesOf(nid, Many(node, tree, cs)))
    ensures nid in NodesOf(nid, Many(node, tree, cs))
    decreases cs, 1
  {
    hide ConIndex, Awaited, NodesOf, NodesFrom;
    ManyNodes(nid, node, tree, cs);
    var nodes := NodesOf(nid, Many(node, tree, cs));
    forall id | id in nodes && id != nid ensures nodes[id].parent == ParentOf(id) && id != ROOT && Chop(id) in nodes {
      var j := FindKid(nid, cs, 0, id);
      KidLinked(nid, node, tree, cs, j, found, id);
    }
  }

  lemma LeafLinked(nid: Nid, c: Conf, found: Option<Tree>)
    requires Good(nid, c, found) && !c.One? && !c.Many?
    ensures LinkedUpTo(nid, NodesOf(nid, c))
    ensures NodesOf(nid, c) != map[] ==> nid in NodesOf(nid, c)
  {
  }

  lemma OneLinked(nid: Nid, node: Node, tree: Tree, i: nat, child: Conf)
    requires nid != [] && node.parent == ParentOf(nid)
    requires LinkedUpTo(nid + [i], NodesOf(nid + [i], child))
    ensures nid in NodesOf(nid, One(node, tree, i, child))
    ensures LinkedUpTo(nid, NodesOf(nid, One(node, tree, i, child)))
  {
    hide NodesOf, LinkedUpTo;
    OneNodes(nid, node, tree, i, child);
    ChopExtend(nid, i);
    assert |nid + [i]| > |ROOT|;
    LinkUnder(nid, node, i, NodesOf(nid + [i], child));
  }

  lemma LinkUnder(nid: Nid, node: Node, i: nat, below: Nodes)
    requires nid != [] && node.parent == ParentOf(nid) && LinkedUpTo(nid + [i], below)
    requires Chop(nid + [i]) == nid && nid + [i] != ROOT
    requires forall k :: k in below ==> k != nid
    ensures LinkedUpTo(nid, map[nid := node] + below)
  {
  }

  lemma {:induction false} KidLinked(nid: Nid, node: Node, tree: Tree, cs: seq<Conf>, j: nat, found: Option<Tree>, id: Nid)
    requires Good(nid, Many(node, tree, cs), found) && j < |cs| && id in NodesOf(nid + [ConIndex(j)], cs[j])
    ensures id in NodesOf(nid, Many(node, tree, cs))
    ensures NodesOf(nid, Many(node, tree, cs))[id].parent == ParentOf(id)
    ensures id != ROOT && Chop(id) in NodesOf(nid, Many(node, tree, cs))
    decreases cs, 0
  {
    hide NodesOf, NodesFrom, ConIndex, Awaited;
    var kid := nid + [ConIndex(j)];
    PartLinked(kid, cs[j], At(tree.children, ConIndex(j)));
    ManyNodes(nid, node, tree, cs);
    NodesFromSplit(nid, cs, 0, j);
    ChopExtend(nid, ConIndex(j));
    assert |kid| > |ROOT|;
  }

  /** The messages of a configuration are for its nodes, but for its own answer. */
  ghost predicate AddressedIn(nid: Nid, c: Conf, m: Msg) {
    || Addressed(NodesOf(nid, c), m)
    || (nid != ROOT && c.Reply? && m == Receive(Chop(nid), nid, c.payload))
    || (c.Exec? && m.Execute? && m.nid == nid && m.parent == ParentOf(nid))
  }

  lemma {:induction false} PartAddressed(nid: Nid, c: Conf, found: Option<Tree>, r: nat, m: Msg)
    requires Good(nid, c, found) && m in MsgsAt(nid, c, r)
    ensures AddressedIn(nid, c, m)
    decreases c, 0
  {
    hide ConIndex, Awaited;
    match c {
      case One(node, tree, i, child) =>
        PartAddressed(nid + [i], child, At(tree.children, i), r, m);
        OneNodes(nid, node, tree, i, child);
        ChopExtend(nid, i);
        assert |nid + [i]| > |ROOT|;
      case Many(node, tree, cs) =>
        var j := FindMsg(nid, cs, 0, r, m);
        PartAddressed(nid + [ConIndex(j)], cs[j], At(tree.children, ConIndex(j)), r, m);
        ManyAddressed(nid, node, tree, cs, j, m);
      case _ =>
    }
  }

  lemma ManyAddressed(nid: Nid, node: Node, tree: Tree, cs: seq<Conf>, j: nat, m: Msg)
    requires nid != [] && j < |cs| && AddressedIn(nid + [ConIndex(j)], cs[j], m)
    ensures AddressedIn(nid, Many(node, tree, cs), m)
  {
    hide NodesOf, NodesFrom, ConIndex;
    ManyNodes(nid, node, tree, cs);
    NodesFromSplit(nid, cs, 0, j);
    ChopExtend(nid, ConIndex(j));
    assert |nid + [ConIndex(j)]| > |ROOT|;
  }

  lemma {:induction false} FindMsg(nid: Nid, cs: seq<Conf>, k: nat, r: nat, m: Msg) returns (j: nat)
    requires k <= |cs| && m in MsgsFrom(nid, cs, k, r)
    ensures j < |cs| && m in MsgsAt(nid + [ConIndex(j)], cs[j], r)
    decreases |cs| - k
  {
    hide ConIndex, MsgsAt;
    if m in MsgsAt(nid + [ConIndex(k)], cs[k], r) {
      j := k;
    } else {
      j := FindMsg(nid, cs, k + 1, r, m);
    }
  }

  // --- the theorem -----------------------------------------------------------------------------------

  lemma {:induction false} NavigateIs(nodes: Nodes, id: Nid)
    requires Chopped(nodes)
    ensures NodeTree(nodes, id) == Navigate(nodes, id)
    decreases |id|
  {
    if |id| > 1 {
      NavigateIs(nodes, Chop(id));
    }
  }

  /** The launched event is nobody's. */
  lemma LaunchedCounts(ms: seq<Msg>, rest: seq<Msg>, id: Nid)
    requires |ms| <= 1 && forall m :: m in ms ==> m.Launched?
    ensures Times(ms + rest, id) == Times(rest, id) && Selfs(ms + rest, id) == Selfs(rest, id)
  {
    Counts(ms, rest, id);
    NoCounts(id);
    if ms != [] {
      assert ms == [ms[0]];
      OneCount(ms[0], id);
    }
  }

  lemma MatchIsSafe(s: State, c: Conf, r: nat, launched: seq<Msg>)
    requires Matches(s, c, r, launched)
    ensures Safe(s)
  {
    hide NodesOf, MsgsAt, Waits, NodeTree, Navigate, Times, Selfs, ClaimsOf;
    Empty();
    PartLinked(ROOT, c, None);
    GoodChopped(ROOT, c, None);
    var part := Part(ROOT, c, r);
    var turns := MsgsAt(ROOT, c, r) + MsgsAt(ROOT, c, r + 1);
    assert s.msgs == launched + turns;
    assert map[] + NodesOf(ROOT, c) == NodesOf(ROOT, c);
    forall id ensures Claims(s, id) == Claims(part, id) <= 1 && Selfs(s.msgs, id) == Selfs(part.msgs, id) {
      LaunchedCounts(launched, turns, id);
      PartCounts(ROOT, c, r, id);
      ClaimedOnce(ROOT, c, r, id);
    }
    forall id | id in s.nodes ensures NodeTree(s.nodes, id).Some? && Waits(s, id, |TreeOf(s.nodes, id).children|) {
      AllAttended(map[], ROOT, c, r, id);
      WaitsSame(part, s, id, |NodeTree(s.nodes, id).value.children|);
    }
    forall id ensures NodeTree(s.nodes, id) == Navigate(s.nodes, id) {
      NavigateIs(s.nodes, id);
    }
    forall m | m in s.msgs ensures Addressed(s.nodes, m) {
      RootAddressed(s, c, r, launched, m);
    }
    forall m | m in s.msgs && m.Terminated? ensures s == State(map[], [m]) {
      RootTerminated(s, c, r, launched, m);
    }
  }

  lemma RootAddressed(s: State, c: Conf, r: nat, launched: seq<Msg>, m: Msg)
    requires Matches(s, c, r, launched) && m in s.msgs
    ensures Addressed(s.nodes, m)
  {
    hide NodesOf, MsgsAt;
    if m in MsgsAt(ROOT, c, r) {
      PartAddressed(ROOT, c, None, r, m);
    } else if m in MsgsAt(ROOT, c, r + 1) {
      PartAddressed(ROOT, c, None, r + 1, m);
    }
  }

  lemma RootTerminated(s: State, c: Conf, r: nat, launched: seq<Msg>, m: Msg)
    requires Matches(s, c, r, launched) && m in s.msgs && m.Terminated?
    ensures s == State(map[], [m])
  {
    if !c.Reply? {
      NoneTerminated(ROOT, c, r);
      NoneTerminated(ROOT, c, r + 1);
    } else {
      assert s.msgs == [m];
    }
  }

  lemma InitIsSafe(t: Tree, p: Payload)
    ensures Safe(Init(t, p))
  {
    hide NodeTree, Navigate;
    var m := Execute(ROOT, None, Some(t), p);
    assert Init(t, p).msgs == [m];
    forall id ensures Claims(Init(t, p), id) <= 1 && NodeTree(map[], id) == Navigate(map[], id) {
      OneCount(m, id);
      NavigateIs(map[], id);
    }
  }

  /** Every state of every run is safe, concurrences included. */
  lemma {:induction false} RunIsSafe(t: Tree, p: Payload, k: nat)
    ensures Safe(StateAt(t, p, k))
    decreases k
  {
    hide Safe, Ended, Step, Init, Matches;
    if k == 0 {
      InitIsSafe(t, p);
      assert StateAt(t, p, 0) == Init(t, p);
    } else if Ended(StateAt(t, p, k - 1)) {
      RunIsSafe(t, p, k - 1);
    } else {
      var c, r, launched := RunMatches(t, p, k);
      MatchIsSafe(StateAt(t, p, k), c, r, launched);
    }
  }

  // --- what `children` holds -----------------------------------------------------------------------

  /** In every state of every run, a node that has not failed and is no concurrence ends its `children` with the child
      it waits for; it holds no other exactly when its instruction is not a branching one, or waits for its condition. */
  lemma ChildrenOfWaiting(t: Tree, p: Payload, k: nat, id: Nid, i: nat)
    requires
      var s := StateAt(t, p, k);
      id in s.nodes && !s.nodes[id].failed && s.nodes[id].op != Concurrence && Claims(s, id + [i]) == 1
    ensures
      var node := StateAt(t, p, k).nodes[id];
      && node.children.Some? && node.children.value != []
      && node.children.value[|node.children.value| - 1] == id + [i]
      && (node.children == Some([id + [i]]) <==> !Branching(node.op) || i == 0)
  {
    hide StateAt, Claims, Selfs, Navigate, Addressed;
    RunIsSafe(t, p, k);
    var s := StateAt(t, p, k);
    assert Waits(s, id, |TreeOf(s.nodes, id).children|);
    var j: nat :| WaitsForChild(s, id, j);
    KeepsLast(s.nodes[id].op, id, i);
  }

  lemma KeepsLast(op: Op, id: Nid, i: nat)
    ensures var ids := Keeps(op, id, i);
      ids != [] && ids[|ids| - 1] == id + [i] && (ids == [id + [i]] <==> !Branching(op) || i == 0)
  {
    var ids := Keeps(op, id, i);
    if Branching(op) && i > 0 { assert |ids| > 1; }
    if i == 0 { assert UpToChild(id, 0) == [id + [0]]; }
  }

  /** A node that waits for its own message has nothing in `children`. */
  lemma ChildrenOfSelf(t: Tree, p: Payload, k: nat, id: Nid)
    requires
      var s := StateAt(t, p, k);
      id in s.nodes && !s.nodes[id].failed && Selfs(s.msgs, id) == 1
    ensures NoChildren(StateAt(t, p, k).nodes[id].children)
  {
    hide StateAt, Claims, Selfs, Navigate, Addressed;
    RunIsSafe(t, p, k);
    var s := StateAt(t, p, k);
    assert Waits(s, id, |TreeOf(s.nodes, id).children|);
  }

  // --- an `if` that keeps its condition --------------------------------------------------------------

  const NOOP := Tree(Word("noop"), [], 0, [])
  const CHOICE := Tree(Word("if"), [], 0, [NOOP, NOOP])
  const YES: Payload := map["ret" := Bool(true)]
  const NOOP_NODE := Machine.Node(Noop, Some(ROOT), None, None, None, false)

  function IfNode(kids: seq<Nid>): Machine.Node { Node(If, None, Some(CHOICE), Some(kids), None, false) }

  lemma PreparedNoop()
    ensures Prepare(NOOP) == Prepared(NOOP, false, Noop)
  {
    hide R.Pinfixes;
    R.PinfixesIdle(R.OPS, NOOP);
  }

  lemma PreparedChoice()
    ensures Prepare(CHOICE) == Prepared(CHOICE, true, If)
  {
    hide R.Pinfixes;
    assert R.IfTrees(R.SplitIf([], R.Cond, R.IfParts([], [], [])), 0) == Some([]);
    assert [] + CHOICE.children == CHOICE.children;
    assert R.AsVal(CHOICE) == R.ElseIf(CHOICE) == R.PostIf(CHOICE) == R.Rewritten(CHOICE, false);
    assert R.HeadIf(CHOICE) == R.Rewritten(CHOICE, true);
    R.BranchRest(CHOICE);
    assert R.RewriteTree(CHOICE) == R.Rewritten(CHOICE, true);
    assert OpOf(CHOICE) == If;
  }

  lemma NoopsFound(nodes: Nodes, kids: seq<Nid>, i: nat)
    requires nodes == map[ROOT := IfNode(kids)] && i < 2
    ensures NodeTree(nodes, ROOT) == Some(CHOICE) && NodeTree(nodes, ROOT + [i]) == Some(NOOP)
  {
    ChopExtend(ROOT, i);
  }

  lemma RootExecuted()
    ensures StateAt(CHOICE, YES, 1) == State(map[ROOT := IfNode([ROOT + [0]])],
      [Launched(ROOT, YES), Execute(ROOT + [0], Some(ROOT), None, YES)])
  {
    hide Prepare, NodeTree;
    PreparedChoice();
    assert StateAt(CHOICE, YES, 0) == Init(CHOICE, YES);
    assert Init(CHOICE, YES).msgs[1..] == [];
    var nodes := map[ROOT := Node(If, None, Some(CHOICE), None, None, false)];
    assert map[][ROOT := Node(If, None, Some(CHOICE), None, None, false)] == nodes;
    assert StateAt(CHOICE, YES, 1) == Step(Init(CHOICE, YES));
  }

  lemma ConditionExecuted()
    ensures StateAt(CHOICE, YES, 3) == State(map[ROOT := IfNode([ROOT + [0]]), ROOT + [0] := NOOP_NODE],
      [Receive(ROOT + [0], ROOT + [0], YES)])
  {
    hide Prepare, NodeTree;
    RootExecuted();
    PreparedNoop();
    var id := ROOT + [0];
    var s1, s2 := StateAt(CHOICE, YES, 1), StateAt(CHOICE, YES, 2);
    assert s1.msgs[1..] == [Execute(id, Some(ROOT), None, YES)];
    assert s2 == State(s1.nodes, [Execute(id, Some(ROOT), None, YES)]);
    NoopsFound(s2.nodes, [ROOT + [0]], 0);
    assert s2.msgs[1..] == [] && id != ROOT;
    assert StateAt(CHOICE, YES, 3) == Step(s2);
  }

  lemma ConditionAnswered()
    ensures StateAt(CHOICE, YES, 4) == State(map[ROOT := IfNode([ROOT + [0]])], [Receive(ROOT, ROOT + [0], YES)])
  {
    hide NodeTree;
    ConditionExecuted();
    var s3 := StateAt(CHOICE, YES, 3);
    assert s3.msgs[1..] == [] && ROOT + [0] != ROOT;
    assert s3.nodes - {ROOT + [0]} == map[ROOT := IfNode([ROOT + [0]])];
    assert StateAt(CHOICE, YES, 4) == Step(s3);
  }

  lemma ChoiceReacts(nodes: Nodes)
    requires nodes == map[ROOT := IfNode([ROOT + [0]])]
    ensures Receiving(nodes, ROOT, ROOT + [0], YES)
      == (Reaction(Ok, YES, None, Some(1)), Some([ROOT + [0], ROOT + [1]]))
  {
    hide NodeTree;
    NoopsFound(nodes, [ROOT + [0]], 1);
    assert ROOT + [0] != ROOT && Last(ROOT + [0]) == 0;
    assert [ROOT + [0]] + [ROOT + [1]] == [ROOT + [0], ROOT + [1]];
  }

  /** An `if` whose condition was true waits for its child 1 with child 0 still in `children`. */
  lemma IfKeepsCondition()
    ensures
      var s := StateAt(CHOICE, YES, 5);
      && ROOT in s.nodes && s.nodes[ROOT].op == If && !s.nodes[ROOT].failed
      && s.nodes[ROOT].children == Some([ROOT + [0], ROOT + [1]])
      && s.msgs == [Execute(ROOT + [1], Some(ROOT), None, YES)]
  {
    hide NodeTree, Receiving, Prepare;
    ConditionAnswered();
    var s4 := StateAt(CHOICE, YES, 4);
    ChoiceReacts(s4.nodes);
    assert s4.msgs[1..] == [];
    assert StateAt(CHOICE, YES, 5) == Step(s4);
  }
}
