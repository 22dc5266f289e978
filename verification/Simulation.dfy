/** The run of the engine seen as a tree of unfinished work. Every message is stamped with the turn of the
    queue it belongs to; the queue holds the messages of one turn, in tree order, then those of the next. */
module Simulation {
  import opened Values
  import opened Trees
  import opened Rewriting
  import opened Instructions
  import opened Machine
  import opened Evaluator

  datatype Conf =
    | Exec(found: Option<Tree>, payload: Payload, at: nat)           // an execute message, not handled yet
    | Self(node: Node, tree: Tree, payload: Payload, at: nat)        // a live node with a message to itself
    | One(node: Node, tree: Tree, i: nat, child: Conf)               // a live node waiting for child i
    | Many(node: Node, tree: Tree, cs: seq<Conf>)                    // a live concurrence
    | Reply(payload: Payload, at: nat)                               // the node is gone, its answer is queued
    | Failing(node: Node, tree: Tree, payload: Payload, at: nat)     // a failed node, its event is queued
    | Stuck(node: Node, tree: Tree)                                  // failed or stalled for good
    | Rejected                                                       // the execute message was rejected
    | Gone                                                           // the answer was received

  // --- stamps ------------------------------------------------------------------------------------

  /** No message is stamped before `r`. */
  predicate AllFrom(c: Conf, r: nat) {
    match c
    case Exec(_, _, at) => at >= r
    case Self(_, _, _, at) => at >= r
    case One(_, _, _, child) => AllFrom(child, r)
    case Many(_, _, cs) => forall j :: 0 <= j < |cs| ==> AllFrom(cs[j], r)
    case Reply(_, at) => at >= r
    case Failing(_, _, _, at) => at >= r
    case _ => true
  }

  /** No message is stamped after `r`. */
  predicate UpTo(c: Conf, r: nat) {
    match c
    case Exec(_, _, at) => at <= r
    case Self(_, _, _, at) => at <= r
    case One(_, _, _, child) => UpTo(child, r)
    case Many(_, _, cs) => forall j :: 0 <= j < |cs| ==> UpTo(cs[j], r)
    case Reply(_, at) => at <= r
    case Failing(_, _, _, at) => at <= r
    case _ => true
  }

  /** Some message is stamped `r`, when none is stamped before. */
  predicate Due(c: Conf, r: nat) { !AllFrom(c, r + 1) }

  /** In each concurrence, the children left of some child already had their turn, those right of it not. */
  predicate Ordered(c: Conf, r: nat) {
    match c
    case One(_, _, _, child) => Ordered(child, r)
    case Many(_, _, cs) =>
      && (forall j :: 0 <= j < |cs| ==> Ordered(cs[j], r))
      && (forall j, k :: 0 <= j < k < |cs| ==> AllFrom(cs[j], r + 1) || UpTo(cs[k], r))
    case _ => true
  }

  predicate Tidy(c: Conf, r: nat) { AllFrom(c, r) && UpTo(c, r + 1) && Ordered(c, r) }

  function FirstDue(cs: seq<Conf>, r: nat): (j: nat)
    requires exists j :: 0 <= j < |cs| && Due(cs[j], r)
    ensures j < |cs| && Due(cs[j], r)
    ensures forall k :: 0 <= k < j ==> !Due(cs[k], r)
  {
    if Due(cs[0], r) then 0 else
    var j :| 0 <= j < |cs| && Due(cs[j], r);
    assert cs[1..][j - 1] == cs[j];
    1 + FirstDue(cs[1..], r)
  }

  // --- one message handled -----------------------------------------------------------------------

  function ParentOf(nid: Nid): Option<Nid> { if nid == ROOT then None else Some(Chop(nid)) }

  function ForkConfs(ts: seq<Tree>, n: nat, p: Payload, at: nat): (cs: seq<Conf>)
    ensures |cs| == n
    ensures forall i :: 0 <= i < n ==> cs[i] == Exec(At(ts, ConIndex(i)), p, at)
  {
    if n == 0 then [] else ForkConfs(ts, n - 1, p, at) + [Exec(At(ts, ConIndex(n - 1)), p, at)]
  }

  /** A live node after its instruction reacted to an execute message. */
  function ConfExe(nid: Nid, node: Node, tree: Tree, r: Reaction, kids: Option<seq<Nid>>, at: nat): Conf {
    var after := Settled(node, r, kids);
    match r.verdict
    case Over => Self(after, tree, r.payload, at)
    case Ok =>
      if r.next.Some? then One(after, tree, r.next.value, Exec(At(tree.children, r.next.value), r.payload, at))
      else Stuck(after, tree)
    case Error => Failing(after, tree, r.payload, at)
  }

  /** The same after a receive message. */
  function ConfRcv(nid: Nid, node: Node, tree: Tree, r: Reaction, kids: Option<seq<Nid>>, at: nat): Conf {
    if r.verdict.Over? then Reply(r.payload, at) else ConfExe(nid, node, tree, r, kids, at)
  }

  function ConfFork(nid: Nid, node: Node, tree: Tree, p: Payload, at: nat): Conf {
    var n := |tree.children|;
    Many(node.(children := Some(ConIds(nid, n))), tree, ForkConfs(tree.children, n, p, at))
  }

  function AfterNode(nid: Nid, node: Node, u: Prepared, p: Payload, at: nat): Conf {
    if Machine.Forks(u) then ConfFork(nid, node, u.tree, p, at)
    else
      var r := Exe(u.op, u.tree, p, u.tree.children != []);
      ConfExe(nid, node, u.tree, r, ExeKids(u.op, u.tree, p, nid, r.next), at)
  }

  function AfterExe(nid: Nid, t: Tree, p: Payload, at: nat): Conf {
    AfterNode(nid, NewNode(nid, ParentOf(nid), t), Prepare(t), p, at)
  }

  function RcvReaction(node: Node, tree: Tree, from: Option<nat>, p: Payload): Reaction {
    Rcv(node.op, tree, node.rets, from, p, NextIndex(node.op, from, p) < |tree.children|)
  }

  function AfterRcv(nid: Nid, node: Node, tree: Tree, from: Option<nat>, p: Payload, at: nat): Conf {
    var r := RcvReaction(node, tree, from, p);
    ConfRcv(nid, node, tree, r, RcvKids(node.op, node.children, nid, from, p, r.next), at)
  }

  /** Child `j` of a concurrence has answered. */
  function AfterAnswer(nid: Nid, node: Node, tree: Tree, cs: seq<Conf>, j: nat, at: nat): Conf
    requires j < |cs| && cs[j].Reply?
  {
    var kids := if node.children.Some? then Remove(node.children.value, nid + [ConIndex(j)]) else [];
    if kids == [] then Reply(cs[j].payload, at) else Many(node.(children := Some(kids)), tree, cs[j := Gone])
  }

  /** Handles the first message stamped `r`. */
  function Next(nid: Nid, c: Conf, r: nat): (after: Conf)
    requires Due(c, r) && !c.Reply?
    ensures !after.Gone?
    decreases c
  {
    match c
    case Exec(None, _, _) => Rejected
    case Exec(Some(t), p, _) => AfterExe(nid, t, p, r + 1)
    case Self(node, tree, p, _) => AfterRcv(nid, node, tree, None, p, r + 1)
    case One(node, tree, i, child) =>
      if child.Reply? then AfterRcv(nid, node, tree, Some(i), child.payload, r + 1)
      else c.(child := Next(nid + [i], child, r))
    case Many(node, tree, cs) =>
      var j := FirstDue(cs, r);
      if cs[j].Reply? then AfterAnswer(nid, node, tree, cs, j, r + 1)
      else c.(cs := cs[j := Next(nid + [ConIndex(j)], cs[j], r)])
    case Failing(node, tree, _, _) => Stuck(node, tree)
  }

  // --- the nodes and the messages of a configuration -----------------------------------------------

  function NodesOf(nid: Nid, c: Conf): Nodes
    decreases c, 0
  {
    match c
    case Self(node, _, _, _) => map[nid := node]
    case One(node, _, i, child) => map[nid := node] + NodesOf(nid + [i], child)
    case Many(node, _, cs) => map[nid := node] + NodesFrom(nid, cs, 0)
    case Failing(node, _, _, _) => map[nid := node]
    case Stuck(node, _) => map[nid := node]
    case _ => map[]
  }

  function NodesFrom(nid: Nid, cs: seq<Conf>, k: nat): Nodes
    requires k <= |cs|
    decreases cs, |cs| - k
  {
    if k == |cs| then map[] else NodesOf(nid + [ConIndex(k)], cs[k]) + NodesFrom(nid, cs, k + 1)
  }

  function ExecMsg(nid: Nid, found: Option<Tree>, p: Payload): Msg {
    Execute(nid, ParentOf(nid), if nid == ROOT then found else None, p)
  }

  function MsgsAt(nid: Nid, c: Conf, r: nat): seq<Msg>
    decreases c, 0
  {
    match c
    case Exec(found, p, at) => if at == r then [ExecMsg(nid, found, p)] else []
    case Self(_, _, p, at) => if at == r then [Receive(nid, nid, p)] else []
    case One(_, _, i, child) => MsgsAt(nid + [i], child, r)
    case Many(_, _, cs) => MsgsFrom(nid, cs, 0, r)
    case Reply(p, at) => if at == r then [OverMsg(nid, ParentOf(nid), p)] else []
    case Failing(_, _, p, at) => if at == r then [Failed(nid, p)] else []
    case _ => []
  }

  function MsgsFrom(nid: Nid, cs: seq<Conf>, k: nat, r: nat): seq<Msg>
    requires k <= |cs|
    decreases cs, |cs| - k
  {
    if k == |cs| then [] else MsgsAt(nid + [ConIndex(k)], cs[k], r) + MsgsFrom(nid, cs, k + 1, r)
  }

  // --- what holds of every configuration of a run --------------------------------------------------

  /** The ids of the children of a concurrence that have not answered, from child `k` on. */
  function Awaited(nid: Nid, cs: seq<Conf>, k: nat): seq<Nid>
    requires k <= |cs|
    decreases |cs| - k
  {
    if k == |cs| then [] else (if cs[k].Gone? then [] else [nid + [ConIndex(k)]]) + Awaited(nid, cs, k + 1)
  }

  /** A live node knows its parent, and its tree is the one it keeps or the one found through its parent. */
  predicate Rooted(nid: Nid, node: Node, tree: Tree, found: Option<Tree>) {
    && node.parent == ParentOf(nid)
    && (if node.tree.Some? then node.tree == Some(tree) else found == Some(tree))
    && (nid == ROOT ==> node.tree.Some?)
  }

  predicate Branching(op: Op) { op in {If, Unless, Elsif, Ife, Unlesse} }

  /** The ids of the children 0 to `i`. */
  function UpToChild(nid: Nid, i: nat): (ids: seq<Nid>)
    ensures |ids| == i + 1 && forall j :: 0 <= j <= i ==> ids[j] == nid + [j]
  {
    seq(i + 1, j requires 0 <= j <= i => nid + [j])
  }

  /** What is in `children` while child `i` is waited for: that child alone, but for the branching instructions, which
      never take a child out. */
  function Keeps(op: Op, nid: Nid, i: nat): seq<Nid> {
    if op in {If, Unless, Elsif} then UpToChild(nid, i)
    else if (op == Ife || op == Unlesse) && i > 0 then [nid + [0], nid + [i]]
    else [nid + [i]]
  }

  predicate NoChildren(children: Option<seq<Nid>>) { children == None || children == Some([]) }

  /** `found` is the tree that a lookup through the parent finds for `nid`. */
  predicate Good(nid: Nid, c: Conf, found: Option<Tree>)
    decreases c
  {
    nid != [] &&
    match c
    case Exec(t, _, _) => nid != ROOT ==> t == found
    case Self(node, tree, _, _) =>
      && Rooted(nid, node, tree, found)
      && !node.failed
      && NoChildren(node.children)
      && (node.op == Concurrence ==> node.children == None)
    case One(node, tree, i, child) =>
      && Rooted(nid, node, tree, found)
      && !node.failed
      && node.op != Concurrence
      && node.children == Some(Keeps(node.op, nid, i))
      && i < |tree.children|
      && !child.Gone?
      && Good(nid + [i], child, At(tree.children, i))
    case Many(node, tree, cs) =>
      && Rooted(nid, node, tree, found)
      && node.op == Concurrence
      && !node.failed
      && node.children == Some(Awaited(nid, cs, 0))
      && Awaited(nid, cs, 0) != []
      && |cs| == |tree.children|
      && forall j :: 0 <= j < |cs| ==> Good(nid + [ConIndex(j)], cs[j], At(tree.children, ConIndex(j)))
    case Failing(node, tree, _, _) => Rooted(nid, node, tree, found) && node.failed
    case Stuck(node, tree) => Rooted(nid, node, tree, found) && (node.failed || node.op == Stall)
    case Rejected => nid != ROOT ==> found == None
    case _ => true
  }
}
