/** The in-memory execution engine: a queue of messages worked off against a map of live nodes. */
module Machine {
  import opened Values
  import opened Trees
  import opened Rewriting
  import opened Instructions

  /** A node id such as `0_1_3`, as the path [0, 1, 3]. Module Nids ties it to the text. */
  type Nid = seq<nat>

  const ROOT: Nid := [0]

  /** The id of child `i` of a concurrence: `i` is written in decimal, and ids are read in hexadecimal. */
  function ConIndex(i: nat): nat {
    if i < 10 then i else 16 * ConIndex(i / 10) + i % 10
  }

  datatype Node = Node(
    op: Op,
    parent: Option<Nid>,
    tree: Option<Tree>,           // kept for the root and for rewritten trees only
    children: Option<seq<Nid>>,
    rets: Option<seq<Value>>,
    failed: bool)

  datatype Msg =
    | Execute(nid: Nid, parent: Option<Nid>, tree: Option<Tree>, payload: Payload)
    | Receive(nid: Nid, from: Nid, payload: Payload)
    | Launched(nid: Nid, payload: Payload)
    | Terminated(nid: Nid, payload: Payload)
    | Ceased(nid: Nid, payload: Payload)
    | Failed(nid: Nid, payload: Payload)

  type Nodes = map<Nid, Node>

  datatype State = State(nodes: Nodes, msgs: seq<Msg>)

  function Last(nid: Nid): nat { if nid == [] then 0 else nid[|nid| - 1] }

  function Chop(nid: Nid): Nid { if nid == [] then [] else nid[..|nid| - 1] }

  // --- tree lookup -------------------------------------------------------------------------------

  /** node_tree: the tree kept by the node, else the child of what the node's parent has. A parent id is
      shorter than its node's id in every run; the guard only makes the recursion total. */
  function NodeTree(nodes: Nodes, nid: Nid): Option<Tree>
    decreases |nid|
  {
    if nid in nodes && nodes[nid].tree.Some? then nodes[nid].tree else
    var up :=
      if nid in nodes && nodes[nid].parent.Some? && |nodes[nid].parent.value| < |nid|
      then NodeTree(nodes, nodes[nid].parent.value) else None;
    if up.Some? then At(up.value.children, Last(nid))
    else if |nid| <= 1 then None
    else
      var chopped := NodeTree(nodes, Chop(nid));
      if chopped.Some? then At(chopped.value.children, Last(nid)) else None
  }

  function Found(nodes: Nodes, nid: Nid): bool { NodeTree(nodes, nid).Some? }

  // --- execute -----------------------------------------------------------------------------------

  /** A tree ready for its instruction. A crash of the rewriting is outside the model. */
  datatype Prepared = Prepared(tree: Tree, changed: bool, op: Op)

  function Prepare(t: Tree): Prepared {
    match RewriteTree(t)
    case Crash => Prepared(t, false, Unknown)
    case Rewritten(u, changed) => Prepared(u, changed, OpOf(u))
  }

  /** The ids of the children of a concurrence over `n` children. */
  function ConIds(nid: Nid, n: nat): (ids: seq<Nid>)
    ensures |ids| == n
    ensures forall i :: 0 <= i < n ==> ids[i] == nid + [ConIndex(i)]
  {
    if n == 0 then [] else ConIds(nid, n - 1) + [nid + [ConIndex(n - 1)]]
  }

  function ConMsgs(nid: Nid, n: nat, p: Payload): (ms: seq<Msg>)
    ensures |ms| == n
    ensures forall i :: 0 <= i < n ==> ms[i] == Execute(nid + [ConIndex(i)], Some(nid), None, p)
  {
    if n == 0 then [] else ConMsgs(nid, n - 1, p) + [Execute(nid + [ConIndex(n - 1)], Some(nid), None, p)]
  }

  /** Whether seq_exe, which sets `children`, is reached. */
  predicate Collects(op: Op, t: Tree, p: Payload) {
    match op
    case Sequence | And | Or | Arith(_) | Cmp(_) => true
    case Else => t.children != [] && RetIsFalse(p)
    case _ => false
  }

  /** The `children` field after an execute message. */
  function ExeKids(op: Op, t: Tree, p: Payload, nid: Nid, next: Option<nat>): Option<seq<Nid>> {
    if next.Some? then Some([nid + [next.value]]) else if Collects(op, t, p) then Some([]) else None
  }

  function NextMsgs(nid: Nid, r: Reaction): seq<Msg> {
    if r.next.Some? then [Execute(nid + [r.next.value], Some(nid), None, r.payload)] else []
  }

  function VerdictMsgs(nid: Nid, r: Reaction): seq<Msg> {
    match r.verdict
    case Over => [Receive(nid, nid, r.payload)]
    case Ok => []
    case Error => [Failed(nid, r.payload)]
  }

  /** create_node and the rewriting: the node before its instruction runs. */
  function NewNode(nid: Nid, parent: Option<Nid>, t: Tree): Node {
    var u := Prepare(t);
    Node(u.op, parent, if u.changed then Some(u.tree) else if nid == ROOT then Some(t) else None, None, None, false)
  }

  function LaunchMsgs(nid: Nid, parent: Option<Nid>, p: Payload): seq<Msg> {
    if parent.None? && nid == ROOT then [Launched(nid, p)] else []
  }

  predicate Forks(u: Prepared) { u.op == Concurrence && u.tree.children != [] }

  function ExeReaction(nodes: Nodes, nid: Nid, u: Prepared, p: Payload): Reaction {
    Exe(u.op, u.tree, p, Found(nodes, nid + [0]))
  }

  /** The node after its instruction, and what it queues. */
  function Settled(node: Node, r: Reaction, kids: Option<seq<Nid>>): Node {
    node.(children := kids, rets := r.rets, failed := node.failed || r.verdict.Error?)
  }

  function SettleExe(s: State, nid: Nid, node: Node, r: Reaction, kids: Option<seq<Nid>>): State {
    State(s.nodes[nid := Settled(node, r, kids)], s.msgs + NextMsgs(nid, r) + VerdictMsgs(nid, r))
  }

  /** con_exe: all the children at once, each with the payload of the concurrence. */
  function ForkIn(s: State, nid: Nid, node: Node, t: Tree, p: Payload): State {
    var n := |t.children|;
    State(s.nodes[nid := node.(children := Some(ConIds(nid, n)))], s.msgs + ConMsgs(nid, n, p))
  }

  function ExecuteIn(s: State, nid: Nid, parent: Option<Nid>, t: Tree, p: Payload): State {
    var u := Prepare(t);
    var node := NewNode(nid, parent, t);
    var nodes := s.nodes[nid := node];
    var msgs := s.msgs + LaunchMsgs(nid, parent, p);
    if Forks(u) then ForkIn(State(nodes, msgs), nid, node, u.tree, p)
    else
      var r := ExeReaction(nodes, nid, u, p);
      SettleExe(State(nodes, msgs), nid, node, r, ExeKids(u.op, u.tree, p, nid, r.next))
  }

  /** handle_execute: a message whose tree is not found is rejected. */
  function HandleExecute(s: State, m: Msg): State
    requires m.Execute?
  {
    var t := if m.tree.Some? then m.tree else NodeTree(s.nodes, m.nid);
    if t.None? then s else ExecuteIn(s, m.nid, m.parent, t.value, m.payload)
  }

  // --- receive -----------------------------------------------------------------------------------

  /** None for a message from the node itself. */
  function FromIndex(nid: Nid, from: Nid): Option<nat> {
    if from == nid then None else Some(Last(from))
  }

  function TreeOf(nodes: Nodes, nid: Nid): Tree {
    var t := NodeTree(nodes, nid);
    if t.Some? then t.value else Tree(Lit(Null), [], 0, [])
  }

  /** Whether seq_rcv, which drops the first of the children, is reached. */
  predicate Splices(op: Op, from: Option<nat>, p: Payload) {
    match op
    case Sequence | Arith(_) | Cmp(_) => true
    case And | Or => from.None? || Truth(p) != (op == Or)
    case Else => from.Some?
    case _ => false
  }

  function DropFirst(ids: seq<Nid>): seq<Nid> { if ids == [] then [] else ids[1..] }

  /** The `children` field after a receive message; `if`, `ife` and `set` nodes never remove from it. */
  function RcvKids(op: Op, children: Option<seq<Nid>>, nid: Nid, from: Option<nat>, p: Payload, next: Option<nat>)
    : Option<seq<Nid>>
  {
    var kept := if children.Some? && Splices(op, from, p) then Some(DropFirst(children.value)) else children;
    if next.None? then kept
    else Some((if kept.Some? then kept.value else []) + [nid + [next.value]])
  }

  /** fdja_unpush: removes the first entry equal to `id`. */
  function Remove(ids: seq<Nid>, id: Nid): seq<Nid> {
    if ids == [] then [] else if ids[0] == id then ids[1..] else [ids[0]] + Remove(ids[1..], id)
  }

  /** The reaction of a live node to a message, and its `children` field afterwards. */
  function Receiving(nodes: Nodes, nid: Nid, from: Nid, p: Payload): (Reaction, Option<seq<Nid>>)
    requires nid in nodes
  {
    var node := nodes[nid];
    if node.op == Concurrence then
      var kids := if node.children.Some? then Some(Remove(node.children.value, from)) else None;
      (Reaction(if kids.None? || kids.value == [] then Over else Ok, p, node.rets, None), kids)
    else
      var i := FromIndex(nid, from);
      var k := NextIndex(node.op, i, p);
      var r := Rcv(node.op, TreeOf(nodes, nid), node.rets, i, p, Found(nodes, nid + [k]));
      (r, RcvKids(node.op, node.children, nid, i, p, r.next))
  }

  /** The message of a node that is over. */
  function OverMsg(nid: Nid, parent: Option<Nid>, p: Payload): Msg {
    if parent.Some? then Receive(parent.value, nid, p)
    else if nid == ROOT then Terminated(nid, p)
    else Ceased(nid, p)
  }

  /** A node that is over is removed and answers; any other is kept. */
  function SettleRcv(s: State, nid: Nid, node: Node, r: Reaction, kids: Option<seq<Nid>>): State {
    if r.verdict.Over? then State(s.nodes - {nid}, s.msgs + NextMsgs(nid, r) + [OverMsg(nid, node.parent, r.payload)])
    else SettleExe(s, nid, node, r, kids)
  }

  /** handle_return: a message for a node that is not there is rejected. */
  function HandleReturn(s: State, m: Msg): State
    requires m.Receive?
  {
    if m.nid !in s.nodes then s else
    var (r, kids) := Receiving(s.nodes, m.nid, m.from, m.payload);
    SettleRcv(s, m.nid, s.nodes[m.nid], r, kids)
  }

  /** One turn of the loop of flon_execut; `terminated` ends the run, other events are discarded. */
  function Handle(s: State, m: Msg): State {
    match m
    case Execute(_, _, _, _) => HandleExecute(s, m)
    case Receive(_, _, _) => HandleReturn(s, m)
    case _ => s
  }

  function Step(s: State): State
    requires s.msgs != []
  {
    Handle(State(s.nodes, s.msgs[1..]), s.msgs[0])
  }

  function Init(t: Tree, p: Payload): State {
    State(map[], [Execute(ROOT, None, Some(t), p)])
  }
}
