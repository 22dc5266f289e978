/** Variables along the chain of live parents (lookup_var_node, lookup_var, set_var). Keys are plain: a path into a
    value is not modelled. `born` is the age of a node; a node is created by a message of its parent, so a parent is
    always older. */
module Scopes {
  import opened Values

  type Id = string
  type Vars = map<string, Value>

  datatype Node = Node(parent: Option<Id>, vars: Option<Vars>, born: nat)

  type Nodes = map<Id, Node>

  predicate Ordered(nodes: Nodes) {
    forall id :: id in nodes && nodes[id].parent.Some? && nodes[id].parent.value in nodes
      ==> nodes[nodes[id].parent.value].born < nodes[id].born
  }

  /** The parent, when there is one and it is live. */
  function Parent(nodes: Nodes, id: Id): (p: Option<Id>)
    requires id in nodes && Ordered(nodes)
    ensures p.Some? ==> p.value in nodes && nodes[p.value].born < nodes[id].born
  {
    match nodes[id].parent
    case None => None
    case Some(p) => if p in nodes then Some(p) else None
  }

  /** Mode `l`: the nearest node with variables. Mode `g`: the topmost node, if it has some. Any other: none. */
  function LookupVarNode(nodes: Nodes, mode: char, id: Id): (r: Option<Id>)
    requires id in nodes && Ordered(nodes)
    ensures r.Some? ==> r.value in nodes && nodes[r.value].vars.Some?
    decreases nodes[id].born
  {
    if mode == 'l' && nodes[id].vars.Some? then Some(id)
    else match Parent(nodes, id)
      case Some(p) => LookupVarNode(nodes, mode, p)
      case None => if nodes[id].vars.Some? && mode == 'g' then Some(id) else None
  }

  function Get(vars: Vars, key: string): Option<Value> { if key in vars then Some(vars[key]) else None }

  function LookupVar(nodes: Nodes, domain: Vars, id: Id, mode: char, key: string): Option<Value>
    requires id in nodes && Ordered(nodes)
    decreases nodes[id].born
  {
    if mode == 'd' then Get(domain, key) else
    var m := if mode != 'g' then 'l' else 'g';
    match LookupVarNode(nodes, m, id)
    case None => None
    case Some(n) =>
      if key in nodes[n].vars.value then Some(nodes[n].vars.value[key])
      else match Parent(nodes, id)
        case None => Get(domain, key)
        case Some(p) => LookupVar(nodes, domain, p, m, key)
  }

  /** fdja_pset: without a value the key is removed. */
  function Put(vars: Vars, key: string, value: Option<Value>): Vars {
    if value.Some? then vars[key := value.value] else vars - {key}
  }

  function WithVar(nodes: Nodes, mode: char, id: Id, key: string, value: Option<Value>): (r: Nodes)
    requires id in nodes && Ordered(nodes)
    ensures Ordered(r) && r.Keys == nodes.Keys
  {
    var m := if mode != 'g' && mode != 'd' then 'l' else mode;
    match LookupVarNode(nodes, m, id)
    case None => nodes
    case Some(n) => nodes[n := nodes[n].(vars := Some(Put(nodes[n].vars.value, key, value)))]
  }

  class LiveNodes {
    var nodes: Nodes

    constructor (nodes: Nodes)
      ensures this.nodes == nodes
    {
      this.nodes := nodes;
    }

    method SetVar(id: Id, mode: char, key: string, value: Option<Value>)
      requires id in nodes && Ordered(nodes)
      modifies this
      ensures nodes == WithVar(old(nodes), mode, id, key, value)
    {
      var m := mode;
      if m != 'g' && m != 'l' && m != 'd' { m := 'l'; }
      var n := LookupVarNode(nodes, m, id);
      if n.Some? {
        var vars := nodes[n.value].vars.value;
        vars := if value.Some? then vars[key := value.value] else vars - {key};
        nodes := nodes[n.value := nodes[n.value].(vars := Some(vars))];
      }
    }
  }

  // --- the chain -------------------------------------------------------------------------------------

  /** The node, its parent, and so on up. */
  function Chain(nodes: Nodes, id: Id): (c: seq<Id>)
    requires id in nodes && Ordered(nodes)
    ensures c != [] && c[0] == id && (forall k :: 0 <= k < |c| ==> c[k] in nodes)
    decreases nodes[id].born
  {
    match Parent(nodes, id)
    case None => [id]
    case Some(p) => [id] + Chain(nodes, p)
  }

  predicate Binds(node: Node, key: string) { node.vars.Some? && key in node.vars.value }

  /** How far up the first binding is; the length of the chain when there is none. */
  function Nearest(nodes: Nodes, c: seq<Id>, key: string): (k: nat)
    requires forall i :: 0 <= i < |c| ==> c[i] in nodes
    ensures k <= |c| && (forall i :: 0 <= i < k ==> !Binds(nodes[c[i]], key))
    ensures k < |c| ==> Binds(nodes[c[k]], key)
  {
    if c == [] || Binds(nodes[c[0]], key) then 0 else 1 + Nearest(nodes, c[1..], key)
  }

  function Top(nodes: Nodes, id: Id): Id
    requires id in nodes && Ordered(nodes)
  {
    var c := Chain(nodes, id);
    c[|c| - 1]
  }

  /** A local lookup gives the innermost enclosing binding; without any it gives the value of the domain, but nothing at
      all when the topmost node has no variables. */
  lemma {:induction false} LocalLookup(nodes: Nodes, domain: Vars, id: Id, mode: char, key: string)
    requires id in nodes && Ordered(nodes) && mode != 'd' && mode != 'g'
    ensures
      var c := Chain(nodes, id);
      var k := Nearest(nodes, c, key);
      LookupVar(nodes, domain, id, mode, key)
      == if k < |c| then Some(nodes[c[k]].vars.value[key])
         else if nodes[Top(nodes, id)].vars.Some? && key in domain then Some(domain[key]) else None
    decreases nodes[id].born
  {
    hide Nearest;
    var c := Chain(nodes, id);
    var up := Parent(nodes, id);
    NearestStep(nodes, c, key);
    match up
    case None => NearestStep(nodes, [], key);
    case Some(p) =>
      LocalLookup(nodes, domain, p, 'l', key);
      assert c[1..] == Chain(nodes, p);
      if nodes[id].vars.None? {
        SameHome(nodes, domain, id, p, key);
      }
  }

  lemma NearestStep(nodes: Nodes, c: seq<Id>, key: string)
    requires forall i :: 0 <= i < |c| ==> c[i] in nodes
    ensures Nearest(nodes, c, key) == if c == [] || Binds(nodes[c[0]], key) then 0 else 1 + Nearest(nodes, c[1..], key)
  {
  }

  /** Without variables of its own a node sees what its parent sees. */
  lemma SameHome(nodes: Nodes, domain: Vars, id: Id, p: Id, key: string)
    requires id in nodes && Ordered(nodes) && nodes[id].vars.None? && Parent(nodes, id) == Some(p)
    ensures LookupVar(nodes, domain, id, 'l', key) == LookupVar(nodes, domain, p, 'l', key)
  {
  }

  lemma {:induction false} GlobalNode(nodes: Nodes, id: Id)
    requires id in nodes && Ordered(nodes)
    ensures LookupVarNode(nodes, 'g', id) == if nodes[Top(nodes, id)].vars.Some? then Some(Top(nodes, id)) else None
    decreases nodes[id].born
  {
    if Parent(nodes, id).Some? { GlobalNode(nodes, Parent(nodes, id).value); }
  }

  /** A global lookup sees the variables of the topmost node, then those of the domain. */
  lemma {:induction false} GlobalLookup(nodes: Nodes, domain: Vars, id: Id, key: string)
    requires id in nodes && Ordered(nodes)
    ensures
      LookupVar(nodes, domain, id, 'g', key)
      == match nodes[Top(nodes, id)].vars
         case None => None
         case Some(vars) =>
           if key in vars then Some(vars[key]) else if key in domain then Some(domain[key]) else None
    decreases nodes[id].born
  {
    GlobalNode(nodes, id);
    if Parent(nodes, id).Some? { GlobalLookup(nodes, domain, Parent(nodes, id).value, key); }
  }

  /** A lookup in the domain sees no node. */
  lemma DomainLookup(nodes: Nodes, domain: Vars, id: Id, key: string)
    requires id in nodes && Ordered(nodes)
    ensures key in domain ==> LookupVar(nodes, domain, id, 'd', key) == Some(domain[key])
    ensures key !in domain ==> LookupVar(nodes, domain, id, 'd', key) == None
  {
  }

  predicate BareTo(nodes: Nodes, c: seq<Id>, k: nat)
    requires k <= |c| && forall i :: 0 <= i < |c| ==> c[i] in nodes
  {
    forall i :: 0 <= i < k ==> nodes[c[i]].vars.None?
  }

  /** Where a local set goes: the first node of the chain with variables. */
  lemma {:induction false} LocalHome(nodes: Nodes, id: Id) returns (k: nat)
    requires id in nodes && Ordered(nodes)
    ensures
      var c := Chain(nodes, id);
      && k <= |c| && BareTo(nodes, c, k)
      && LookupVarNode(nodes, 'l', id) == (if k < |c| then Some(c[k]) else None)
    decreases nodes[id].born
  {
    var c := Chain(nodes, id);
    if nodes[id].vars.Some? {
      k := 0;
    } else if Parent(nodes, id).Some? {
      var p := Parent(nodes, id).value;
      var m := LocalHome(nodes, p);
      assert c[1..] == Chain(nodes, p);
      k := m + 1;
      assert forall i :: 0 < i < k ==> c[i] == c[1..][i - 1];
    } else {
      k := 1;
    }
  }

  // --- setting ---------------------------------------------------------------------------------------

  predicate Alike(a: Node, b: Node) { a.parent == b.parent && a.born == b.born && a.vars.Some? == b.vars.Some? }

  /** Setting a variable leaves every chain as it was. */
  lemma {:induction false} SameChain(nodes: Nodes, after: Nodes, id: Id)
    requires id in nodes && Ordered(nodes) && Ordered(after) && after.Keys == nodes.Keys
    requires forall i :: i in nodes ==> Alike(nodes[i], after[i])
    ensures Chain(after, id) == Chain(nodes, id)
    decreases nodes[id].born
  {
    if Parent(nodes, id).Some? { SameChain(nodes, after, Parent(nodes, id).value); }
  }

  lemma WithVarNodes(nodes: Nodes, mode: char, id: Id, key: string, value: Option<Value>)
    requires id in nodes && Ordered(nodes)
    ensures
      var after := WithVar(nodes, mode, id, key, value);
      var m := if mode != 'g' && mode != 'd' then 'l' else mode;
      && (forall i :: i in nodes ==> Alike(nodes[i], after[i]))
      && (forall i :: i in nodes && Some(i) != LookupVarNode(nodes, m, id) ==> after[i] == nodes[i])
  {
    hide LookupVarNode, Ordered, Parent;
    var m := if mode != 'g' && mode != 'd' then 'l' else mode;
    var after := WithVar(nodes, mode, id, key, value);
    var home := LookupVarNode(nodes, m, id);
    if home.Some? {
      var node := nodes[home.value];
      assert after == nodes[home.value := node.(vars := Some(Put(node.vars.value, key, value)))];
    }
  }

  lemma {:induction false} SameNearest(nodes: Nodes, after: Nodes, c: seq<Id>, key: string)
    requires forall k :: 0 <= k < |c| ==> c[k] in nodes && c[k] in after
    requires forall k :: 0 <= k < |c| ==> Binds(after[c[k]], key) == Binds(nodes[c[k]], key)
    ensures Nearest(after, c, key) == Nearest(nodes, c, key)
  {
    if c != [] { SameNearest(nodes, after, c[1..], key); }
  }

  lemma NearestIs(nodes: Nodes, c: seq<Id>, key: string, k: nat)
    requires forall i :: 0 <= i < |c| ==> c[i] in nodes
    requires k < |c| && Binds(nodes[c[k]], key) && forall i :: 0 <= i < k ==> !Binds(nodes[c[i]], key)
    ensures Nearest(nodes, c, key) == k
  {
    hide Nearest;
  }

  /** The variables of `home` are those a lookup of the key gets to, or come before. */
  predicate Reaches(nodes: Nodes, c: seq<Id>, key: string, home: Option<Id>)
    requires forall i :: 0 <= i < |c| ==> c[i] in nodes
  {
    exists k :: 0 <= k <= Nearest(nodes, c, key) && k < |c| && Some(c[k]) == home
  }

  /** What a set changes for any node: it sees the new value under that key exactly when the variables set are on its
      chain and no nearer node binds the key; otherwise, and under any other key, it sees what it saw. */
  lemma SetIsSeen(nodes: Nodes, domain: Vars, id: Id, mode: char, key: string, value: Option<Value>, who: Id, k2: string)
    requires id in nodes && who in nodes && Ordered(nodes)
    ensures
      var after := WithVar(nodes, mode, id, key, value);
      var home := LookupVarNode(nodes, if mode != 'g' && mode != 'd' then 'l' else mode, id);
      var c := Chain(nodes, who);
      && (k2 == key && Reaches(nodes, c, key, home) && value.Some? ==> LookupVar(after, domain, who, 'l', k2) == value)
      && (!(k2 == key && Reaches(nodes, c, key, home))
          ==> LookupVar(after, domain, who, 'l', k2) == LookupVar(nodes, domain, who, 'l', k2))
  {
    hide LookupVar, LookupVarNode, Nearest, WithVar, Chain, Ordered, Parent;
    var after := WithVar(nodes, mode, id, key, value);
    var m := if mode != 'g' && mode != 'd' then 'l' else mode;
    var home := LookupVarNode(nodes, m, id);
    var c := Chain(nodes, who);
    WithVarNodes(nodes, mode, id, key, value);
    SameChain(nodes, after, who);
    LocalLookup(nodes, domain, who, 'l', k2);
    LocalLookup(after, domain, who, 'l', k2);
    WithVarHome(nodes, mode, id, key, value);
    if k2 == key && Reaches(nodes, c, key, home) {
      var k :| 0 <= k <= Nearest(nodes, c, key) && k < |c| && Some(c[k]) == home;
      var j := FirstAt(c, c[k], k);
      if value.Some? { NearestIs(after, c, key, j); }
    } else {
      Unreached(nodes, after, c, home, key, value, k2);
    }
  }

  lemma Unreached(nodes: Nodes, after: Nodes, c: seq<Id>, home: Option<Id>, key: string, value: Option<Value>, k2: string)
    requires forall k :: 0 <= k < |c| ==> c[k] in nodes && c[k] in after
    requires forall k :: 0 <= k < |c| && Some(c[k]) != home ==> after[c[k]] == nodes[c[k]]
    requires home.Some? && home.value in c ==> nodes[home.value].vars.Some?
    requires home.Some? && home.value in c ==>
      after[home.value].vars == Some(Put(nodes[home.value].vars.value, key, value))
    requires !(k2 == key && Reaches(nodes, c, key, home))
    ensures
      var n := Nearest(nodes, c, k2);
      && Nearest(after, c, k2) == n
      && (n < |c| ==> after[c[n]].vars.Some? && after[c[n]].vars.value[k2] == nodes[c[n]].vars.value[k2])
  {
    hide Nearest;
    SameNearestBut(nodes, after, c, home, key, k2);
  }

  /** The first binding from place `j` of a chain on, else the value of the domain, as for a local lookup. */
  function Beyond(nodes: Nodes, domain: Vars, c: seq<Id>, j: nat, key: string): Option<Value>
    requires c != [] && j <= |c| && forall i :: 0 <= i < |c| ==> c[i] in nodes
  {
    var k := j + Nearest(nodes, c[j..], key);
    if k < |c| then Some(nodes[c[k]].vars.value[key])
    else if nodes[c[|c| - 1]].vars.Some? && key in domain then Some(domain[key]) else None
  }

  /** A set without a value takes the binding away: what the lookup got to is then the next binding above it. */
  lemma UnsetIsSeen(nodes: Nodes, domain: Vars, id: Id, mode: char, key: string, who: Id, j: nat)
    requires id in nodes && who in nodes && Ordered(nodes)
    requires
      var c := Chain(nodes, who);
      && j < |c| && j <= Nearest(nodes, c, key)
      && Some(c[j]) == LookupVarNode(nodes, if mode != 'g' && mode != 'd' then 'l' else mode, id)
    ensures
      LookupVar(WithVar(nodes, mode, id, key, None), domain, who, 'l', key)
      == Beyond(nodes, domain, Chain(nodes, who), j + 1, key)
  {
    hide LookupVar, LookupVarNode, Nearest, WithVar, Chain;
    var after := WithVar(nodes, mode, id, key, None);
    var c := Chain(nodes, who);
    WithVarNodes(nodes, mode, id, key, None);
    WithVarHome(nodes, mode, id, key, None);
    SameChain(nodes, after, who);
    ChainDistinct(nodes, who);
    LocalLookup(after, domain, who, 'l', key);
    var rest := c[j + 1..];
    SameNearest(nodes, after, rest, key);
    NearestSkips(after, c, j + 1, key);
  }

  lemma {:induction false} NearestSkips(nodes: Nodes, c: seq<Id>, j: nat, key: string)
    requires j <= |c| && (forall i :: 0 <= i < |c| ==> c[i] in nodes)
    requires forall i :: 0 <= i < j ==> !Binds(nodes[c[i]], key)
    ensures Nearest(nodes, c, key) == j + Nearest(nodes, c[j..], key)
  {
    if j == 0 {
      assert c[0..] == c;
    } else {
      NearestSkips(nodes, c[1..], j - 1, key);
      assert c[1..][j - 1..] == c[j..];
    }
  }

  lemma {:induction false} ChainDistinct(nodes: Nodes, id: Id)
    requires id in nodes && Ordered(nodes)
    ensures Aging(nodes, Chain(nodes, id))
    decreases nodes[id].born
  {
    if Parent(nodes, id).Some? {
      var p := Parent(nodes, id).value;
      ChainDistinct(nodes, p);
      var c, d := Chain(nodes, id), Chain(nodes, p);
      assert c[1..] == d;
      forall i, j | 0 <= i < j < |c| ensures nodes[c[j]].born < nodes[c[i]].born {
        assert c[j] == d[j - 1] && d[0] == p;
        if i > 0 { assert c[i] == d[i - 1]; }
      }
    }
  }

  /** Each node of a chain is older than those below it. */
  predicate Aging(nodes: Nodes, c: seq<Id>)
    requires forall i :: 0 <= i < |c| ==> c[i] in nodes
  {
    forall i, j :: 0 <= i < j < |c| ==> nodes[c[j]].born < nodes[c[i]].born
  }

  lemma FirstAt(c: seq<Id>, id: Id, k: nat) returns (j: nat)
    requires k < |c| && c[k] == id
    ensures j <= k && c[j] == id && forall i :: 0 <= i < j ==> c[i] != id
  {
    j := 0;
    while c[j] != id
      invariant j <= k && forall i :: 0 <= i < j ==> c[i] != id
      decreases k - j
    {
      j := j + 1;
    }
  }

  lemma WithVarHome(nodes: Nodes, mode: char, id: Id, key: string, value: Option<Value>)
    requires id in nodes && Ordered(nodes)
    ensures
      var home := LookupVarNode(nodes, if mode != 'g' && mode != 'd' then 'l' else mode, id);
      home.Some? ==>
        WithVar(nodes, mode, id, key, value)[home.value].vars == Some(Put(nodes[home.value].vars.value, key, value))
  {
  }

  lemma SameNearestBut(nodes: Nodes, after: Nodes, c: seq<Id>, home: Option<Id>, key: string, k2: string)
    requires forall k :: 0 <= k < |c| ==> c[k] in nodes && c[k] in after
    requires forall k :: 0 <= k < |c| && Some(c[k]) != home ==> after[c[k]] == nodes[c[k]]
    requires k2 != key ==> forall k :: 0 <= k < |c| ==> Binds(after[c[k]], k2) == Binds(nodes[c[k]], k2)
    requires k2 == key ==> forall k :: 0 <= k <= Nearest(nodes, c, key) && k < |c| ==> Some(c[k]) != home
    ensures Nearest(after, c, k2) == Nearest(nodes, c, k2)
    ensures Nearest(nodes, c, k2) < |c| && k2 == key ==> after[c[Nearest(nodes, c, k2)]] == nodes[c[Nearest(nodes, c, k2)]]
  {
    hide Nearest;
    var n := Nearest(nodes, c, k2);
    if k2 != key {
      SameNearest(nodes, after, c, k2);
    } else if n < |c| {
      NearestIs(after, c, k2, n);
    } else {
      SameNearest(nodes, after, c, k2);
    }
  }

  lemma BareNearest(nodes: Nodes, c: seq<Id>, k: nat, key: string)
    requires (forall i :: 0 <= i < |c| ==> c[i] in nodes) && k <= |c| && BareTo(nodes, c, k)
    ensures k <= Nearest(nodes, c, key)
  {
    hide Nearest;
  }

  /** A local set is read back by a local lookup from the same node, as soon as some node of its chain has variables. */
  lemma SetThenGet(nodes: Nodes, domain: Vars, id: Id, key: string, value: Value)
    requires id in nodes && Ordered(nodes) && LookupVarNode(nodes, 'l', id).Some?
    ensures LookupVar(WithVar(nodes, 'l', id, key, Some(value)), domain, id, 'l', key) == Some(value)
  {
    hide LookupVar, LookupVarNode, WithVar, Nearest, Chain;
    SetIsSeen(nodes, domain, id, 'l', key, Some(value), id, key);
    var k := LocalHome(nodes, id);
    BareNearest(nodes, Chain(nodes, id), k, key);
  }

  /** A set under mode `d` changes nothing. */
  lemma {:induction false} DomainSet(nodes: Nodes, id: Id, key: string, value: Option<Value>)
    requires id in nodes && Ordered(nodes)
    ensures WithVar(nodes, 'd', id, key, value) == nodes
    decreases nodes[id].born
  {
    if Parent(nodes, id).Some? { DomainSet(nodes, Parent(nodes, id).value, key, value); }
  }
}
