/** Flow trees `[ head, atts, line, children ]`. */
module Trees {
  import opened Values

  /** `_0`, `_1`... are index keys, anything else is a name. */
  datatype Key = Index(n: nat) | Name(s: string)

  /** A head or an attribute value: a plain value, or a parenthesised tree. */
  datatype Atom = Lit(v: Value) | Sub(t: Tree)

  datatype Att = Att(key: Key, atom: Atom)

  datatype Tree = Tree(head: Atom, atts: seq<Att>, line: nat, children: seq<Tree>)

  function Word(s: string): Atom { Lit(Str(s)) }

  predicate Stringy(a: Atom) { a.Lit? && a.v.Str? }

  function At(ts: seq<Tree>, i: nat): Option<Tree> {
    if i < |ts| then Some(ts[i]) else None
  }

  // --- weights: every child of a rewritten tree weighs less than the tree ------------------------

  /** `val` over one plain value: executing it can never spawn a child. */
  predicate LeafVal(t: Tree) {
    t.head == Word("val") && |t.atts| == 1 && t.children == []
    && t.atts[0].atom.Lit? && t.atts[0].atom != Word("if") && t.atts[0].atom != Word("unless")
  }

  ghost function Weight(t: Tree): nat
    decreases t, 0
  {
    if LeafVal(t) then 1
    else 1 + HeadWeight(t.head) + AttsWeight(t.atts) + TreesWeight(t.children)
  }

  ghost function HeadWeight(a: Atom): nat
    decreases a, 1
  {
    match a case Lit(_) => 1 case Sub(t) => Weight(t)
  }

  ghost function AtomWeight(a: Atom): nat
    decreases a, 1
  {
    match a case Lit(_) => 4 case Sub(t) => Weight(t) + 3
  }

  ghost function AttWeight(a: Att): nat
    decreases a, 2
  {
    AtomWeight(a.atom) + if a.key.Name? then 6 else 0
  }

  ghost function AttsWeight(atts: seq<Att>): nat
    decreases atts, 3
  {
    if atts == [] then 0 else AttWeight(atts[0]) + AttsWeight(atts[1..])
  }

  ghost function TreesWeight(ts: seq<Tree>): nat
    decreases ts, 3
  {
    if ts == [] then 0 else Weight(ts[0]) + TreesWeight(ts[1..])
  }

  lemma {:induction false} AttsWeightAppend(a: seq<Att>, b: seq<Att>)
    ensures AttsWeight(a + b) == AttsWeight(a) + AttsWeight(b)
  {
    if a == [] {
      assert a + b == b;
    } else {
      assert (a + b)[1..] == a[1..] + b;
      AttsWeightAppend(a[1..], b);
    }
  }

  lemma {:induction false} TreesWeightAppend(a: seq<Tree>, b: seq<Tree>)
    ensures TreesWeight(a + b) == TreesWeight(a) + TreesWeight(b)
  {
    if a == [] {
      assert a + b == b;
    } else {
      assert (a + b)[1..] == a[1..] + b;
      TreesWeightAppend(a[1..], b);
    }
  }

  lemma SingleWeights(a: Att, t: Tree)
    ensures AttsWeight([a]) == AttWeight(a)
    ensures TreesWeight([t]) == Weight(t)
  {
    assert [a][1..] == [] && [t][1..] == [];
  }

  lemma {:induction false} ChildWeight(ts: seq<Tree>, i: nat)
    requires i < |ts|
    ensures Weight(ts[i]) <= TreesWeight(ts)
  {
    if i > 0 {
      ChildWeight(ts[1..], i - 1);
    }
  }
}
