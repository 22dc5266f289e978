/** The rewriting applied to a tree each time a node is created: values become `val`, `if` words become
    branches, operators between attributes become heads. */
module Rewriting {
  import opened Values
  import opened Trees

  /** Crash: the source would dereference an empty list (an operator, `then` or `else` with nothing
      on one side). */
  datatype Rewrite = Crash | Rewritten(tree: Tree, changed: bool)

  const OPS := ["or", "and", "==", "!=", "=~", "!~", ">", ">=", "<", "<=", "+", "-", "*", "/", "%"]

  predicate IsInstruction(name: string) {
    name in {
      "sequence", "define", "set", "call", "task", "concurrence", "trace", "stall", "val", "wait", "noop", "log",
      "and", "or", "cand", "cor", ">", ">=", "<", "<=", "==", "!=", "=~", "!~",
      "ife", "unlesse", "if", "unless", "elsif", "elif", "else", "+", "-", "*", "/", "map"
    }
  }

  predicate IsOp(a: Att, op: string) { a.atom == Word(op) }

  predicate IsIfWord(a: Att) { IsOp(a, "if") || IsOp(a, "unless") }

  // --- from attribute lists to trees -------------------------------------------------------------

  function VToTree(a: Atom, line: nat): Tree {
    if a.Sub? then a.t
    else if Stringy(a) then Tree(a, [], line, [])
    else Tree(Word("val"), [Att(Index(0), a)], line, [])
  }

  /** Index keys are numbered again from the position in the list, names are kept. */
  function Renumber(atts: seq<Att>, from: nat): (r: seq<Att>)
    ensures |r| == |atts|
    ensures forall i :: 0 <= i < |r| ==> r[i].atom == atts[i].atom
    ensures forall i :: 0 <= i < |r| ==> r[i].key == if atts[i].key.Index? then Index(from + i) else atts[i].key
  {
    if atts == [] then []
    else [if atts[0].key.Index? then Att(Index(from), atts[0].atom) else atts[0]] + Renumber(atts[1..], from + 1)
  }

  function LToTree(l: seq<Att>, line: nat): Tree
    requires l != []
  {
    if |l| == 1 then VToTree(l[0].atom, line) else Tree(l[0].atom, Renumber(l[1..], 0), line, [])
  }

  // --- the passes --------------------------------------------------------------------------------

  function AsVal(t: Tree): Rewrite {
    if Stringy(t.head) && !IsInstruction(t.head.v.s) && t.atts == [] && t.children == []
    then Rewritten(Tree(Word("val"), [Att(Index(0), t.head)], t.line, []), true)
    else Rewritten(t, false)
  }

  function ElseIf(t: Tree): Rewrite {
    if t.head == Word("else") && t.atts != [] && exists a :: a in t.atts && a.key == Index(0) && IsOp(a, "if")
    then Rewritten(t.(head := Word("elsif"), atts := t.atts[1..]), true)
    else Rewritten(t, false)
  }

  /** The place of the first `if` or `unless` among the attributes, or their number. */
  function IfPlace(atts: seq<Att>): (k: nat)
    ensures k <= |atts|
    ensures forall i :: 0 <= i < k ==> !IsIfWord(atts[i])
    ensures k < |atts| ==> IsIfWord(atts[k])
  {
    if atts == [] || IsIfWord(atts[0]) then 0 else 1 + IfPlace(atts[1..])
  }

  /** The instruction of a trailing condition, from the first letter of the head its tree has once rewritten. */
  function PostHead(head: Atom): Atom {
    if Stringy(head) && head.v.s != "" && head.v.s[0] == 'i' then Word("ife") else Word("unlesse")
  }

  /** `x y if c` becomes `ife` over the condition and `x y`. */
  function PostIf(t: Tree): Rewrite
    decreases Weight(t), 0
  {
    var k := IfPlace(t.atts);
    if k == |t.atts| then Rewritten(t, false) else
    var cond := t.atts[k..];
    LToTreeWeight(cond, t.line);
    AttsWeightAppend(t.atts[..k], cond);
    assert t.atts == t.atts[..k] + cond;
    var r := RewriteTree(LToTree(cond, t.line));
    if r.Crash? then Crash else
    var then_ := t.(atts := t.atts[..k]);
    Rewritten(r.tree.(head := PostHead(r.tree.head), children := r.tree.children + [then_]), true)
  }

  datatype Part = Cond | Then | Else

  datatype IfParts = IfParts(cond: seq<Att>, then_: seq<Att>, else_: seq<Att>)

  function PartOf(a: Att, part: Part): Part {
    if IsOp(a, "then") then Then else if IsOp(a, "else") then Else else part
  }

  function AddTo(parts: IfParts, part: Part, a: Att): IfParts {
    match part
    case Cond => parts.(cond := parts.cond + [a])
    case Then => parts.(then_ := parts.then_ + [a])
    case Else => parts.(else_ := parts.else_ + [a])
  }

  function SplitIf(atts: seq<Att>, part: Part, parts: IfParts): IfParts
    decreases |atts|
  {
    if atts == [] then parts
    else var p := PartOf(atts[0], part); SplitIf(atts[1..], p, AddTo(parts, p, atts[0]))
  }

  predicate IsIfHead(a: Atom) {
    a == Word("if") || a == Word("elif") || a == Word("elsif") || a == Word("unless") || a == Word("else")
  }

  /** The instruction an if-like head turns into when it holds a `then`. */
  function ThenHead(head: Atom): Atom
    requires IsIfHead(head)
  {
    if head == Word("if") then Word("ife") else if head == Word("unless") then Word("unlesse") else Word("elsif")
  }

  /** The trees that the parts add in front of the children. */
  function IfTrees(parts: IfParts, line: nat): Option<seq<Tree>> {
    if parts.cond == [] then Some([])
    else if parts.then_ == [] then Some([LToTree(parts.cond, line)])
    else if |parts.then_| == 1 || |parts.else_| == 1 then None
    else if parts.else_ == [] then Some([LToTree(parts.cond, line), LToTree(parts.then_[1..], line)])
    else Some([LToTree(parts.cond, line), LToTree(parts.then_[1..], line), LToTree(parts.else_[1..], line)])
  }

  function HeadIf(t: Tree): Rewrite {
    if !IsIfHead(t.head) then Rewritten(t, false) else
    var parts := SplitIf(t.atts, Cond, IfParts([], [], []));
    var trees := IfTrees(parts, t.line);
    if trees.None? then Crash else
    var head := if parts.then_ == [] then t.head else ThenHead(t.head);
    Rewritten(Tree(head, [], t.line, trees.value + t.children), true)
  }

  /** One `set` tree for each named attribute. */
  function Sets(atts: seq<Att>, line: nat): seq<Tree> {
    if atts == [] then []
    else if atts[0].key.Index? then Sets(atts[1..], line)
    else [SetTree(atts[0], line)] + Sets(atts[1..], line)
  }

  function SetTree(a: Att, line: nat): Tree
    requires a.key.Name?
  {
    Tree(Word("set"), [Att(Index(0), Word(a.key.s))], line, [VToTree(a.atom, line)])
  }

  function SetPass(t: Tree): Rewrite {
    if t.head != Word("set") || t.atts == [] || t.children != [] then Rewritten(t, false) else
    var sets := Sets(t.atts, t.line);
    if |sets| == 1 then Rewritten(sets[0], true)
    else Rewritten(Tree(Word("sequence"), [], t.line, sets), true)
  }

  predicate Sees(op: string, atts: seq<Att>) { exists a :: a in atts && IsOp(a, op) }

  /** The lists between the operators: `cur` is the one being filled. */
  function Segments(op: string, cur: seq<Att>, atts: seq<Att>): (r: seq<seq<Att>>)
    ensures r != []
    decreases |atts|
  {
    if atts == [] then [cur]
    else if IsOp(atts[0], op) then [cur] + Segments(op, [], atts[1..])
    else Segments(op, cur + [atts[0]], atts[1..])
  }

  function SegmentTrees(segments: seq<seq<Att>>, line: nat): (r: seq<Tree>)
    requires [] !in segments
    ensures |r| == |segments|
    ensures forall i :: 0 <= i < |r| ==> r[i] == LToTree(segments[i], line)
  {
    if segments == [] then [] else [LToTree(segments[0], line)] + SegmentTrees(segments[1..], line)
  }

  function Infix(op: string, t: Tree): Rewrite {
    var segments := Segments(op, [Att(Index(0), t.head)], t.atts);
    if [] in segments then Crash
    else Rewritten(Tree(Word(op), [], t.line, SegmentTrees(segments, t.line)), true)
  }

  function AttTrees(atts: seq<Att>, line: nat): (r: seq<Tree>)
    ensures |r| == |atts|
    ensures forall i :: 0 <= i < |r| ==> r[i] == VToTree(atts[i].atom, line)
  {
    if atts == [] then [] else [VToTree(atts[0].atom, line)] + AttTrees(atts[1..], line)
  }

  function Prefix(op: string, t: Tree): Rewrite {
    if t.head != Word(op) || t.children != [] then Rewritten(t, false)
    else Rewritten(Tree(Word(op), [], t.line, AttTrees(t.atts, t.line)), true)
  }

  function Pinfix(op: string, t: Tree): Rewrite {
    if Sees(op, t.atts) then Infix(op, t) else Prefix(op, t)
  }

  /** The operators, in precedence order. */
  function Pinfixes(ops: seq<string>, t: Tree): Rewrite {
    if ops == [] then Rewritten(t, false) else
    var r := Pinfix(ops[0], t);
    if r.Crash? then Crash else
    var s := Pinfixes(ops[1..], r.tree);
    if s.Crash? then Crash else Rewritten(s.tree, r.changed || s.changed)
  }

  function RewriteTree(t: Tree): Rewrite
    decreases Weight(t), 1
  {
    AsValWeight(t);
    var a := AsVal(t);
    ElseIfWeight(a.tree);
    var b := ElseIf(a.tree);
    var c := PostIf(b.tree);
    if c.Crash? then Crash else
    var d := HeadIf(c.tree);
    if d.Crash? then Crash else
    var e := SetPass(d.tree);
    var f := Pinfixes(OPS, e.tree);
    if f.Crash? then Crash
    else Rewritten(f.tree, a.changed || b.changed || c.changed || d.changed || e.changed || f.changed)
  }

  // --- no pass makes a tree heavier ----------------------------------------------------------------

  lemma VToTreeWeight(a: Atom, line: nat)
    ensures Weight(VToTree(a, line)) + (if a.Lit? then 2 else 3) <= AtomWeight(a)
  {
    if a.Lit? {
      var t := VToTree(a, line);
      assert t.atts == [] ==> AttsWeight(t.atts) == 0 && TreesWeight(t.children) == 0;
    }
  }

  lemma {:induction false} RenumberWeight(atts: seq<Att>, from: nat)
    ensures AttsWeight(Renumber(atts, from)) == AttsWeight(atts)
  {
    if atts != [] {
      RenumberWeight(atts[1..], from + 1);
      var r := Renumber(atts, from);
      assert r[1..] == Renumber(atts[1..], from + 1);
      assert AttWeight(r[0]) == AttWeight(atts[0]);
    }
  }

  lemma PlainWeight(t: Tree)
    ensures Weight(t) <= 1 + HeadWeight(t.head) + AttsWeight(t.atts) + TreesWeight(t.children)
  {
  }

  lemma LToTreeWeight(l: seq<Att>, line: nat)
    requires l != []
    ensures Weight(LToTree(l, line)) + 2 <= AttsWeight(l)
  {
    VToTreeWeight(l[0].atom, line);
    if |l| == 1 {
      assert l[1..] == [];
    } else {
      RenumberWeight(l[1..], 0);
      PlainWeight(LToTree(l, line));
    }
  }

  lemma AsValWeight(t: Tree)
    ensures Weight(AsVal(t).tree) <= Weight(t)
  {
  }

  lemma ElseIfWeight(t: Tree)
    ensures Weight(ElseIf(t).tree) <= Weight(t)
  {
    if ElseIf(t).changed {
      PlainWeight(ElseIf(t).tree);
    }
  }

  lemma {:induction false} PinfixesIdle(ops: seq<string>, t: Tree)
    requires t.atts == [] && forall op :: op in ops ==> t.head != Word(op)
    ensures Pinfixes(ops, t) == Rewritten(t, false)
  {
    if ops != [] {
      PinfixesIdle(ops[1..], t);
    }
  }

  predicate BranchHead(a: Atom) {
    a == Word("if") || a == Word("unless") || a == Word("ife") || a == Word("unlesse")
  }

  lemma BranchHeadsAreNoOps(a: Atom)
    requires BranchHead(a)
    ensures forall op :: op in OPS ==> a != Word(op)
  {
  }

  lemma BranchRest(t: Tree)
    requires BranchHead(t.head)
    requires IsIfHead(t.head) || t.atts == []
    requires HeadIf(t).Rewritten?
    ensures
      var d := HeadIf(t).tree;
      d.atts == [] && BranchHead(d.head) && SetPass(d) == Rewritten(d, false)
      && Pinfixes(OPS, d) == Rewritten(d, false)
  {
    BranchHeadsAreNoOps(HeadIf(t).tree.head);
    PinfixesIdle(OPS, HeadIf(t).tree);
  }

  /** A tree headed by `if` or `unless` comes out without attributes, with a branching head. */
  lemma {:induction false} BranchShape(t: Tree)
    requires t.head == Word("if") || t.head == Word("unless")
    requires RewriteTree(t).Rewritten?
    ensures RewriteTree(t).tree.atts == [] && BranchHead(RewriteTree(t).tree.head)
    decreases Weight(t)
  {
    var k := IfPlace(t.atts);
    if k < |t.atts| {
      var cond := t.atts[k..];
      LToTreeWeight(cond, t.line);
      AttsWeightAppend(t.atts[..k], cond);
      assert t.atts == t.atts[..k] + cond;
      BranchShape(LToTree(cond, t.line));
    }
    assert AsVal(t) == Rewritten(t, false) && ElseIf(t) == Rewritten(t, false);
    BranchRest(PostIf(t).tree);
  }

  /** The last `if` or `unless` among the attributes. */
  function LastIf(atts: seq<Att>): (a: Att)
    requires exists i :: 0 <= i < |atts| && IsIfWord(atts[i])
    ensures IsIfWord(a)
  {
    var n := |atts| - 1;
    if IsIfWord(atts[n]) then atts[n] else LastIf(atts[..n])
  }

  lemma {:induction false} LastIfRest(atts: seq<Att>, k: nat)
    requires k < |atts| && exists i :: k <= i < |atts| && IsIfWord(atts[i])
    ensures exists i :: 0 <= i < |atts[k..]| && IsIfWord(atts[k..][i])
    ensures LastIf(atts[k..]) == LastIf(atts)
  {
    var i :| k <= i < |atts| && IsIfWord(atts[i]);
    assert atts[k..][i - k] == atts[i];
    var n := |atts| - 1;
    if !IsIfWord(atts[n]) {
      assert atts[..n][i] == atts[i];
      LastIfRest(atts[..n], k);
      assert atts[..n][k..] == atts[k..][..n - k];
    }
  }

  lemma {:induction false} LastIfRenumbered(atts: seq<Att>, from: nat)
    requires exists i :: 0 <= i < |atts| && IsIfWord(atts[i])
    ensures exists i :: 0 <= i < |Renumber(atts, from)| && IsIfWord(Renumber(atts, from)[i])
    ensures LastIf(Renumber(atts, from)).atom == LastIf(atts).atom
  {
    hide Renumber;
    var r, n := Renumber(atts, from), |atts| - 1;
    var i :| 0 <= i < |atts| && IsIfWord(atts[i]);
    assert IsIfWord(r[i]);
    if !IsIfWord(atts[n]) {
      assert atts[..n][i] == atts[i];
      LastIfRenumbered(atts[..n], from);
      RenumberTake(atts, from, n);
    }
  }

  lemma {:induction false} RenumberTake(atts: seq<Att>, from: nat, n: nat)
    requires n <= |atts|
    ensures Renumber(atts[..n], from) == Renumber(atts, from)[..n]
  {
    if n > 0 {
      assert atts[..n][1..] == atts[1..][..n - 1];
      RenumberTake(atts[1..], from + 1, n - 1);
    }
  }

  /** A condition of its own keeps its first letter. */
  lemma OneCondition(c: Tree)
    requires (c.head == Word("if") || c.head == Word("unless")) && IfPlace(c.atts) == |c.atts|
    requires RewriteTree(c).Rewritten?
    ensures PostHead(RewriteTree(c).tree.head) == if c.head == Word("if") then Word("ife") else Word("unlesse")
  {
    hide SplitIf, IfTrees, Pinfixes, LToTree;
    assert AsVal(c) == Rewritten(c, false) && ElseIf(c) == Rewritten(c, false) && PostIf(c) == Rewritten(c, false);
    BranchRest(c);
  }

  /** One that has a trailing condition itself takes the letter of that one. */
  lemma InnerCondition(c: Tree)
    requires (c.head == Word("if") || c.head == Word("unless")) && IfPlace(c.atts) < |c.atts|
    requires RewriteTree(c).Rewritten?
    ensures PostIf(c).Rewritten? && PostHead(RewriteTree(c).tree.head) == PostIf(c).tree.head
  {
    hide SplitIf, IfTrees, Pinfixes, LToTree, RewriteTree;
    InnerRewritten(c);
    var d := PostIf(c).tree;
    assert d.head == Word("ife") || d.head == Word("unlesse");
  }

  lemma InnerRewritten(c: Tree)
    requires (c.head == Word("if") || c.head == Word("unless")) && IfPlace(c.atts) < |c.atts|
    requires RewriteTree(c).Rewritten?
    ensures PostIf(c).Rewritten? && RewriteTree(c).tree.head == PostIf(c).tree.head
  {
    hide SplitIf, IfTrees, Pinfixes, LToTree;
    assert AsVal(c) == Rewritten(c, false) && ElseIf(c) == Rewritten(c, false);
    var cond := c.atts[IfPlace(c.atts)..];
    LToTreeHead(cond, c.line);
    BranchShape(LToTree(cond, c.line));
    BranchRest(PostIf(c).tree);
  }

  lemma LToTreeHead(l: seq<Att>, line: nat)
    requires l != [] && l[0].atom.Lit? && Stringy(l[0].atom)
    ensures LToTree(l, line).head == l[0].atom && LToTree(l, line).atts == Renumber(l[1..], 0)
  {
  }

  /** Of several trailing conditions the last one names the branch. */
  lemma {:induction false} LastConditionNames(t: Tree)
    requires PostIf(t).Rewritten? && exists i :: 0 <= i < |t.atts| && IsIfWord(t.atts[i])
    ensures PostIf(t).tree.head == LastIfHead(t.atts)
    decreases Weight(t), 0
  {
    hide RewriteTree, LToTree, LastIf, Renumber, PostIf, PostHead, Weight, AttsWeight;
    var k := IfPlace(t.atts);
    var cond := t.atts[k..];
    var c := LToTree(cond, t.line);
    SomePlace(t.atts);
    PostIfIs(t);
    LastIfRest(t.atts, k);
    assert cond[0] == t.atts[k];
    LToTreeHead(cond, t.line);
    if j :| 1 <= j < |cond| && IsIfWord(cond[j]) {
      LaterCondition(cond, t.line);
      InnerCondition(c);
      LastConditionNames(c);
    } else {
      LastIsFirst(cond);
      SoleCondition(cond, t.line);
      OneCondition(c);
    }
  }

  lemma {:induction false} SomePlace(atts: seq<Att>)
    requires exists i :: 0 <= i < |atts| && IsIfWord(atts[i])
    ensures IfPlace(atts) < |atts| && IsIfWord(atts[IfPlace(atts)])
  {
    var i :| 0 <= i < |atts| && IsIfWord(atts[i]);
    if IfPlace(atts) == |atts| { assert false; }
  }

  /** What a trailing condition leaves. */
  lemma PostIfIs(t: Tree)
    requires PostIf(t).Rewritten? && IfPlace(t.atts) < |t.atts|
    ensures
      var cond := t.atts[IfPlace(t.atts)..];
      var c := LToTree(cond, t.line);
      && Weight(c) < Weight(t) && RewriteTree(c).Rewritten? && PostIf(t).tree.head == PostHead(RewriteTree(c).tree.head)
  {
    hide RewriteTree, LToTree, AttsWeight, PostHead;
    var k := IfPlace(t.atts);
    var cond := t.atts[k..];
    LToTreeWeight(cond, t.line);
    AttsWeightAppend(t.atts[..k], cond);
    assert t.atts == t.atts[..k] + cond;
  }

  lemma LaterCondition(cond: seq<Att>, line: nat)
    requires cond != [] && IsIfWord(cond[0]) && exists j :: 1 <= j < |cond| && IsIfWord(cond[j])
    ensures
      var c := LToTree(cond, line);
      && c.head == cond[0].atom && IfPlace(c.atts) < |c.atts|
      && (exists i :: 0 <= i < |c.atts| && IsIfWord(c.atts[i])) && LastIfHead(c.atts) == LastIfHead(cond)
  {
    hide LastIf, Renumber;
    LToTreeHead(cond, line);
    LastIfRest(cond, 1);
    LastIfRenumbered(cond[1..], 0);
  }

  lemma SoleCondition(cond: seq<Att>, line: nat)
    requires cond != [] && IsIfWord(cond[0]) && forall j :: 1 <= j < |cond| ==> !IsIfWord(cond[j])
    ensures var c := LToTree(cond, line); c.head == cond[0].atom && IfPlace(c.atts) == |c.atts|
  {
    LToTreeHead(cond, line);
  }

  function LastIfHead(atts: seq<Att>): Atom
    requires exists i :: 0 <= i < |atts| && IsIfWord(atts[i])
  {
    if IsOp(LastIf(atts), "if") then Word("ife") else Word("unlesse")
  }

  /** `x unless a if b`: the branch is that of `b`, and `x` its third child, run when `b` is false. */
  lemma TwoConditions(line: nat)
    ensures
      var x, a, b := Word("x"), Word("a"), Word("b");
      var atts := [Att(Index(0), Word("unless")), Att(Index(1), a), Att(Index(2), Word("if")), Att(Index(3), b)];
      var unless_ := Tree(Word("unless"), [Att(Index(0), a)], line, []);
      PostIf(Tree(x, atts, line, []))
      == Rewritten(Tree(Word("ife"), [], line, [Tree(b, [], line, []), unless_, Tree(x, [], line, [])]), true)
  {
    hide RewriteTree, LToTree, Weight, AttsWeight;
    var a, b := Word("a"), Word("b");
    var atts := [Att(Index(0), Word("unless")), Att(Index(1), a), Att(Index(2), Word("if")), Att(Index(3), b)];
    TwoInner(line);
    assert IfPlace(atts) == 0 && atts[0..] == atts && atts[..0] == [];
    OuterIsInner(atts, line);
  }

  function Inner(line: nat): Tree {
    Tree(Word("unless"), [Att(Index(0), Word("a")), Att(Index(1), Word("if")), Att(Index(2), Word("b"))], line, [])
  }

  lemma OuterIsInner(atts: seq<Att>, line: nat)
    requires atts == [Att(Index(0), Word("unless")), Att(Index(1), Word("a")), Att(Index(2), Word("if")),
                      Att(Index(3), Word("b"))]
    ensures LToTree(atts, line) == Inner(line)
  {
    hide Renumber;
    ThreeRenumbered(atts[1..]);
  }

  lemma ThreeRenumbered(l: seq<Att>)
    requires |l| == 3 && l[0].key.Index? && l[1].key.Index? && l[2].key.Index?
    ensures Renumber(l, 0) == [Att(Index(0), l[0].atom), Att(Index(1), l[1].atom), Att(Index(2), l[2].atom)]
  {
  }

  /** `if b`. */
  lemma OneInner(line: nat)
    ensures
      RewriteTree(Tree(Word("if"), [Att(Index(0), Word("b"))], line, []))
      == Rewritten(Tree(Word("if"), [], line, [Tree(Word("b"), [], line, [])]), true)
  {
    var b := Att(Index(0), Word("b"));
    var c := Tree(Word("if"), [b], line, []);
    assert IfPlace([b]) == 1;
    assert SplitIf([b], Cond, IfParts([], [], [])) == IfParts([b], [], []);
    BranchRest(c);
  }

  lemma TwoInner(line: nat)
    ensures
      RewriteTree(Inner(line))
      == Rewritten(Tree(Word("ife"), [], line, [Tree(Word("b"), [], line, []),
        Tree(Word("unless"), [Att(Index(0), Word("a"))], line, [])]), true)
  {
    var t := Inner(line);
    OneInner(line);
    assert IfPlace(t.atts) == 1;
    var cond := t.atts[1..];
    assert LToTree(cond, line) == Tree(Word("if"), [Att(Index(0), Word("b"))], line, []);
    assert t.atts[..1] == [Att(Index(0), Word("a"))];
    BranchRest(PostIf(t).tree);
  }

  lemma {:induction false} LastIsFirst(atts: seq<Att>)
    requires atts != [] && IsIfWord(atts[0]) && forall i :: 1 <= i < |atts| ==> !IsIfWord(atts[i])
    ensures LastIf(atts) == atts[0]
  {
    if |atts| > 1 { LastIsFirst(atts[..|atts| - 1]); }
  }

  lemma {:induction false} PostIfWeight(t: Tree)
    requires PostIf(t).Rewritten?
    ensures Weight(PostIf(t).tree) <= Weight(t)
    decreases Weight(t), 0
  {
    var k := IfPlace(t.atts);
    if k < |t.atts| {
      var cond := t.atts[k..];
      var condTree := LToTree(cond, t.line);
      LToTreeWeight(cond, t.line);
      AttsWeightAppend(t.atts[..k], cond);
      assert t.atts == t.atts[..k] + cond;
      RewriteWeight(condTree);
      BranchShape(condTree);
      var r := RewriteTree(condTree).tree;
      var then_ := t.(atts := t.atts[..k]);
      PlainWeight(then_);
      TreesWeightAppend(r.children, [then_]);
      assert TreesWeight([then_]) == Weight(then_);
    }
  }

  /** The children of a tree weigh less than the tree. */
  lemma ChildrenWeight(t: Tree)
    ensures TreesWeight(t.children) < Weight(t)
  {
  }

  lemma {:induction false} RewriteWeight(t: Tree)
    requires RewriteTree(t).Rewritten?
    ensures Weight(RewriteTree(t).tree) <= Weight(t)
    decreases Weight(t), 1
  {
    AsValWeight(t);
    var a := AsVal(t);
    ElseIfWeight(a.tree);
    var b := ElseIf(a.tree);
    PostIfWeight(b.tree);
    var c := PostIf(b.tree);
    HeadIfWeight(c.tree);
    var d := HeadIf(c.tree);
    SetWeight(d.tree);
    PinfixesWeight(OPS, SetPass(d.tree).tree);
  }

  ghost function PartsWeight(parts: IfParts): nat {
    AttsWeight(parts.cond) + AttsWeight(parts.then_) + AttsWeight(parts.else_)
  }

  lemma {:induction false} SplitIfWeight(atts: seq<Att>, part: Part, parts: IfParts)
    ensures PartsWeight(SplitIf(atts, part, parts)) == PartsWeight(parts) + AttsWeight(atts)
    decreases |atts|
  {
    if atts != [] {
      var p := PartOf(atts[0], part);
      AttsWeightAppend(parts.cond, [atts[0]]);
      AttsWeightAppend(parts.then_, [atts[0]]);
      AttsWeightAppend(parts.else_, [atts[0]]);
      assert AttsWeight([atts[0]]) == AttWeight(atts[0]);
      SplitIfWeight(atts[1..], p, AddTo(parts, p, atts[0]));
    }
  }

  lemma IfTreesWeight(parts: IfParts, line: nat)
    requires IfTrees(parts, line).Some?
    ensures TreesWeight(IfTrees(parts, line).value) <= PartsWeight(parts)
  {
    if parts.cond != [] {
      var c := LToTree(parts.cond, line);
      LToTreeWeight(parts.cond, line);
      SingleWeights(parts.cond[0], c);
      if parts.then_ != [] {
        var t := LToTree(parts.then_[1..], line);
        LToTreeWeight(parts.then_[1..], line);
        SingleWeights(parts.cond[0], t);
        TreesWeightAppend([c], [t]);
        assert [c] + [t] == [c, t];
        if parts.else_ != [] {
          var e := LToTree(parts.else_[1..], line);
          LToTreeWeight(parts.else_[1..], line);
          SingleWeights(parts.cond[0], e);
          TreesWeightAppend([c, t], [e]);
          assert [c, t] + [e] == [c, t, e];
        }
      }
    }
  }

  lemma HeadIfWeight(t: Tree)
    requires HeadIf(t).Rewritten?
    ensures Weight(HeadIf(t).tree) <= Weight(t)
  {
    if IsIfHead(t.head) {
      var parts := SplitIf(t.atts, Cond, IfParts([], [], []));
      SplitIfWeight(t.atts, Cond, IfParts([], [], []));
      IfTreesWeight(parts, t.line);
      TreesWeightAppend(IfTrees(parts, t.line).value, t.children);
    }
  }

  lemma {:induction false} SetsWeight(atts: seq<Att>, line: nat)
    ensures TreesWeight(Sets(atts, line)) <= AttsWeight(atts)
  {
    if atts != [] {
      SetsWeight(atts[1..], line);
      if atts[0].key.Name? {
        var set_ := SetTree(atts[0], line);
        VToTreeWeight(atts[0].atom, line);
        SingleWeights(set_.atts[0], set_.children[0]);
        assert set_.atts == [set_.atts[0]] && set_.children == [set_.children[0]];
        assert Weight(set_) <= AttWeight(atts[0]);
        assert Sets(atts, line)[1..] == Sets(atts[1..], line);
      }
    }
  }

  lemma SetWeight(t: Tree)
    ensures Weight(SetPass(t).tree) <= Weight(t)
  {
    if SetPass(t).changed {
      SetsWeight(t.atts, t.line);
      var sets := Sets(t.atts, t.line);
      if |sets| == 1 {
        assert sets[1..] == [];
      }
    }
  }

  ghost function SegmentsWeight(segments: seq<seq<Att>>): nat {
    if segments == [] then 0 else AttsWeight(segments[0]) + SegmentsWeight(segments[1..])
  }

  lemma {:induction false} SegmentsWeigh(op: string, cur: seq<Att>, atts: seq<Att>)
    ensures SegmentsWeight(Segments(op, cur, atts)) <= AttsWeight(cur) + AttsWeight(atts)
    ensures Sees(op, atts) ==> SegmentsWeight(Segments(op, cur, atts)) + 4 <= AttsWeight(cur) + AttsWeight(atts)
    decreases |atts|
  {
    var segments := Segments(op, cur, atts);
    if atts == [] {
      assert segments[1..] == [];
    } else if IsOp(atts[0], op) {
      assert segments[1..] == Segments(op, [], atts[1..]);
      SegmentsWeigh(op, [], atts[1..]);
    } else {
      AttsWeightAppend(cur, [atts[0]]);
      assert AttsWeight([atts[0]]) == AttWeight(atts[0]);
      SegmentsWeigh(op, cur + [atts[0]], atts[1..]);
    }
  }

  lemma {:induction false} SegmentTreesWeight(segments: seq<seq<Att>>, line: nat)
    requires [] !in segments
    ensures TreesWeight(SegmentTrees(segments, line)) + 2 * |segments| <= SegmentsWeight(segments)
  {
    if segments != [] {
      LToTreeWeight(segments[0], line);
      SegmentTreesWeight(segments[1..], line);
      assert SegmentTrees(segments, line)[1..] == SegmentTrees(segments[1..], line);
    }
  }

  lemma {:induction false} AttTreesWeight(atts: seq<Att>, line: nat)
    ensures TreesWeight(AttTrees(atts, line)) <= AttsWeight(atts)
  {
    if atts != [] {
      VToTreeWeight(atts[0].atom, line);
      AttTreesWeight(atts[1..], line);
      assert AttTrees(atts, line)[1..] == AttTrees(atts[1..], line);
    }
  }

  lemma PinfixWeight(op: string, t: Tree)
    requires op in OPS
    requires Pinfix(op, t).Rewritten?
    ensures Weight(Pinfix(op, t).tree) <= Weight(t)
  {
    if Sees(op, t.atts) {
      var head := Att(Index(0), t.head);
      var segments := Segments(op, [head], t.atts);
      SegmentsWeigh(op, [head], t.atts);
      SegmentTreesWeight(segments, t.line);
      SingleWeights(head, t);
      assert AttWeight(head) <= HeadWeight(t.head) + 3;
      if LeafVal(t) {
        assert false;
      }
    } else {
      AttTreesWeight(t.atts, t.line);
    }
  }

  lemma {:induction false} PinfixesWeight(ops: seq<string>, t: Tree)
    requires forall op :: op in ops ==> op in OPS
    requires Pinfixes(ops, t).Rewritten?
    ensures Weight(Pinfixes(ops, t).tree) <= Weight(t)
  {
    if ops != [] {
      PinfixWeight(ops[0], t);
      PinfixesWeight(ops[1..], Pinfix(ops[0], t).tree);
    }
  }

  // --- a tree reported as unchanged is the same tree -------------------------------------------------

  lemma {:induction false} PinfixesUnchanged(ops: seq<string>, t: Tree)
    requires Pinfixes(ops, t).Rewritten? && !Pinfixes(ops, t).changed
    ensures Pinfixes(ops, t).tree == t
  {
    if ops != [] {
      PinfixesUnchanged(ops[1..], t);
    }
  }

  lemma Unchanged(t: Tree)
    requires RewriteTree(t).Rewritten? && !RewriteTree(t).changed
    ensures RewriteTree(t).tree == t
  {
    PinfixesUnchanged(OPS, t);
  }
}
