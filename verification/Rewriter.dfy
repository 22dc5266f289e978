/** The rewriting as it is run: passes that replace a tree in place, each proved to be its function. */
module Rewriter {
  import opened Values
  import opened Trees
  import R = Rewriting

  /** The list of attributes from the second one on, under keys numbered again. */
  method NumberedAttributes(l: seq<Att>) returns (atts: seq<Att>)
    requires l != []
    ensures atts == R.Renumber(l[1..], 0)
  {
    atts := [];
    var index := 0;
    while index < |l| - 1
      invariant index <= |l| - 1 && |atts| == index
      invariant atts == R.Renumber(l[1..], 0)[..index]
    {
      var a := l[index + 1];
      var next := if a.key.Index? then Att(Index(index), a.atom) else a;
      assert next == R.Renumber(l[1..], 0)[index];
      atts := atts + [next];
      index := index + 1;
    }
  }

  method ListToTree(l: seq<Att>, line: nat) returns (t: Tree)
    requires l != []
    ensures t == R.LToTree(l, line)
  {
    if |l| == 1 { return R.VToTree(l[0].atom, line); }
    var atts := NumberedAttributes(l);
    return Tree(l[0].atom, atts, line, []);
  }

  /** A tree being rewritten. */
  class Draft {
    var tree: Tree

    constructor (t: Tree)
      ensures tree == t
    {
      tree := t;
    }

    method AsVal() returns (changed: bool)
      modifies this
      ensures R.Rewritten(tree, changed) == R.AsVal(old(tree))
    {
      if !Stringy(tree.head) || R.IsInstruction(tree.head.v.s) { return false; }
      if tree.atts != [] || tree.children != [] { return false; }
      tree := tree.(head := Word("val"), atts := [Att(Index(0), tree.head)]);
      return true;
    }

    method ElseIf() returns (changed: bool)
      modifies this
      ensures R.Rewritten(tree, changed) == R.ElseIf(old(tree))
    {
      if tree.head != Word("else") || tree.atts == [] { return false; }
      if !exists a :: a in tree.atts && a.key == Index(0) && R.IsOp(a, "if") { return false; }
      tree := tree.(head := Word("elsif"), atts := tree.atts[1..]);
      return true;
    }

    /** False in `ok` stands for the crash. */
    method PostIf() returns (ok: bool, changed: bool)
      modifies this
      ensures if ok then R.Rewritten(tree, changed) == R.PostIf(old(tree)) else R.PostIf(old(tree)).Crash?
      decreases Weight(tree), 0
    {
      var k := 0;
      while k < |tree.atts| && !R.IsIfWord(tree.atts[k])
        invariant k <= |tree.atts| && tree == old(tree)
        invariant forall i :: 0 <= i < k ==> !R.IsIfWord(tree.atts[i])
      {
        k := k + 1;
      }
      assert k == R.IfPlace(tree.atts);
      if k == |tree.atts| { return true, false; }
      var cond := tree.atts[k..];
      R.LToTreeWeight(cond, tree.line);
      AttsWeightAppend(tree.atts[..k], cond);
      assert tree.atts == tree.atts[..k] + cond;
      var condTree := ListToTree(cond, tree.line);
      var draft := new Draft(condTree);
      var fine, _ := draft.RewriteTree();
      if !fine { return false, false; }
      var then_ := tree.(atts := tree.atts[..k]);
      tree := draft.tree.(head := R.PostHead(draft.tree.head), children := draft.tree.children + [then_]);
      return true, true;
    }

    method HeadIf() returns (ok: bool, changed: bool)
      modifies this
      ensures if ok then R.Rewritten(tree, changed) == R.HeadIf(old(tree)) else R.HeadIf(old(tree)).Crash?
    {
      if !R.IsIfHead(tree.head) { return true, false; }
      var parts, part := R.IfParts([], [], []), R.Cond;
      var i := 0;
      while i < |tree.atts|
        invariant i <= |tree.atts| && tree == old(tree)
        invariant R.SplitIf(tree.atts, R.Cond, R.IfParts([], [], [])) == R.SplitIf(tree.atts[i..], part, parts)
      {
        assert tree.atts[i..][1..] == tree.atts[i + 1..];
        if R.IsOp(tree.atts[i], "then") { part := R.Then; }
        else if R.IsOp(tree.atts[i], "else") { part := R.Else; }
        parts := R.AddTo(parts, part, tree.atts[i]);
        i := i + 1;
      }
      var children := tree.children;
      if parts.cond != [] {
        if parts.then_ != [] {
          if |parts.then_| == 1 || |parts.else_| == 1 { return false, false; }
          if parts.else_ != [] {
            var elseTree := ListToTree(parts.else_[1..], tree.line);
            children := [elseTree] + children;
          }
          var thenTree := ListToTree(parts.then_[1..], tree.line);
          children := [thenTree] + children;
        }
        var condTree := ListToTree(parts.cond, tree.line);
        children := [condTree] + children;
      }
      assert children == R.IfTrees(parts, tree.line).value + tree.children;
      tree := Tree(if parts.then_ == [] then tree.head else R.ThenHead(tree.head), [], tree.line, children);
      return true, true;
    }

    method SetPass() returns (changed: bool)
      modifies this
      ensures R.Rewritten(tree, changed) == R.SetPass(old(tree))
    {
      if tree.head != Word("set") || tree.atts == [] || tree.children != [] { return false; }
      var sets: seq<Tree> := [];
      var i := 0;
      while i < |tree.atts|
        invariant i <= |tree.atts| && tree == old(tree)
        invariant R.Sets(tree.atts, tree.line) == sets + R.Sets(tree.atts[i..], tree.line)
      {
        var a := tree.atts[i];
        assert tree.atts[i..][1..] == tree.atts[i + 1..];
        if a.key.Name? {
          var value := R.VToTree(a.atom, tree.line);
          sets := sets + [Tree(Word("set"), [Att(Index(0), Word(a.key.s))], tree.line, [value])];
        }
        i := i + 1;
      }
      assert sets + [] == sets;
      tree := if |sets| == 1 then sets[0] else Tree(Word("sequence"), [], tree.line, sets);
      return true;
    }

    /** Only called when the operator is seen. */
    method Infix(op: string) returns (ok: bool)
      modifies this
      ensures if ok then R.Rewritten(tree, true) == R.Infix(op, old(tree)) else R.Infix(op, old(tree)).Crash?
    {
      ghost var all := R.Segments(op, [Att(Index(0), tree.head)], tree.atts);
      var children: seq<Tree> := [];
      var l := [Att(Index(0), tree.head)];
      var i := 0;
      while true
        invariant i <= |tree.atts| && tree == old(tree)
        invariant |children| <= |all| && all[|children|..] == R.Segments(op, l, tree.atts[i..])
        invariant forall k :: 0 <= k < |children| ==> all[k] != [] && children[k] == R.LToTree(all[k], tree.line)
        decreases |tree.atts| - i
      {
        if i < |tree.atts| {
          assert tree.atts[i..][1..] == tree.atts[i + 1..];
        }
        if i < |tree.atts| && !R.IsOp(tree.atts[i], op) {
          l := l + [tree.atts[i]];
          i := i + 1;
          continue;
        }
        assert all[|children|] == all[|children|..][0] == l;
        if l == [] { return false; }
        var child := ListToTree(l, tree.line);
        ghost var before := children;
        children := children + [child];
        assert all[|before|..][1..] == all[|children|..];
        l := [];
        if i == |tree.atts| { break; }
        i := i + 1;
      }
      assert [] !in all;
      assert children == R.SegmentTrees(all, tree.line);
      tree := Tree(Word(op), [], tree.line, children);
      return true;
    }

    method Prefix(op: string) returns (changed: bool)
      modifies this
      ensures R.Rewritten(tree, changed) == R.Prefix(op, old(tree))
    {
      hide R.VToTree, R.AttTrees;
      if tree.head != Word(op) || tree.children != [] { return false; }
      var children: seq<Tree> := [];
      var i := 0;
      while i < |tree.atts|
        invariant i == |children| <= |tree.atts| && tree == old(tree)
        invariant children == R.AttTrees(tree.atts, tree.line)[..i]
      {
        var child := ListToTree([tree.atts[i]], tree.line);
        assert child == R.AttTrees(tree.atts, tree.line)[i];
        children := children + [child];
        i := i + 1;
      }
      tree := Tree(Word(op), [], tree.line, children);
      return true;
    }

    method Pinfix(op: string) returns (ok: bool, changed: bool)
      modifies this
      ensures if ok then R.Rewritten(tree, changed) == R.Pinfix(op, old(tree)) else R.Pinfix(op, old(tree)).Crash?
    {
      var seen, i := false, 0;
      while i < |tree.atts| && !seen
        invariant i <= |tree.atts| && tree == old(tree)
        invariant seen <==> exists k :: 0 <= k < i && R.IsOp(tree.atts[k], op)
      {
        seen := R.IsOp(tree.atts[i], op);
        i := i + 1;
      }
      if seen {
        ok := Infix(op);
        changed := ok;
      } else {
        changed := Prefix(op);
        ok := true;
      }
    }

    /** The passes in order, then the operators in precedence order. */
    method RewriteTree() returns (ok: bool, changed: bool)
      modifies this
      ensures if ok then R.Rewritten(tree, changed) == R.RewriteTree(old(tree)) else R.RewriteTree(old(tree)).Crash?
      decreases Weight(tree), 1
    {
      hide R.Pinfix, R.PostIf, R.HeadIf, R.SetPass, R.AsVal, R.ElseIf;
      R.AsValWeight(tree);
      changed := AsVal();
      R.ElseIfWeight(tree);
      var c := ElseIf();
      changed := changed || c;
      ok, c := PostIf();
      if !ok { return false, false; }
      changed := changed || c;
      ok, c := HeadIf();
      if !ok { return false, false; }
      changed := changed || c;
      c := SetPass();
      changed := changed || c;
      ghost var before, was := tree, changed;
      var k := 0;
      while k < |R.OPS|
        invariant k <= |R.OPS|
        invariant was ==> changed
        invariant
          var all, rest := R.Pinfixes(R.OPS, before), R.Pinfixes(R.OPS[k..], tree);
          if rest.Crash? then all.Crash?
          else all.Rewritten? && all.tree == rest.tree && (was || all.changed) == (changed || rest.changed)
      {
        assert R.OPS[k..][1..] == R.OPS[k + 1..];
        ok, c := Pinfix(R.OPS[k]);
        if !ok { return false, false; }
        changed := changed || c;
        k := k + 1;
      }
      ok := true;
    }
  }
}
