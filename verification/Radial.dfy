/** The layout of a radial text: each line is hung under the closest earlier line that is less indented, with a
    stack that is the rightmost spine of the tree so far. */
module Radial {
  import opened Values

  // --- parents, by indentation -----------------------------------------------------------------------

  /** The last of the first `k` lines that is indented by less than `ind`. */
  function Closest(inds: seq<nat>, ind: nat, k: nat): (p: Option<nat>)
    requires k <= |inds|
    ensures p.Some? ==> p.value < k && inds[p.value] < ind && forall j :: p.value < j < k ==> inds[j] >= ind
    ensures p.None? ==> forall j :: 0 <= j < k ==> inds[j] >= ind
  {
    if k == 0 then None else if inds[k - 1] < ind then Some(k - 1) else Closest(inds, ind, k - 1)
  }

  function Parent(inds: seq<nat>, k: nat): Option<nat>
    requires k < |inds|
  {
    Closest(inds, inds[k], k)
  }

  /** The first line is the only least indented one. */
  predicate Rooted(inds: seq<nat>) {
    inds != [] && forall k :: 0 < k < |inds| ==> inds[0] < inds[k]
  }

  /** A line and its ancestors. */
  function Spine(inds: seq<nat>, k: nat): (s: seq<nat>)
    requires k < |inds|
    ensures s != [] && s[0] == k
    ensures forall i :: 0 <= i < |s| ==> s[i] <= k
  {
    var p := Parent(inds, k);
    if p.None? then [k] else [k] + Spine(inds, p.value)
  }

  function Depth(inds: seq<nat>, k: nat): nat
    requires k < |inds|
  {
    var p := Parent(inds, k);
    if p.None? then 0 else 1 + Depth(inds, p.value)
  }

  /** How many ancestors a line has. */
  lemma {:induction false} DepthIs(inds: seq<nat>, k: nat)
    requires k < |inds|
    ensures Depth(inds, k) == |Spine(inds, k)| - 1
  {
    var p := Parent(inds, k);
    if p.Some? { DepthIs(inds, p.value); }
  }

  /** Among the first `n` lines, those whose parent is `k`, in order. */
  function Kids(inds: seq<nat>, k: nat, n: nat): (ks: seq<nat>)
    requires n <= |inds|
    ensures forall i :: 0 <= i < |ks| ==> k < ks[i] < n && Parent(inds, ks[i]) == Some(k)
  {
    if n == 0 then []
    else Kids(inds, k, n - 1) + if Parent(inds, n - 1) == Some(k) then [n - 1] else []
  }

  // --- the stack ---------------------------------------------------------------------------------------

  /** What is less indented than `ind` among the first lines is found by climbing. */
  lemma {:induction false} Climb(inds: seq<nat>, ind: nat, k: nat)
    requires k < |inds| && inds[k] >= ind
    ensures
      var p := Parent(inds, k);
      Closest(inds, ind, k + 1) == if p.None? then None else Closest(inds, ind, p.value + 1)
  {
    var p := Parent(inds, k);
    Skip(inds, ind, if p.None? then 0 else p.value + 1, k + 1);
  }

  lemma {:induction false} Skip(inds: seq<nat>, ind: nat, a: nat, b: nat)
    requires a <= b <= |inds| && forall j :: a <= j < b ==> inds[j] >= ind
    ensures Closest(inds, ind, b) == Closest(inds, ind, a)
  {
    if a < b {
      Skip(inds, ind, a, b - 1);
    }
  }

  /** The indentation shrinks along the spine, down to the first line. */
  lemma {:induction false} SpineShrinks(inds: seq<nat>, k: nat)
    requires k < |inds|
    ensures forall i, j :: 0 <= i < j < |Spine(inds, k)| ==> inds[Spine(inds, k)[i]] > inds[Spine(inds, k)[j]]
    ensures Rooted(inds) ==> Spine(inds, k)[|Spine(inds, k)| - 1] == 0
  {
    var p := Parent(inds, k);
    if p.Some? {
      SpineShrinks(inds, p.value);
      var s := Spine(inds, p.value);
      assert Spine(inds, k) == [k] + s;
      forall j | 0 <= j < |s| ensures inds[k] > inds[s[j]] {
        if j > 0 { assert inds[s[0]] > inds[s[j]]; }
      }
    }
  }

  /** A line of the layout, as it is built. */
  class Line {
    const ind: nat
    var children: seq<Line>

    constructor (ind: nat)
      ensures this.ind == ind && children == []
    {
      this.ind := ind;
      children := [];
    }
  }

  ghost function Pick(lines: seq<Line>, ks: seq<nat>): (r: seq<Line>)
    requires forall i :: 0 <= i < |ks| ==> ks[i] < |lines|
    ensures |r| == |ks| && forall i :: 0 <= i < |r| ==> r[i] == lines[ks[i]]
  {
    if ks == [] then [] else [lines[ks[0]]] + Pick(lines, ks[1..])
  }

  lemma PickMore(lines: seq<Line>, more: seq<Line>, ks: seq<nat>)
    requires forall i :: 0 <= i < |ks| ==> ks[i] < |lines|
    ensures Pick(lines + more, ks) == Pick(lines, ks)
  {
  }

  class Layout {
    var values: seq<Line>          // the stack, its top first
    ghost var lines: seq<Line>     // all the lines read

    ghost predicate Valid(inds: seq<nat>)
      reads this, lines
    {
      && |lines| <= |inds|
      && (forall i, j :: 0 <= i < j < |lines| ==> lines[i] != lines[j])
      && (forall k :: 0 <= k < |lines| ==> lines[k].ind == inds[k])
      && (forall k :: 0 <= k < |lines| ==> lines[k].children == Pick(lines, Kids(inds, k, |lines|)))
      && values == if lines == [] then [] else Pick(lines, Spine(inds, |lines| - 1))
    }

    constructor (ghost inds: seq<nat>)
      ensures lines == [] && Valid(inds)
    {
      values, lines := [], [];
    }

    /** fdja_add_radc. */
    method AddRadc(parent: Line, child: Line)
      modifies parent
      ensures parent.children == old(parent.children) + [child]
    {
      parent.children := parent.children + [child];
    }

    /** fdja_stack_radl; `top` is the place of the top of the stack among the lines. */
    method StackRadl(v: Line, ghost inds: seq<nat>, ghost top: nat)
      requires |lines| < |inds| && v !in lines && v.ind == inds[|lines|] && v.children == []
      requires forall i, j :: 0 <= i < j < |lines| ==> lines[i] != lines[j]
      requires forall k :: 0 <= k < |lines| ==> lines[k].ind == inds[k]
      requires Rooted(inds)
      requires lines == [] ==> values == []
      requires lines != [] ==> top < |lines| && values == Pick(lines, Spine(inds, top))
      requires lines != [] ==> Parent(inds, |lines|) == Closest(inds, v.ind, top + 1)
      modifies this`values, lines
      ensures
        var p := Parent(inds, |lines|);
        && (forall k :: 0 <= k < |lines| ==>
              lines[k].children == old(lines[k].children) + if p == Some(k) then [v] else [])
        && v.children == []
        && values == Pick(lines + [v], Spine(inds, |lines|))
      decreases |values|
    {
      hide Closest, Spine, Pick, Kids, Parent, Rooted;
      ghost var n := |lines|;
      if values == [] {
        if lines != [] { SpineNotEmpty(lines, inds, top); }
        RootSpine(v, inds);
        values := [v];
        assert lines + [v] == [v];
        return;
      }
      var current := values[0];
      SpineTail(lines, inds, top);
      ghost var p := Parent(inds, top);
      Meets(inds, top, n);
      if v.ind < current.ind {
        values := values[1..];
        StackRadl(v, inds, p.value);
      } else if v.ind == current.ind {
        values := values[1..];
        SpineTail(lines, inds, p.value);
        Hang(values[0], v, inds, p.value);
      } else {
        Hang(current, v, inds, top);
      }
    }

    /** fdja_parse_radl. */
    method ReadLine(ind: nat, ghost inds: seq<nat>)
      requires Rooted(inds) && Valid(inds) && |lines| < |inds| && ind == inds[|lines|]
      modifies this, lines
      ensures Valid(inds) && |lines| == |old(lines)| + 1 && lines[..|old(lines)|] == old(lines)
      ensures fresh(lines[|old(lines)|])
    {
      hide Closest, Spine, Pick, Kids, Rooted;
      ghost var n, was := |lines|, lines;
      var v := new Line(ind);
      if n > 0 { TopIsLast(inds, n); }
      StackRadl(v, inds, if n == 0 then 0 else n - 1);
      lines := was + [v];
      forall k | 0 <= k < n + 1 ensures lines[k].children == Pick(lines, Kids(inds, k, n + 1)) {
        if k < n {
          KidLine(was, v, inds, k);
        } else {
          KidsNone(inds, n, n + 1);
          assert Pick(lines, []) == [];
        }
      }
    }

    /** The bottom of the stack, when all the lines are read. */
    method Root(ghost inds: seq<nat>) returns (root: Line?)
      requires Valid(inds) && |lines| == |inds| && (inds == [] || Rooted(inds))
      ensures root == if inds == [] then null else lines[0]
    {
      hide Closest, Parent, Kids, Pick, Spine;
      if lines != [] {
        SpineNotEmpty(lines, inds, |lines| - 1);
        BottomIsFirst(lines, inds);
      }
      if values == [] { return null; }
      return values[|values| - 1];
    }

    /** Adds a line under the top of the stack, and on top of it. */
    method Hang(parent: Line, v: Line, ghost inds: seq<nat>, ghost p: nat)
      requires |lines| < |inds| && v !in lines && v.children == []
      requires forall i, j :: 0 <= i < j < |lines| ==> lines[i] != lines[j]
      requires p < |lines| && parent == lines[p] && values == Pick(lines, Spine(inds, p))
      requires Parent(inds, |lines|) == Some(p)
      modifies this`values, parent
      ensures forall k :: 0 <= k < |lines| ==> lines[k].children == old(lines[k].children) + if k == p then [v] else []
      ensures v.children == []
      ensures values == Pick(lines + [v], Spine(inds, |lines|))
    {
      hide Closest, Spine, Pick, Kids;
      PushSpine(lines, v, inds, p);
      AddRadc(parent, v);
      values := [v] + values;
    }
  }

  /** Every line but the first has a parent. */
  lemma HasParent(inds: seq<nat>, top: nat, n: nat)
    requires Rooted(inds) && top < n < |inds| && inds[n] <= inds[top]
    ensures Parent(inds, top).Some? && Parent(inds, top).value < top && inds[Parent(inds, top).value] < inds[top]
  {
    assert inds[0] < inds[n] && top != 0;
  }

  lemma AtParent(inds: seq<nat>, ind: nat, p: nat)
    requires p < |inds| && inds[p] < ind
    ensures Closest(inds, ind, p + 1) == Some(p)
  {
  }

  lemma BottomIsFirst(lines: seq<Line>, inds: seq<nat>)
    requires |lines| == |inds| && Rooted(inds)
    ensures var s := Pick(lines, Spine(inds, |inds| - 1)); s != [] && s[|s| - 1] == lines[0]
  {
    SpineShrinks(inds, |inds| - 1);
  }

  /** What the top of the stack tells of the parent of line `n`. */
  lemma Meets(inds: seq<nat>, top: nat, n: nat)
    requires Rooted(inds) && top < n < |inds| && Parent(inds, n) == Closest(inds, inds[n], top + 1)
    ensures inds[n] > inds[top] ==> Parent(inds, n) == Some(top)
    ensures
      var p := Parent(inds, top);
      && (inds[n] <= inds[top] ==> p.Some? && p.value < top && Parent(inds, n) == Closest(inds, inds[n], p.value + 1))
      && (inds[n] == inds[top] ==> Parent(inds, n) == p)
  {
    hide Closest, Rooted;
    if inds[n] <= inds[top] {
      HasParent(inds, top, n);
      Climb(inds, inds[n], top);
      if inds[n] == inds[top] {
        AtParent(inds, inds[n], Parent(inds, top).value);
      }
    } else {
      AtParent(inds, inds[n], top);
    }
  }

  lemma SpineNotEmpty(lines: seq<Line>, inds: seq<nat>, top: nat)
    requires |lines| <= |inds| && top < |lines|
    ensures Pick(lines, Spine(inds, top)) != []
  {
  }

  lemma RootSpine(v: Line, inds: seq<nat>)
    requires inds != []
    ensures Pick([v], Spine(inds, 0)) == [v] && Parent(inds, 0) == None
  {
  }

  lemma PushSpine(lines: seq<Line>, v: Line, inds: seq<nat>, p: nat)
    requires |lines| < |inds| && p < |lines| && Parent(inds, |lines|) == Some(p)
    ensures Pick(lines + [v], Spine(inds, |lines|)) == [v] + Pick(lines, Spine(inds, p))
  {
    PickMore(lines, [v], Spine(inds, p));
    assert Spine(inds, |lines|)[1..] == Spine(inds, p);
  }

  /** fdja_parse_radial, from the indentations on: the root of the tree. */
  method ReadLines(inds: seq<nat>) returns (layout: Layout, root: Line?)
    requires inds == [] || Rooted(inds)
    ensures layout.Valid(inds) && |layout.lines| == |inds|
    ensures root == if inds == [] then null else layout.lines[0]
  {
    hide Layout.Valid, Rooted;
    layout := new Layout(inds);
    var n := 0;
    while n < |inds|
      invariant n <= |inds| && |layout.lines| == n && layout.Valid(inds)
      invariant fresh(layout) && forall i :: 0 <= i < |layout.lines| ==> fresh(layout.lines[i])
    {
      ghost var was := layout.lines;
      layout.ReadLine(inds[n], inds);
      assert forall i :: 0 <= i < n ==> layout.lines[i] == was[i];
      n := n + 1;
    }
    root := layout.Root(inds);
  }

  lemma TopIsLast(inds: seq<nat>, n: nat)
    requires 0 < n < |inds|
    ensures Parent(inds, n) == Closest(inds, inds[n], n - 1 + 1)
  {
  }

  lemma SpineTail(lines: seq<Line>, inds: seq<nat>, top: nat)
    requires |lines| <= |inds| && top < |lines|
    ensures
      var p := Parent(inds, top);
      && Pick(lines, Spine(inds, top)) != [] && Pick(lines, Spine(inds, top))[0] == lines[top]
      && Pick(lines, Spine(inds, top))[1..] == if p.None? then [] else Pick(lines, Spine(inds, p.value))
  {
  }

  // --- reading all the lines ---------------------------------------------------------------------------

  lemma {:induction false} KidsMore(inds: seq<nat>, k: nat, n: nat)
    requires n < |inds|
    ensures Kids(inds, k, n + 1) == Kids(inds, k, n) + if Parent(inds, n) == Some(k) then [n] else []
  {
  }

  lemma {:induction false} KidsNone(inds: seq<nat>, k: nat, n: nat)
    requires n <= k + 1 && n <= |inds|
    ensures Kids(inds, k, n) == []
  {
    if n > 0 {
      KidsNone(inds, k, n - 1);
    }
  }

  lemma KidLine(lines: seq<Line>, v: Line, inds: seq<nat>, k: nat)
    requires |lines| < |inds| && k < |lines|
    ensures Pick(lines + [v], Kids(inds, k, |lines| + 1)) ==
      Pick(lines, Kids(inds, k, |lines|)) + if Parent(inds, |lines|) == Some(k) then [v] else []
  {
    KidsMore(inds, k, |lines|);
  }

  // --- the tree again, from its depths -------------------------------------------------------------------

  function Depths(inds: seq<nat>, n: nat): (ds: seq<nat>)
    requires n <= |inds|
    ensures |ds| == n && forall k :: 0 <= k < n ==> ds[k] == Depth(inds, k)
  {
    if n == 0 then [] else Depths(inds, n - 1) + [Depth(inds, n - 1)]
  }

  lemma {:induction false} ClosestIs(inds: seq<nat>, ind: nat, k: nat, p: nat)
    requires p < k <= |inds| && inds[p] < ind && forall j :: p < j < k ==> inds[j] >= ind
    ensures Closest(inds, ind, k) == Some(p)
  {
    if p + 1 < k {
      ClosestIs(inds, ind, k - 1, p);
    }
  }

  /** What is under `p` is deeper than `p`. */
  lemma {:induction false} Deeper(inds: seq<nat>, p: nat, j: nat)
    requires p < j < |inds| && forall i :: p < i <= j ==> inds[i] > inds[p]
    ensures Depth(inds, j) > Depth(inds, p)
    decreases j
  {
    var q := Parent(inds, j).value;
    if q > p {
      Deeper(inds, p, q);
    }
  }

  /** Lines indented by their depth have the same parents. */
  lemma DepthsAreALayout(inds: seq<nat>)
    requires Rooted(inds)
    ensures
      var ds := Depths(inds, |inds|);
      Rooted(ds) && forall k :: 0 <= k < |inds| ==> Parent(ds, k) == Parent(inds, k)
  {
    var ds := Depths(inds, |inds|);
    forall k | 0 < k < |inds| ensures ds[0] < ds[k] && Parent(ds, k) == Parent(inds, k) {
      Deeper(inds, 0, k);
      assert Parent(inds, k).Some?;
      var p := Parent(inds, k).value;
      forall j | p < j < k ensures ds[j] >= ds[k] {
        Deeper(inds, p, j);
      }
      ClosestIs(ds, ds[k], k, p);
    }
  }

  // --- the order of the lines ------------------------------------------------------------------------------

  function Range(a: nat, b: nat): (r: seq<nat>)
    requires a <= b
    ensures |r| == b - a && forall i :: 0 <= i < |r| ==> r[i] == a + i
  {
    if a == b then [] else Range(a, b - 1) + [b - 1]
  }

  lemma {:induction false} RangeJoin(a: nat, b: nat, c: nat)
    requires a <= b <= c
    ensures Range(a, b) + Range(b, c) == Range(a, c)
  {
  }

  /** A line, then its kids, each followed by all that is under it. */
  function Preorder(inds: seq<nat>, k: nat): (r: seq<nat>)
    requires k < |inds|
    ensures forall i :: 0 <= i < |r| ==> r[i] < |inds|
    decreases |inds| - k, 1, 0
  {
    [k] + Below(inds, k, |inds|)
  }

  /** What is under `k`, from its kids among the first `n` lines. */
  function Below(inds: seq<nat>, k: nat, n: nat): (r: seq<nat>)
    requires k < |inds| && n <= |inds|
    ensures forall i :: 0 <= i < |r| ==> r[i] < |inds|
    decreases |inds| - k, 0, n
  {
    if n == 0 then []
    else Below(inds, k, n - 1) + if Parent(inds, n - 1) == Some(k) then Preorder(inds, n - 1) else []
  }

  /** The first line after `k` that is not under `k`. */
  function End(inds: seq<nat>, k: nat, from: nat): (e: nat)
    requires k < from <= |inds|
    ensures from <= e <= |inds| && forall j :: from <= j < e ==> inds[j] > inds[k]
    ensures e < |inds| ==> inds[e] <= inds[k]
    decreases |inds| - from
  {
    if from == |inds| || inds[from] <= inds[k] then from else End(inds, k, from + 1)
  }

  /** The last kid of `k` among the first `n` lines. */
  function LastKid(inds: seq<nat>, k: nat, n: nat): (l: Option<nat>)
    requires n <= |inds|
    ensures l.Some? ==> k < l.value < n && Parent(inds, l.value) == Some(k)
    ensures forall j :: (if l.Some? then l.value + 1 else 0) <= j < n ==> Parent(inds, j) != Some(k)
  {
    if n == 0 then None else if Parent(inds, n - 1) == Some(k) then Some(n - 1) else LastKid(inds, k, n - 1)
  }

  /** How far the kids of `k` among the first `n` lines reach. */
  function Reach(inds: seq<nat>, k: nat, n: nat): (r: nat)
    requires k < |inds| && n <= |inds|
    ensures r > k
  {
    var l := LastKid(inds, k, n);
    if l.None? then k + 1 else End(inds, l.value, l.value + 1)
  }

  /** A line above `k`, with nothing between as little indented, has parent `k`. */
  lemma ParentIs(inds: seq<nat>, k: nat, m: nat)
    requires k < m < |inds| && inds[m] > inds[k] && forall j :: k < j < m ==> inds[j] >= inds[m]
    ensures Parent(inds, m) == Some(k)
  {
    ClosestIs(inds, inds[m], m, k);
  }

  /** A kid starts where the kids before it end. */
  lemma KidStarts(inds: seq<nat>, k: nat, m: nat)
    requires m < |inds| && Parent(inds, m) == Some(k)
    ensures Reach(inds, k, m) == m
  {
    hide Closest;
    var l := LastKid(inds, k, m);
    if l.None? {
      if k + 1 < m {
        ParentIs(inds, k, k + 1);
      }
    } else {
      var e := End(inds, l.value, l.value + 1);
      if e < m {
        ParentIs(inds, k, e);
      }
    }
  }

  /** The last kid ends where its parent ends. */
  lemma KidsEnd(inds: seq<nat>, k: nat)
    requires k < |inds|
    ensures Reach(inds, k, |inds|) == End(inds, k, k + 1)
  {
    hide Closest;
    var l := LastKid(inds, k, |inds|);
    var e := if l.None? then k + 1 else End(inds, l.value, l.value + 1);
    if e < |inds| && inds[e] > inds[k] {
      ParentIs(inds, k, e);
    }
    EndIs(inds, k, k + 1, e);
  }

  lemma {:induction false} EndIs(inds: seq<nat>, k: nat, from: nat, e: nat)
    requires k < from <= e <= |inds| && (forall j :: from <= j < e ==> inds[j] > inds[k])
    requires e < |inds| ==> inds[e] <= inds[k]
    ensures End(inds, k, from) == e
    decreases e - from
  {
    if from < e {
      EndIs(inds, k, from + 1, e);
    }
  }

  lemma {:induction false} PreorderIs(inds: seq<nat>, k: nat)
    requires k < |inds|
    ensures Preorder(inds, k) == Range(k, End(inds, k, k + 1))
    decreases |inds| - k, 1, 0
  {
    hide Below, End, Reach, Range;
    BelowIs(inds, k, |inds|);
    KidsEnd(inds, k);
    assert Range(k, k + 1) == [k];
    RangeJoin(k, k + 1, End(inds, k, k + 1));
  }

  lemma {:induction false} BelowIs(inds: seq<nat>, k: nat, n: nat)
    requires k < |inds| && n <= |inds|
    ensures Below(inds, k, n) == Range(k + 1, Reach(inds, k, n))
    decreases |inds| - k, 0, n
  {
    hide Closest, Parent, Preorder, End, Range;
    if n > 0 {
      BelowIs(inds, k, n - 1);
      if Parent(inds, n - 1) == Some(k) {
        KidStarts(inds, k, n - 1);
        PreorderIs(inds, n - 1);
        RangeJoin(k + 1, n - 1, End(inds, n - 1, n));
      } else {
        assert Below(inds, k, n - 1) + [] == Below(inds, k, n - 1);
      }
    } else {
      assert Range(k + 1, k + 1) == [];
    }
  }

  /** The preorder of the tree is the order of the lines. */
  lemma LinesInOrder(inds: seq<nat>)
    requires Rooted(inds)
    ensures Preorder(inds, 0) == Range(0, |inds|)
  {
    PreorderIs(inds, 0);
    EndIs(inds, 0, 1, |inds|);
  }

  // --- the walk through the lines as they were built -----------------------------------------------------

  ghost predicate Closed(lines: set<Line>)
    reads lines
  {
    forall l, c :: l in lines && c in l.children ==> c in lines
  }

  /** The line, then what its children lead to, no deeper than `fuel`. */
  ghost function Walk(lines: set<Line>, l: Line, fuel: nat): seq<Line>
    requires l in lines && Closed(lines)
    reads lines
    decreases fuel, 1, 0
  {
    if fuel == 0 then [] else [l] + WalkAll(lines, l.children, fuel)
  }

  ghost function WalkAll(lines: set<Line>, ls: seq<Line>, fuel: nat): seq<Line>
    requires fuel > 0 && Closed(lines) && forall l :: l in ls ==> l in lines
    reads lines
    decreases fuel, 0, |ls|
  {
    if ls == [] then [] else Walk(lines, ls[0], fuel - 1) + WalkAll(lines, ls[1..], fuel)
  }

  lemma {:induction false} WalkJoin(lines: set<Line>, a: seq<Line>, b: seq<Line>, fuel: nat)
    requires fuel > 0 && Closed(lines) && (forall l :: l in a ==> l in lines) && (forall l :: l in b ==> l in lines)
    ensures WalkAll(lines, a + b, fuel) == WalkAll(lines, a, fuel) + WalkAll(lines, b, fuel)
  {
    if a == [] {
      assert a + b == b;
    } else {
      assert (a + b)[1..] == a[1..] + b;
      WalkJoin(lines, a[1..], b, fuel);
    }
  }

  lemma PickJoin(lines: seq<Line>, a: seq<nat>, b: seq<nat>)
    requires (forall i :: 0 <= i < |a| ==> a[i] < |lines|) && (forall i :: 0 <= i < |b| ==> b[i] < |lines|)
    ensures Pick(lines, a + b) == Pick(lines, a) + Pick(lines, b)
  {
  }

  ghost function All(layout: Layout): set<Line>
    reads layout
  {
    set l | l in layout.lines
  }

  lemma AllClosed(layout: Layout, inds: seq<nat>)
    requires layout.Valid(inds)
    ensures Closed(All(layout))
  {
    forall l, c | l in All(layout) && c in l.children ensures c in All(layout) {
      var k :| 0 <= k < |layout.lines| && layout.lines[k] == l;
      assert l.children == Pick(layout.lines, Kids(inds, k, |layout.lines|));
      var i :| 0 <= i < |l.children| && l.children[i] == c;
    }
  }

  lemma {:induction false} WalkIs(layout: Layout, inds: seq<nat>, k: nat, fuel: nat)
    requires layout.Valid(inds) && |layout.lines| == |inds| && k < |inds| && fuel >= |inds| - k && Closed(All(layout))
    ensures Walk(All(layout), layout.lines[k], fuel) == Pick(layout.lines, Preorder(inds, k))
    decreases |inds| - k, 1, 0
  {
    hide Kids, Below;
    var n := |inds|;
    WalkBelow(layout, inds, k, n, fuel);
    PickJoin(layout.lines, [k], Below(inds, k, n));
    assert Pick(layout.lines, [k]) == [layout.lines[k]];
  }

  lemma {:induction false} WalkBelow(layout: Layout, inds: seq<nat>, k: nat, n: nat, fuel: nat)
    requires layout.Valid(inds) && |layout.lines| == |inds| && k < |inds| && fuel >= |inds| - k && Closed(All(layout))
    requires n <= |inds|
    ensures WalkAll(All(layout), Pick(layout.lines, Kids(inds, k, n)), fuel) == Pick(layout.lines, Below(inds, k, n))
    decreases |inds| - k, 0, n
  {
    hide Pick, Preorder, Parent, Closest, Spine, WalkAll, Walk, Closed, Kids, Below;
    var lines, all := layout.lines, All(layout);
    OneMoreLine(inds, k, n);
    if n == 0 {
      NoWalk(lines, all, fuel);
    } else {
      WalkBelow(layout, inds, k, n - 1, fuel);
      if Parent(inds, n - 1) == Some(k) {
        var kids := Kids(inds, k, n - 1);
        assert Kids(inds, k, n)[|kids|] == n - 1;
        WalkIs(layout, inds, n - 1, fuel - 1);
        WalkMore(layout, kids, n - 1, Below(inds, k, n - 1), Preorder(inds, n - 1), fuel);
      }
    }
  }

  lemma OneMoreLine(inds: seq<nat>, k: nat, n: nat)
    requires k < |inds| && n <= |inds|
    ensures n == 0 ==> Kids(inds, k, n) == [] && Below(inds, k, n) == []
    ensures n > 0 && Parent(inds, n - 1) == Some(k) ==>
      Kids(inds, k, n) == Kids(inds, k, n - 1) + [n - 1] && Below(inds, k, n) == Below(inds, k, n - 1) + Preorder(inds, n - 1)
    ensures n > 0 && Parent(inds, n - 1) != Some(k) ==>
      Kids(inds, k, n) == Kids(inds, k, n - 1) && Below(inds, k, n) == Below(inds, k, n - 1)
  {
    hide Preorder, Parent;
  }

  lemma NoWalk(lines: seq<Line>, all: set<Line>, fuel: nat)
    requires fuel > 0 && Closed(all)
    ensures Pick(lines, []) == [] && WalkAll(all, [], fuel) == []
  {
  }

  /** One more kid, and what it leads to. */
  lemma WalkMore(layout: Layout, kids: seq<nat>, m: nat, below: seq<nat>, pre: seq<nat>, fuel: nat)
    requires Closed(All(layout)) && fuel > 0 && m < |layout.lines|
    requires forall i :: 0 <= i < |kids| ==> kids[i] < |layout.lines|
    requires forall i :: 0 <= i < |below| ==> below[i] < |layout.lines|
    requires forall i :: 0 <= i < |pre| ==> pre[i] < |layout.lines|
    requires WalkAll(All(layout), Pick(layout.lines, kids), fuel) == Pick(layout.lines, below)
    requires Walk(All(layout), layout.lines[m], fuel - 1) == Pick(layout.lines, pre)
    ensures WalkAll(All(layout), Pick(layout.lines, kids + [m]), fuel) == Pick(layout.lines, below + pre)
  {
    hide WalkAll, Walk, Closed;
    var lines, all := layout.lines, All(layout);
    assert Pick(lines, [m]) == [lines[m]];
    PickJoin(lines, kids, [m]);
    PickJoin(lines, below, pre);
    WalkJoin(all, Pick(lines, kids), [lines[m]], fuel);
    WalkOne(all, lines[m], fuel);
  }

  lemma WalkOne(lines: set<Line>, l: Line, fuel: nat)
    requires fuel > 0 && l in lines && Closed(lines)
    ensures WalkAll(lines, [l], fuel) == Walk(lines, l, fuel - 1)
  {
    assert [l][1..] == [];
  }

  /** Walking the tree that was built, from the first line and through the children of each, meets all the lines in the
      order they were read. */
  lemma WalkInOrder(layout: Layout, inds: seq<nat>)
    requires Rooted(inds) && layout.Valid(inds) && |layout.lines| == |inds|
    ensures Closed(All(layout)) && Walk(All(layout), layout.lines[0], |inds|) == layout.lines
  {
    hide Preorder, Kids, Spine, Pick, Range, Walk, Closed;
    AllClosed(layout, inds);
    WalkIs(layout, inds, 0, |inds|);
    LinesInOrder(inds);
    PickRange(layout.lines);
  }

  lemma PickRange(lines: seq<Line>)
    ensures Pick(lines, Range(0, |lines|)) == lines
  {
  }
}
