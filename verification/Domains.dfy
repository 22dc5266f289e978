/** Domain patterns (flon_dom_matches): a domain and a pattern are lists of labels, as cut at the dots; in a pattern
    `*` stands for one label and `**` for any number of them. */
module Domains {
  type Label = string

  /** What a pattern promises. */
  ghost predicate Matches(d: seq<Label>, p: seq<Label>)
    decreases |p|
  {
    if p == [] then d == []
    else if p[0] == "**" then exists k :: 0 <= k <= |d| && Matches(d[k..], p[1..])
    else d != [] && (p[0] == "*" || p[0] == d[0]) && Matches(d[1..], p[1..])
  }

  /** The label `**` stops at: the first one equal to what follows it in the pattern, or else the last one. */
  function Skip(d: seq<Label>, stop: Label): (e: seq<Label>)
    requires d != []
    ensures e != []
  {
    if |d| == 1 || d[0] == stop then d else Skip(d[1..], stop)
  }

  /** What the two cursors of the source compute, `**` never going back on where it stopped. */
  predicate Greedy(d: seq<Label>, p: seq<Label>)
    decreases |p|
  {
    if p == [] then d == []
    else if d == [] then p == ["**"]
    else if p[0] == "**" then |p| == 1 || Greedy(Skip(d, p[1]), p[1..])
    else (p[0] == "*" || p[0] == d[0]) && Greedy(d[1..], p[1..])
  }

  /** The loop of flon_dom_matches; both lists hold at least one label, as splitting a text gives. */
  method DomMatches(d: seq<Label>, p: seq<Label>) returns (r: bool)
    requires d != [] && p != []
    ensures r == Greedy(d, p)
    ensures r ==> Matches(d, p)
  {
    var k, i := 0, 0;
    r := false;
    while i < |p|
      invariant 0 <= k <= |d| && 0 <= i <= |p|
      invariant i < |p| ==> !r && Greedy(d, p) == Greedy(d[k..], p[i..])
      invariant i == |p| ==> r == Greedy(d, p)
    {
      if k == |d| {
        if p[i] == "**" && i + 1 == |p| { r := true; }
        break;
      }
      if p[i] == "*" {
        k := k + 1;
      } else if p[i] == "**" {
        if i + 1 == |p| { r := true; break; }
        var stop := p[i + 1];
        while k + 1 < |d| && d[k] != stop
          invariant k < |d|
          invariant Greedy(d, p) == Greedy(Skip(d[k..], stop), p[i..][1..])
        {
          assert d[k..][1..] == d[k + 1..];
          k := k + 1;
        }
      } else if d[k] != p[i] {
        break;
      } else {
        k := k + 1;
      }
      if i + 1 == |p| && k == |d| { r := true; }
      i := i + 1;
    }
    if r { Sound(d, p); }
  }

  // --- soundness -------------------------------------------------------------------------------------

  lemma SkipsTo(d: seq<Label>, stop: Label) returns (k: nat)
    requires d != []
    ensures k < |d| && Skip(d, stop) == d[k..]
    ensures forall j :: 0 <= j < k ==> d[j] != stop
    ensures d[k] == stop || k + 1 == |d|
  {
    if |d| == 1 || d[0] == stop {
      k := 0;
    } else {
      var m := SkipsTo(d[1..], stop);
      k := m + 1;
      assert d[1..][m..] == d[k..];
      assert forall j :: 1 <= j < k ==> d[j] == d[1..][j - 1];
    }
  }

  /** A positive answer is always right. */
  lemma {:induction false} Sound(d: seq<Label>, p: seq<Label>)
    requires Greedy(d, p)
    ensures Matches(d, p)
    decreases |p|
  {
    if p != [] {
      if p[0] == "**" {
        if |p| == 1 {
          assert d[|d|..] == [] && Matches(d[|d|..], p[1..]);
        } else {
          var k := SkipsTo(d, p[1]);
          Sound(d[k..], p[1..]);
        }
      } else {
        Sound(d[1..], p[1..]);
      }
    }
  }

  // --- exactness -------------------------------------------------------------------------------------

  /** Single labels up to a `**`: such a pattern still matches a domain given more labels in front. */
  predicate Upward(p: seq<Label>) {
    p != [] && (p[0] == "**" || (p[0] == "*" && Upward(p[1..])))
  }

  /** The pattern without the `**` it starts with. */
  function Strip(p: seq<Label>): (q: seq<Label>)
    ensures q != [] ==> q[0] != "**"
  {
    if p != [] && p[0] == "**" then Strip(p[1..]) else p
  }

  /** What may follow a run of several `**`: one label, or `*` and `**`. */
  predicate Ends(q: seq<Label>) { |q| == 1 || q == ["*", "**"] }

  /** The patterns whose answer is right for every rest of a domain. */
  predicate Exact(p: seq<Label>)
    decreases |p|
  {
    if p == [] || p == ["**"] then true
    else if p[0] != "**" then Exact(p[1..])
    else if p[1] == "**" then Ends(Strip(p))
    else if p[1] == "*" then p[2..] == [] || p[2..] == ["**"]
    else Upward(p[2..]) && Exact(p[2..])
  }

  predicate Plain(d: seq<Label>) { forall k :: 0 <= k < |d| ==> d[k] != "*" && d[k] != "**" }

  lemma {:induction false} UpwardClosed(e: seq<Label>, d: seq<Label>, p: seq<Label>)
    requires Upward(p) && Matches(d, p)
    ensures Matches(e + d, p)
    decreases |p|, |e|
  {
    if e == [] {
      assert e + d == d;
    } else if p[0] == "**" {
      var k :| 0 <= k <= |d| && Matches(d[k..], p[1..]);
      assert (e + d)[|e| + k..] == d[k..];
    } else {
      assert (e + d)[1..] == (e[1..] + [d[0]]) + d[1..];
      UpwardClosed(e[1..] + [d[0]], d[1..], p[1..]);
    }
  }

  lemma AnySuffix(d: seq<Label>, k: nat, p: seq<Label>)
    requires p != [] && p[0] == "**" && k <= |d| && Matches(d[k..], p[1..])
    ensures Matches(d, p)
  {
  }

  lemma TwoAnys(d: seq<Label>, p: seq<Label>)
    requires |p| > 1 && p[0] == p[1] == "**"
    ensures Matches(d, p) == Matches(d, p[1..])
  {
    hide Matches;
    AnyAt(d, p);
    if Matches(d, p) {
      var k :| 0 <= k <= |d| && Matches(d[k..], p[1..]);
      AnyAt(d[k..], p[1..]);
      var m :| 0 <= m <= |d[k..]| && Matches(d[k..][m..], p[1..][1..]);
      assert d[k..][m..] == d[k + m..];
      AnySuffix(d, k + m, p[1..]);
    }
    if Matches(d, p[1..]) {
      assert d[0..] == d;
      AnySuffix(d, 0, p);
    }
  }

  lemma AnyAt(d: seq<Label>, p: seq<Label>)
    requires p != [] && p[0] == "**"
    ensures Matches(d, p) == exists k :: 0 <= k <= |d| && Matches(d[k..], p[1..])
  {
  }

  /** A run of `**` matches as one does. */
  lemma {:induction false} StripMatches(d: seq<Label>, p: seq<Label>)
    requires p != [] && p[0] == "**"
    ensures Matches(d, p) == Matches(d, ["**"] + Strip(p))
  {
    hide Matches;
    if |p| > 1 && p[1] == "**" {
      TwoAnys(d, p);
      StripMatches(d, p[1..]);
    } else {
      assert ["**"] + p[1..] == p;
      assert Strip(p) == p[1..];
    }
  }

  lemma {:induction false} StripGreedy(l: Label, p: seq<Label>)
    requires p != [] && p[0] == "**" && Strip(p) != []
    ensures Greedy([l], p) == Greedy([l], Strip(p))
  {
    if p[1] == "**" { StripGreedy(l, p[1..]); }
  }

  lemma SkipsToLast(d: seq<Label>, stop: Label)
    requires d != [] && stop !in d
    ensures Skip(d, stop) == [d[|d| - 1]]
  {
    var k := SkipsTo(d, stop);
    assert d[k] in d;
  }

  /** After several `**` only the last label of the domain is looked at. */
  lemma RunOfAnys(d: seq<Label>, p: seq<Label>)
    requires d != [] && Plain(d) && |p| > 1 && p[0] == p[1] == "**" && Strip(p) != []
    ensures Greedy(d, p) == Greedy([d[|d| - 1]], Strip(p))
  {
    SkipsToLast(d, "**");
    StripGreedy(d[|d| - 1], p[1..]);
  }

  lemma OneLabel(d: seq<Label>, q: seq<Label>)
    requires d != [] && q != [] && q[0] != "**"
    ensures Greedy([d[|d| - 1]], q) == ((q[0] == "*" || q[0] == d[|d| - 1]) && Greedy([], q[1..]))
  {
    assert [d[|d| - 1]][1..] == [];
  }

  /** `**` and then the labels of `q`, on a domain that ends in `l`. */
  lemma EndsExact(d: seq<Label>, q: seq<Label>)
    requires d != [] && Ends(q) && q[0] != "**"
    ensures Matches(d, ["**"] + q) == Greedy([d[|d| - 1]], q)
  {
    OneLabel(d, q);
    var p, n := ["**"] + q, |d| - 1;
    assert p[1..] == q;
    if Matches(d, p) {
      var k :| 0 <= k <= |d| && Matches(d[k..], q);
      if |q| == 1 {
        assert Matches(d[k..][1..], q[1..]);
        assert k == n && d[k..][0] == d[n];
      }
    }
    if Greedy([d[n]], q) {
      Sound([d[n]], q);
      assert d[n..] == [d[n]];
      AnySuffix(d, n, p);
    }
  }

  /** A literal label after `**`: the first one will do when what follows may start anywhere. */
  lemma FirstStop(d: seq<Label>, p: seq<Label>) returns (k: nat)
    requires d != [] && |p| > 1 && p[0] == "**" && p[1] != "**" && p[1] != "*" && Upward(p[2..])
    ensures k < |d| && Skip(d, p[1]) == d[k..]
    ensures Matches(d, p) == (d[k] == p[1] && Matches(d[k + 1..], p[2..]))
  {
    k := SkipsTo(d, p[1]);
    assert p[1..][1..] == p[2..];
    assert d[k..][1..] == d[k + 1..];
    if d[k] == p[1] && Matches(d[k + 1..], p[2..]) {
      assert Matches(d[k..], p[1..]);
      AnySuffix(d, k, p);
    }
    if Matches(d, p) {
      var m :| 0 <= m <= |d| && Matches(d[m..], p[1..]);
      assert d[m..][0] == p[1] && d[m..][1..] == d[m + 1..];
      assert k <= m && d[k] == p[1];
      UpwardClosed(d[k + 1..m + 1], d[m + 1..], p[2..]);
      assert d[k + 1..m + 1] + d[m + 1..] == d[k + 1..];
    }
  }

  lemma {:induction false} NoLabels(p: seq<Label>)
    ensures Matches([], p) == (Strip(p) == [])
  {
    if p != [] && p[0] == "**" {
      NoLabels(p[1..]);
      var none: seq<Label> := [];
      assert none[0..] == none;
      if Matches([], p[1..]) { AnySuffix([], 0, p); }
      if Matches([], p) {
        var k :| 0 <= k <= |none| && Matches(none[k..], p[1..]);
        assert none[k..] == none;
      }
    }
  }

  /** On these patterns the answer is right both ways. */
  lemma {:induction false} ExactIsRight(d: seq<Label>, p: seq<Label>)
    requires Plain(d) && Exact(p)
    ensures Greedy(d, p) == Matches(d, p)
    decreases |p|
  {
    if Greedy(d, p) { Sound(d, p); }
    NoLabels(p);
    if p == [] || p == ["**"] {
    } else if d == [] {
    } else if p[0] != "**" {
      ExactIsRight(d[1..], p[1..]);
    } else if p[1] == "**" {
      RunOfAnys(d, p);
      StripMatches(d, p);
      EndsExact(d, Strip(p));
    } else if p[1] == "*" {
      SkipsToLast(d, "*");
      OneLabel(d, p[1..]);
      assert p[1..][1..] == p[2..];
    } else {
      var k := FirstStop(d, p);
      ExactIsRight(d[k + 1..], p[2..]);
      assert d[k..][1..] == d[k + 1..] && p[1..][1..] == p[2..];
    }
  }

  // --- and on no others ------------------------------------------------------------------------------

  function Rep(l: Label, n: nat): (d: seq<Label>)
    ensures |d| == n && (forall k :: 0 <= k < n ==> d[k] == l)
  {
    seq(n, _ => l)
  }

  function Longest(p: seq<Label>): (n: nat)
    ensures n >= 2 && (forall l :: l in p ==> |l| <= n)
  {
    if p == [] then 2 else
    var n := Longest(p[1..]);
    assert forall l :: l in p ==> l == p[0] || l in p[1..];
    if |p[0]| > n then |p[0]| else n
  }

  /** A label the pattern does not hold, and not a wildcard. */
  function Other(p: seq<Label>): (l: Label)
    ensures l !in p && l != "*" && l != "**"
  {
    seq(Longest(p) + 1, _ => 'a')
  }

  /** A domain the pattern matches. */
  function Sample(p: seq<Label>, f: Label): (d: seq<Label>)
    requires f != "*" && f != "**"
    ensures Plain(d)
  {
    if p == [] then [] else
    (if p[0] == "**" then [] else if p[0] == "*" then [f] else [p[0]]) + Sample(p[1..], f)
  }

  lemma {:induction false} SampleMatches(p: seq<Label>, f: Label)
    requires f != "*" && f != "**"
    ensures Matches(Sample(p, f), p)
  {
    if p != [] {
      var d := Sample(p, f);
      SampleMatches(p[1..], f);
      if p[0] == "**" {
        assert d[0..] == Sample(p[1..], f);
        AnySuffix(d, 0, p);
      } else {
        assert d[1..] == Sample(p[1..], f);
      }
    }
  }

  /** A pattern that cannot start anywhere is not met by enough labels of no use. */
  lemma {:induction false} Rejects(q: seq<Label>, f: Label, d: seq<Label>)
    requires !Upward(q) && f !in q && |d| > |q| && (forall k :: 0 <= k <= |q| ==> d[k] == f)
    ensures !Greedy(d, q)
  {
    if q != [] && q[0] == "*" { Rejects(q[1..], f, d[1..]); }
  }

  /** For any other pattern there is a domain it matches and the source refuses. */
  lemma {:induction false} Missed(p: seq<Label>) returns (d: seq<Label>)
    requires !Exact(p)
    ensures Plain(d) && Matches(d, p) && !Greedy(d, p)
    ensures Strip(p) != [] ==> d != []
    decreases |p|
  {
    var f := Other(p);
    if p[0] != "**" {
      var e := Missed(p[1..]);
      var l := if p[0] == "*" then f else p[0];
      d := [l] + e;
      assert d[1..] == e;
    } else if Strip(p) == [] {
      d := [];
      NoLabels(p);
    } else if p[1] == "**" {
      d := MissedRun(p, f);
    } else if p[1] == "*" {
      d := MissedOne(p, f);
    } else if Upward(p[2..]) {
      var e := Missed(p[2..]);
      d := [p[1]] + e;
      var k := FirstStop(d, p);
      assert d[1..] == e && p[1..][1..] == p[2..];
    } else {
      d := MissedStop(p, f);
    }
  }

  lemma MissedOne(p: seq<Label>, f: Label) returns (d: seq<Label>)
    requires |p| > 1 && p[0] == "**" && p[1] == "*" && p[2..] != [] && p[2..] != ["**"]
    requires f !in p && f != "*" && f != "**"
    ensures d != [] && Plain(d) && Matches(d, p) && !Greedy(d, p)
  {
    var e := Sample(p[2..], f);
    d := [f] + e;
    SampleMatches(p[2..], f);
    assert d[1..] == e && p[1..][1..] == p[2..];
    assert d[0..] == d;
    AnySuffix(d, 0, p);
    SkipsToLast(d, "*");
    OneLabel(d, p[1..]);
  }

  lemma MissedRun(p: seq<Label>, f: Label) returns (d: seq<Label>)
    requires |p| > 1 && p[0] == p[1] == "**" && Strip(p) != [] && !Ends(Strip(p))
    requires f !in p && f != "*" && f != "**"
    ensures d != [] && Plain(d) && Matches(d, p) && !Greedy(d, p)
  {
    var q := Strip(p);
    StripIn(p, f);
    if q[1..] == ["**"] {
      d := [q[0], f];
      assert d[0..] == d && d[1..] == [f] && [f][1..] == [];
      assert Matches([], []) && Matches([f][1..], ["**"][1..]);
      assert Matches([f], ["**"]);
      assert Matches(d, q);
    } else {
      d := Sample(q, f);
      SampleMatches(q, f);
    }
    assert d[0..] == d && (["**"] + q)[1..] == q;
    AnySuffix(d, 0, ["**"] + q);
    StripMatches(d, p);
    RunOfAnys(d, p);
    OneLabel(d, q);
  }

  lemma {:induction false} StripIn(p: seq<Label>, f: Label)
    requires f !in p
    ensures f !in Strip(p)
  {
    if p != [] && p[0] == "**" { StripIn(p[1..], f); }
  }

  lemma LabelStep(d: seq<Label>, p: seq<Label>)
    requires p != [] && d != [] && p[0] == d[0] && p[0] != "**" && Matches(d[1..], p[1..])
    ensures Matches(d, p)
  {
  }

  lemma MissedStop(p: seq<Label>, f: Label) returns (d: seq<Label>)
    requires |p| > 1 && p[0] == "**" && p[1] != "**" && p[1] != "*" && !Upward(p[2..])
    requires f !in p && f != "*" && f != "**"
    ensures d != [] && Plain(d) && Matches(d, p) && !Greedy(d, p)
  {
    hide Matches, Sample, Upward;
    var q := p[2..];
    var e := [p[1]] + Sample(q, f);
    var junk := Rep(f, |q| + 1);
    d := [p[1]] + junk + e;
    assert e[1..] == Sample(q, f) && p[1..][1..] == q;
    assert Matches(e, p[1..]) by {
      SampleMatches(q, f);
      LabelStep(e, p[1..]);
    }
    assert d[|q| + 2..] == e;
    AnySuffix(d, |q| + 2, p);
    assert d[1..] == junk + e;
    Rejects(q, f, d[1..]);
    assert Skip(d, p[1]) == d;
  }

  /** The answer is right for every domain exactly when each `**` but the last label of the pattern is followed by a
      literal label and then only `*` up to another `**`, or the pattern ends in one of a few short ways. */
  lemma ExactPatterns(p: seq<Label>)
    requires p != []
    ensures
      (forall d :: d != [] && Plain(d) ==> Greedy(d, p) == Matches(d, p))
      <==> (Exact(p) || Strip(p) == [])
  {
    if Exact(p) {
      forall d | d != [] && Plain(d) ensures Greedy(d, p) == Matches(d, p) { ExactIsRight(d, p); }
    } else if Strip(p) == [] {
      forall d | d != [] && Plain(d) ensures Greedy(d, p) == Matches(d, p) { OnlyAnys(d, p); }
    } else {
      var d := Missed(p);
    }
  }

  lemma {:induction false} OnlyAnys(d: seq<Label>, p: seq<Label>)
    requires d != [] && p != [] && Strip(p) == []
    ensures Greedy(d, p) && Matches(d, p)
    decreases |p|
  {
    if |p| > 1 { OnlyAnys(Skip(d, p[1]), p[1..]); }
    assert Greedy(d, p);
    Sound(d, p);
  }

  /** Without a `**` before the end of the pattern the answer is right. */
  lemma {:induction false} AnyOnlyLast(p: seq<Label>)
    requires forall k :: 0 <= k < |p| - 1 ==> p[k] != "**"
    ensures Exact(p)
  {
    if p != [] && p != ["**"] && p[0] != "**" { AnyOnlyLast(p[1..]); }
  }

  /** `**.b` misses `b.b`: the first `b` is taken, the second has nothing left to be matched by. */
  lemma MissedDomain()
    ensures Matches(["b", "b"], ["**", "b"]) && !Greedy(["b", "b"], ["**", "b"])
  {
    var d, p := ["b", "b"], ["**", "b"];
    assert p[1..] == ["b"] && d[1..] == ["b"] && ["b"][1..] == [];
    assert Matches(d[1..], p[1..]);
    AnySuffix(d, 1, p);
    assert Skip(d, "b") == d;
  }
}
