/** What a configuration will answer, when, and at what cost: the first two never change, the last is used up. */
module Meaning {
  import opened Values
  import opened Trees
  import opened Instructions
  import opened Machine
  import opened Evaluator
  import opened Simulation
  import opened Stepping

  /** The payload and the turn of the answer to come. */
  function Outlook(c: Conf): Outcome
    decreases c, 0
  {
    match c
    case Exec(Some(t), p, at) => Shift(Eval(t, p), at)
    case Self(node, tree, p, at) => Shift(Resume(node.op, tree, node.rets, None, p), at)
    case One(node, tree, i, child) =>
      if i >= |tree.children| then Never else
      var o := Outlook(child);
      if o.Never? then Never else Shift(Resume(node.op, tree, node.rets, Some(i), o.payload), o.span)
    case Many(_, _, cs) =>
      var os := Outlooks(cs, 0);
      if os == [] then Never else Shift(Latest(os), 1)
    case Reply(p, at) => Done(p, at)
    case _ => Never
  }

  /** The outlooks of the children of a concurrence that have not answered, from child `k` on. */
  function Outlooks(cs: seq<Conf>, k: nat): seq<Outcome>
    requires k <= |cs|
    decreases cs, |cs| - k
  {
    if k == |cs| then [] else (if cs[k].Gone? then [] else [Outlook(cs[k])]) + Outlooks(cs, k + 1)
  }

  /** What is still to come: nodes to execute, nodes that will be over as they execute, messages to handle. */
  function Left(c: Conf): Tally
    decreases c, 0
  {
    match c
    case Exec(None, _, _) => MESSAGE
    case Exec(Some(t), p, _) => Count(t, p)
    case Self(node, tree, p, _) => Plus(DIRECT, CountResume(node.op, tree, node.rets, None, p))
    case One(node, tree, i, child) =>
      var o := Outlook(child);
      Plus(Left(child),
        if i < |tree.children| && o.Done? then CountResume(node.op, tree, node.rets, Some(i), o.payload) else NOTHING)
    case Many(_, _, cs) => Plus(LeftFrom(cs, 0), if Outlook(c).Done? then MESSAGE else NOTHING)
    case Reply(_, _) => MESSAGE
    case Failing(_, _, _, _) => MESSAGE
    case _ => NOTHING
  }

  function LeftFrom(cs: seq<Conf>, k: nat): Tally
    requires k <= |cs|
    decreases cs, |cs| - k
  {
    if k == |cs| then NOTHING else Plus(Left(cs[k]), LeftFrom(cs, k + 1))
  }

  /** What handling the first message stamped `r` amounts to. */
  function Cost(c: Conf, r: nat): Tally
    requires Due(c, r)
    decreases c
  {
    match c
    case Exec(Some(_), _, _) => EXECUTED
    case Self(_, _, _, _) => DIRECT
    case One(_, _, _, child) => Cost(child, r)
    case Many(_, _, cs) => Cost(cs[FirstDue(cs, r)], r)
    case _ => MESSAGE
  }

  // --- later outcomes ------------------------------------------------------------------------------

  lemma {:induction false} LatestShift(os: seq<Outcome>, ps: seq<Outcome>, at: nat)
    requires |os| == |ps| > 0
    requires forall i :: 0 <= i < |os| ==> ps[i] == Shift(os[i], at)
    ensures Latest(ps) == Shift(Latest(os), at)
  {
    if |os| > 1 {
      LatestShift(os[1..], ps[1..], at);
    }
  }

  predicate NotBefore(o: Outcome, r: nat) { o.Done? ==> o.span >= r }

  lemma {:induction false} LatestNotBefore(os: seq<Outcome>, r: nat)
    requires os != [] && forall i :: 0 <= i < |os| ==> NotBefore(os[i], r)
    ensures NotBefore(Latest(os), r)
  {
    if |os| > 1 {
      LatestNotBefore(os[1..], r);
    }
  }

  /** An answer of this turn never decides between answers to come: those on its left come in a later turn,
      those on its right may come in the same one. */
  lemma {:induction false} LatestDrop(xs: seq<Outcome>, p: Payload, r: nat, ys: seq<Outcome>)
    requires forall i :: 0 <= i < |xs| ==> NotBefore(xs[i], r + 1)
    requires forall i :: 0 <= i < |ys| ==> NotBefore(ys[i], r)
    requires xs + ys != []
    ensures Latest(xs + [Done(p, r)] + ys) == Latest(xs + ys)
  {
    var all := xs + [Done(p, r)] + ys;
    if xs == [] {
      assert all[1..] == ys && xs + ys == ys;
      LatestNotBefore(ys, r);
    } else {
      assert all[1..] == xs[1..] + [Done(p, r)] + ys;
      assert (xs + ys)[1..] == xs[1..] + ys;
      if xs[1..] + ys == [] {
        assert all[1..] == [Done(p, r)];
      } else {
        LatestDrop(xs[1..], p, r, ys);
      }
    }
  }

  lemma {:induction false} OutlookNotBefore(c: Conf, r: nat)
    requires AllFrom(c, r)
    ensures NotBefore(Outlook(c), r)
    decreases c, 0
  {
    hide Eval, Resume;
    match c
    case One(_, _, _, child) => OutlookNotBefore(child, r);
    case Many(_, _, cs) =>
      OutlooksNotBefore(cs, 0, r);
      if Outlooks(cs, 0) != [] {
        LatestNotBefore(Outlooks(cs, 0), r);
      }
    case _ =>
  }

  lemma {:induction false} OutlooksNotBefore(cs: seq<Conf>, k: nat, r: nat)
    requires k <= |cs|
    requires forall m :: k <= m < |cs| ==> AllFrom(cs[m], r)
    ensures forall i :: 0 <= i < |Outlooks(cs, k)| ==> NotBefore(Outlooks(cs, k)[i], r)
    decreases cs, |cs| - k
  {
    hide Outlook;
    if k < |cs| {
      OutlookNotBefore(cs[k], r);
      OutlooksNotBefore(cs, k + 1, r);
    }
  }

  /** The outlooks around child `j`, before and after it changes. */
  lemma {:induction false} OutlooksAround(cs: seq<Conf>, k: nat, j: nat, x: Conf, r: nat)
    returns (xs: seq<Outcome>, ys: seq<Outcome>)
    requires k <= j < |cs| && !cs[j].Gone?
    requires forall m :: 0 <= m < j ==> AllFrom(cs[m], r + 1)
    requires forall m :: j <= m < |cs| ==> AllFrom(cs[m], r)
    ensures forall i :: 0 <= i < |xs| ==> NotBefore(xs[i], r + 1)
    ensures forall i :: 0 <= i < |ys| ==> NotBefore(ys[i], r)
    ensures Outlooks(cs, k) == xs + [Outlook(cs[j])] + ys
    ensures Outlooks(cs[j := x], k) == xs + (if x.Gone? then [] else [Outlook(x)]) + ys
    decreases j - k
  {
    hide Outlook;
    if k < j {
      var zs;
      zs, ys := OutlooksAround(cs, k + 1, j, x, r);
      OutlookNotBefore(cs[k], r + 1);
      xs := (if cs[k].Gone? then [] else [Outlook(cs[k])]) + zs;
    } else {
      xs, ys := [], Outlooks(cs, j + 1);
      OutlooksSame(cs, cs[j := x], j + 1);
      OutlooksNotBefore(cs, j + 1, r);
    }
  }

  lemma {:induction false} OutlooksSame(cs: seq<Conf>, ds: seq<Conf>, k: nat)
    requires k <= |cs| == |ds|
    requires forall j :: k <= j < |cs| ==> cs[j] == ds[j]
    ensures Outlooks(cs, k) == Outlooks(ds, k) && LeftFrom(cs, k) == LeftFrom(ds, k)
    decreases |cs| - k
  {
    hide Outlook, Left;
    if k < |cs| {
      OutlooksSame(cs, ds, k + 1);
    }
  }

  lemma {:induction false} LeftAround(cs: seq<Conf>, k: nat, j: nat, x: Conf)
    requires k <= j < |cs|
    ensures Plus(LeftFrom(cs[j := x], k), Left(cs[j])) == Plus(LeftFrom(cs, k), Left(x))
    decreases j - k
  {
    hide Left;
    if k < j {
      LeftAround(cs, k + 1, j, x);
    } else {
      OutlooksSame(cs, cs[j := x], j + 1);
    }
  }

  // --- a step changes neither the answer nor its turn, and costs one message ---------------------------

  lemma {:induction false} OutlooksAre(cs: seq<Conf>, os: seq<Outcome>, k: nat)
    requires k <= |cs| == |os|
    requires forall i :: 0 <= i < |cs| ==> !cs[i].Gone? && os[i] == Outlook(cs[i])
    ensures Outlooks(cs, k) == os[k..]
    decreases |cs| - k
  {
    hide Outlook;
    if k < |cs| {
      OutlooksAre(cs, os, k + 1);
      assert os[k..] == [os[k]] + os[k + 1..];
      assert Outlooks(cs, k) == [Outlook(cs[k])] + Outlooks(cs, k + 1);
    }
  }

  lemma OneFork(ts: seq<Tree>, i: nat, p: Payload, at: nat)
    ensures Outlook(Exec(At(ts, ConIndex(i)), p, at)) == Shift(Fork(ts, i, p), at)
    ensures Left(Exec(At(ts, ConIndex(i)), p, at)) == CountFork(ts, i, p)
  {
    hide ConIndex;
    if ConIndex(i) < |ts| {
      ChildWeight(ts, ConIndex(i));
    }
  }

  lemma {:induction false} ForkLeft(ts: seq<Tree>, cs: seq<Conf>, n: nat, p: Payload, at: nat)
    requires n <= |cs|
    requires forall i :: 0 <= i < |cs| ==> cs[i] == Exec(At(ts, ConIndex(i)), p, at)
    ensures LeftFrom(cs, 0) == Plus(CountForks(ts, n, p), LeftFrom(cs, n))
    decreases n
  {
    hide Left, CountFork, ConIndex, Plus;
    PlusLaws(LeftFrom(cs, n), NOTHING, NOTHING);
    if n > 0 {
      ForkLeft(ts, cs, n - 1, p, at);
      OneFork(ts, n - 1, p, at);
      PlusLaws(CountForks(ts, n - 1, p), CountFork(ts, n - 1, p), LeftFrom(cs, n));
    }
  }

  lemma ForkMeaning(nid: Nid, node: Node, tree: Tree, p: Payload, at: nat)
    requires tree.children != []
    ensures
      var n := |tree.children|;
      var c := ConfFork(nid, node, tree, p, at);
      var o := Latest(Evaluator.Forks(tree.children, n, p));
      && Outlook(c) == Shift(o, at + 1)
      && Left(c) == Plus(CountForks(tree.children, n, p), if o.Done? then MESSAGE else NOTHING)
  {
    hide Outlook, Left, ConIndex, Fork, CountForks, Plus, Latest, Outlooks;
    var n := |tree.children|;
    ManyMeaning(node.(children := Some(ConIds(nid, n))), tree, ForkConfs(tree.children, n, p, at));
    var cs := ForkConfs(tree.children, n, p, at);
    var os := Evaluator.Forks(tree.children, n, p);
    var shifted := seq(n, i requires 0 <= i < n => Outlook(cs[i]));
    forall i | 0 <= i < n ensures shifted[i] == Shift(os[i], at) {
      OneFork(tree.children, i, p, at);
    }
    OutlooksAre(cs, shifted, 0);
    LatestShift(os, shifted, at);
    assert shifted[0..] == shifted;
    ForkLeft(tree.children, cs, n, p, at);
    PlusLaws(CountForks(tree.children, n, p), NOTHING, NOTHING);
  }

  lemma ReactionMeaning(nid: Nid, node: Node, tree: Tree, e: Reaction, kids: Option<seq<Nid>>, at: nat)
    requires e.next.Some? ==> e.verdict.Ok? && e.next.value < |tree.children|
    ensures
      var c := ConfExe(nid, node, tree, e, kids, at);
      match e.verdict
      case Over =>
        && Outlook(c) == Shift(Resume(node.op, tree, e.rets, None, e.payload), at)
        && Left(c) == Plus(DIRECT, CountResume(node.op, tree, e.rets, None, e.payload))
      case Ok =>
        if e.next.None? then Outlook(c) == Never && Left(c) == NOTHING else
        && Outlook(c) == Shift(EvalFrom(node.op, tree, e.next.value, e.rets, e.payload), at)
        && Left(c) == CountFrom(node.op, tree, e.next.value, e.rets, e.payload)
      case Error => Outlook(c) == Never && Left(c) == MESSAGE
  {
    if e.verdict.Ok? && e.next.Some? {
      ChildWeight(tree.children, e.next.value);
      ChildMeaning(Settled(node, e, kids), tree, e.next.value, e.payload, at);
    }
  }

  lemma ChildMeaning(node: Node, tree: Tree, i: nat, p: Payload, at: nat)
    requires i < |tree.children|
    ensures
      var c := One(node, tree, i, Exec(At(tree.children, i), p, at));
      && Outlook(c) == Shift(EvalFrom(node.op, tree, i, node.rets, p), at)
      && Left(c) == CountFrom(node.op, tree, i, node.rets, p)
  {
    ChildWeight(tree.children, i);
  }

  lemma NodeMeaning(nid: Nid, node: Node, u: Prepared, p: Payload, at: nat)
    requires node.op == u.op
    ensures
      var c := AfterNode(nid, node, u, p, at);
      Outlook(c) == Shift(EvalNode(u, p), at) && Left(c) == CountNode(u, p)
  {
    if Machine.Forks(u) {
      ForkMeaning(nid, node, u.tree, p, at);
    } else {
      var e := Exe(u.op, u.tree, p, u.tree.children != []);
      ReactionMeaning(nid, node, u.tree, e, ExeKids(u.op, u.tree, p, nid, e.next), at);
    }
  }

  lemma ExeMeaning(nid: Nid, t: Tree, p: Payload, r: nat)
    ensures Outlook(AfterExe(nid, t, p, r + 1)) == Shift(Eval(t, p), r)
    ensures Count(t, p) == Plus(EXECUTED, Left(AfterExe(nid, t, p, r + 1)))
  {
    PrepareWeight(t);
    NodeMeaning(nid, NewNode(nid, ParentOf(nid), t), Prepare(t), p, r + 1);
  }

  lemma RcvMeaning(nid: Nid, node: Node, tree: Tree, from: Option<nat>, p: Payload, r: nat)
    requires from.Some? ==> from.value < |tree.children|
    ensures Outlook(AfterRcv(nid, node, tree, from, p, r + 1)) == Shift(Resume(node.op, tree, node.rets, from, p), r)
    ensures Left(AfterRcv(nid, node, tree, from, p, r + 1)) == CountResume(node.op, tree, node.rets, from, p)
  {
    var e := RcvReaction(node, tree, from, p);
    if e.verdict.Ok? {
      ReactionMeaning(nid, node, tree, e, RcvKids(node.op, node.children, nid, from, p, e.next), r + 1);
    }
  }

  lemma ManyMeaning(node: Node, tree: Tree, cs: seq<Conf>)
    ensures var c := Many(node, tree, cs); var os := Outlooks(cs, 0);
      && Outlook(c) == (if os == [] then Never else Shift(Latest(os), 1))
      && Left(c) == Plus(LeftFrom(cs, 0), if Outlook(c).Done? then MESSAGE else NOTHING)
  {
    hide Outlooks, LeftFrom, Latest;
  }

  lemma EndMeaning(c: Conf)
    ensures c.Reply? ==> Outlook(c) == Done(c.payload, c.at) && Left(c) == MESSAGE
    ensures c.Gone? ==> Left(c) == NOTHING
  {
  }

  lemma OneMeaning(node: Node, tree: Tree, i: nat, child: Conf, x: Conf, cost: Tally)
    requires Outlook(x) == Outlook(child) && Left(child) == Plus(cost, Left(x))
    ensures Outlook(One(node, tree, i, x)) == Outlook(One(node, tree, i, child))
    ensures Left(One(node, tree, i, child)) == Plus(cost, Left(One(node, tree, i, x)))
  {
    hide Resume, CountResume, Plus;
    var o := Outlook(child);
    var rest :=
      if i < |tree.children| && o.Done? then CountResume(node.op, tree, node.rets, Some(i), o.payload) else NOTHING;
    PlusLaws(cost, Left(x), rest);
  }

  lemma AnswerOutlook(nid: Nid, node: Node, tree: Tree, cs: seq<Conf>, j: nat, r: nat)
    requires j < |cs| && cs[j].Reply? && cs[j].at == r
    requires node.children == Some(Awaited(nid, cs, 0))
    requires forall m :: 0 <= m < j ==> AllFrom(cs[m], r + 1)
    requires forall m :: j <= m < |cs| ==> AllFrom(cs[m], r)
    ensures Outlook(AfterAnswer(nid, node, tree, cs, j, r + 1)) == Outlook(Many(node, tree, cs))
    ensures AfterAnswer(nid, node, tree, cs, j, r + 1).Reply? <==> Outlooks(cs[j := Gone], 0) == []
  {
    hide Eval, Resume, Count, CountResume, Left;
    var ds := cs[j := Gone];
    var xs, ys := OutlooksAround(cs, 0, j, Gone, r);
    AwaitedRemove(nid, cs, 0, j);
    AllGone(nid, ds, 0);
    NoneLeft(ds, 0);
    assert Outlooks(ds, 0) == xs + ys;
    if Awaited(nid, ds, 0) == [] {
      assert xs == [] && ys == [];
      assert Outlooks(cs, 0) == [Outlook(cs[j])];
    } else {
      assert Outlooks(ds, 0) != [];
      LatestDrop(xs, cs[j].payload, r, ys);
    }
  }

  lemma AnswerLeft(nid: Nid, node: Node, tree: Tree, cs: seq<Conf>, j: nat, r: nat)
    requires j < |cs| && cs[j].Reply? && cs[j].at == r
    requires node.children == Some(Awaited(nid, cs, 0))
    requires forall m :: 0 <= m < j ==> AllFrom(cs[m], r + 1)
    requires forall m :: j <= m < |cs| ==> AllFrom(cs[m], r)
    ensures Left(Many(node, tree, cs)) == Plus(MESSAGE, Left(AfterAnswer(nid, node, tree, cs, j, r + 1)))
  {
    hide Outlook, Outlooks, Left, LeftFrom, Awaited, ConIndex, Latest, Plus, AllFrom;
    var ds := cs[j := Gone];
    var after := AfterAnswer(nid, node, tree, cs, j, r + 1);
    AnswerOutlook(nid, node, tree, cs, j, r);
    GoneLeft(cs, j);
    ManyMeaning(node, tree, cs);
    if after.Reply? {
      NoneLeft(ds, 0);
      NothingLeft(ds, 0);
      EndMeaning(after);
      assert Outlook(Many(node, tree, cs)).Done?;
      PlusLaws(MESSAGE, NOTHING, MESSAGE);
    } else {
      ManyMeaning(after.node, tree, ds);
      PlusLaws(MESSAGE, LeftFrom(ds, 0), if Outlook(after).Done? then MESSAGE else NOTHING);
    }
  }

  lemma GoneLeft(cs: seq<Conf>, j: nat)
    requires j < |cs| && cs[j].Reply?
    ensures LeftFrom(cs, 0) == Plus(MESSAGE, LeftFrom(cs[j := Gone], 0))
  {
    hide Left, LeftFrom;
    LeftAround(cs, 0, j, Gone);
    EndMeaning(cs[j]);
    EndMeaning(Gone);
  }

  lemma {:induction false} NoneLeft(cs: seq<Conf>, k: nat)
    requires k <= |cs|
    ensures Outlooks(cs, k) == [] <==> forall j :: k <= j < |cs| ==> cs[j].Gone?
    decreases |cs| - k
  {
    hide Outlook;
    if k < |cs| {
      NoneLeft(cs, k + 1);
    }
  }

  lemma {:induction false} NothingLeft(cs: seq<Conf>, k: nat)
    requires k <= |cs| && forall j :: k <= j < |cs| ==> cs[j].Gone?
    ensures LeftFrom(cs, k) == NOTHING
    decreases |cs| - k
  {
    hide Left, Plus;
    if k < |cs| {
      NothingLeft(cs, k + 1);
      EndMeaning(cs[k]);
      PlusLaws(NOTHING, NOTHING, NOTHING);
    }
  }

  lemma {:induction false} StepMeaning(nid: Nid, c: Conf, found: Option<Tree>, r: nat)
    requires Good(nid, c, found) && Tidy(c, r) && Due(c, r) && !c.Reply?
    ensures Outlook(Next(nid, c, r)) == Outlook(c)
    ensures Left(c) == Plus(Cost(c, r), Left(Next(nid, c, r)))
    decreases c
  {
    hide Outlook, Left, ConIndex, AfterExe, AfterRcv, AfterAnswer, Plus;
    PlusLaws(MESSAGE, NOTHING, NOTHING);
    match c {
      case Exec(t, p, at) =>
        ExecMeaning(t, p, at);
        if t.Some? {
          ExeMeaning(nid, t.value, p, r);
        }
      case Self(node, tree, p, at) =>
        SelfMeaning(node, tree, p, at);
        RcvMeaning(nid, node, tree, None, p, r);
      case One(node, tree, i, child) =>
        if child.Reply? {
          assert AllFrom(child, r) && !AllFrom(child, r + 1);
          RepliedMeaning(node, tree, i, child);
          RcvMeaning(nid, node, tree, Some(i), child.payload, r);
        } else {
          StepMeaning(nid + [i], child, At(tree.children, i), r);
          OneMeaning(node, tree, i, child, Next(nid + [i], child, r), Cost(child, r));
        }
      case Failing(node, tree, p, at) => FailingMeaning(node, tree, p, at);
      case Many(node, tree, cs) =>
        StepManyMeaning(nid, node, tree, cs, found, r);
    }
  }

  lemma ExecMeaning(t: Option<Tree>, p: Payload, at: nat)
    ensures var c := Exec(t, p, at);
      if t.None? then Outlook(c) == Never && Left(c) == MESSAGE && Outlook(Rejected) == Never && Left(Rejected) == NOTHING
      else Outlook(c) == Shift(Eval(t.value, p), at) && Left(c) == Count(t.value, p)
  {
  }

  lemma SelfMeaning(node: Node, tree: Tree, p: Payload, at: nat)
    ensures var c := Self(node, tree, p, at);
      && Outlook(c) == Shift(Resume(node.op, tree, node.rets, None, p), at)
      && Left(c) == Plus(DIRECT, CountResume(node.op, tree, node.rets, None, p))
  {
    hide Resume, CountResume;
  }

  lemma RepliedMeaning(node: Node, tree: Tree, i: nat, child: Conf)
    requires i < |tree.children| && child.Reply?
    ensures var c := One(node, tree, i, child);
      && Outlook(c) == Shift(Resume(node.op, tree, node.rets, Some(i), child.payload), child.at)
      && Left(c) == Plus(MESSAGE, CountResume(node.op, tree, node.rets, Some(i), child.payload))
  {
    hide Resume, CountResume;
  }

  lemma FailingMeaning(node: Node, tree: Tree, p: Payload, at: nat)
    ensures Outlook(Failing(node, tree, p, at)) == Never && Left(Failing(node, tree, p, at)) == MESSAGE
    ensures Outlook(Stuck(node, tree)) == Never && Left(Stuck(node, tree)) == NOTHING
  {
  }

  lemma {:induction false} StepManyMeaning(nid: Nid, node: Node, tree: Tree, cs: seq<Conf>, found: Option<Tree>, r: nat)
    requires var c := Many(node, tree, cs); Good(nid, c, found) && Tidy(c, r) && Due(c, r)
    ensures
      var c := Many(node, tree, cs);
      Outlook(Next(nid, c, r)) == Outlook(c) && Left(c) == Plus(Cost(c, r), Left(Next(nid, c, r)))
    decreases cs
  {
    hide Outlook, Left, AfterAnswer, AfterExe, AfterRcv, ConIndex, Awaited;
    var j := DueChild(nid, node, tree, cs, found, r);
    if cs[j].Reply? {
      AnswerOutlook(nid, node, tree, cs, j, r);
      AnswerLeft(nid, node, tree, cs, j, r);
    } else {
      var id := nid + [ConIndex(j)];
      StepMeaning(id, cs[j], At(tree.children, ConIndex(j)), r);
      ReplaceMeaning(node, tree, cs, j, Next(id, cs[j], r), r, Cost(cs[j], r));
    }
  }

  lemma ReplaceMeaning(node: Node, tree: Tree, cs: seq<Conf>, j: nat, x: Conf, r: nat, cost: Tally)
    requires j < |cs| && !cs[j].Gone? && !x.Gone?
    requires forall m :: 0 <= m < j ==> AllFrom(cs[m], r + 1)
    requires forall m :: j <= m < |cs| ==> AllFrom(cs[m], r)
    requires Outlook(x) == Outlook(cs[j]) && Left(cs[j]) == Plus(cost, Left(x))
    ensures
      var c := Many(node, tree, cs);
      var after := Many(node, tree, cs[j := x]);
      Outlook(after) == Outlook(c) && Left(c) == Plus(cost, Left(after))
  {
    hide Outlook, Left;
    ManyMeaning(node, tree, cs);
    ManyMeaning(node, tree, cs[j := x]);
    var xs, ys := OutlooksAround(cs, 0, j, x, r);
    LeftAround(cs, 0, j, x);
    assert Outlooks(cs[j := x], 0) == Outlooks(cs, 0);
  }

  // --- the cost of a step, read off the message --------------------------------------------------------

  /** The first message stamped `r`, and whether handling it makes a node. */
  lemma {:induction false} FirstCost(nid: Nid, c: Conf, found: Option<Tree>, r: nat)
    requires Good(nid, c, found) && Tidy(c, r) && Due(c, r) && !c.Reply?
    ensures MsgsAt(nid, c, r) != []
    ensures
      match MsgsAt(nid, c, r)[0]
      case Execute(id, _, _, _) =>
        Above(nid, id) && Cost(c, r) == if id in NodesOf(nid, Next(nid, c, r)) then EXECUTED else MESSAGE
      case Receive(id, from, _) => Cost(c, r) == if id == from then DIRECT else MESSAGE
      case _ => Cost(c, r) == MESSAGE
    decreases c
  {
    hide AfterRcv, ConIndex;
    match c {
      case One(node, tree, i, child) =>
        if child.Reply? {
          assert nid + [i] != nid && |nid + [i]| > |ROOT|;
          ChopExtend(nid, i);
          ReplyMsg(nid + [i], child, r);
        } else {
          assert |nid + [i]| > |nid|;
          FirstCost(nid + [i], child, At(tree.children, i), r);
        }
      case Many(node, tree, cs) => FirstManyCost(nid, node, tree, cs, found, r);
      case _ =>
    }
  }

  lemma {:induction false} FirstManyCost(nid: Nid, node: Node, tree: Tree, cs: seq<Conf>, found: Option<Tree>, r: nat)
    requires var c := Many(node, tree, cs); Good(nid, c, found) && Tidy(c, r) && Due(c, r)
    ensures var c := Many(node, tree, cs);
      && MsgsAt(nid, c, r) != []
      && match MsgsAt(nid, c, r)[0]
         case Execute(id, _, _, _) =>
           Above(nid, id) && Cost(c, r) == if id in NodesOf(nid, Next(nid, c, r)) then EXECUTED else MESSAGE
         case Receive(id, from, _) => Cost(c, r) == if id == from then DIRECT else MESSAGE
         case _ => Cost(c, r) == MESSAGE
    decreases cs
  {
    hide AfterAnswer, AfterExe, AfterRcv, ConIndex, Awaited, MsgsAt, NodesOf;
    var j := DueChild(nid, node, tree, cs, found, r);
    var id := nid + [ConIndex(j)];
    FirstFrom(nid, cs, 0, j, r);
    if cs[j].Reply? {
      assert id != nid && |id| > |ROOT|;
      ChopExtend(nid, ConIndex(j));
      ReplyMsg(id, cs[j], r);
      ManyIs(nid, node, tree, cs, r);
    } else {
      FirstCost(id, cs[j], At(tree.children, ConIndex(j)), r);
      var x := Next(id, cs[j], r);
      ManyIs(nid, node, tree, cs, r);
      var m := MsgsAt(id, cs[j], r)[0];
      if m.Execute? {
        ChildNodes(nid, node, tree, cs, j, x, m.nid);
      }
    }
  }

  lemma ReplyMsg(nid: Nid, c: Conf, r: nat)
    requires c.Reply? && Tidy(c, r) && Due(c, r) && |nid| > 1
    ensures MsgsAt(nid, c, r) == [Receive(Chop(nid), nid, c.payload)] && Chop(nid) != nid
  {
  }

  /** The first message stamped `r` is that of child `j`, the first one with such a message. */
  lemma {:induction false} FirstFrom(nid: Nid, cs: seq<Conf>, k: nat, j: nat, r: nat)
    requires k <= j < |cs| && forall i :: k <= i < j ==> AllFrom(cs[i], r + 1)
    ensures MsgsAt(nid + [ConIndex(j)], cs[j], r) <= MsgsFrom(nid, cs, k, r)
    decreases j - k
  {
    hide MsgsAt, ConIndex;
    if k < j {
      NoMsgs(nid + [ConIndex(k)], cs[k], r);
      FirstFrom(nid, cs, k + 1, j, r);
    }
  }

  /** The nodes under child `j` are those of child `j`. */
  lemma ChildNodes(nid: Nid, node: Node, tree: Tree, cs: seq<Conf>, j: nat, x: Conf, id: Nid)
    requires j < |cs| && Above(nid + [ConIndex(j)], id)
    ensures id in NodesOf(nid, Many(node, tree, cs[j := x])) <==> id in NodesOf(nid + [ConIndex(j)], x)
  {
    hide NodesOf, ConIndex;
    var ds := cs[j := x];
    ManyIs(nid, node, tree, ds, 0);
    NodesFromSplit(nid, ds, 0, j);
    NodesFromUnder(nid, ds[j := Gone], 0);
    assert id[|nid|] == (nid + [ConIndex(j)])[|nid|];
  }
}
