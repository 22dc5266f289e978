/** What happens once in a run: no id is executed twice, no node answers its parent twice. */
module History {
  import opened Values
  import opened Trees
  import opened Instructions
  import opened Machine
  import opened Simulation
  import opened Stepping
  import opened Preserving
  import opened Meaning
  import opened Runs

  /** Whether `id` may still be executed or, if `answers`, may still answer. */
  ghost predicate May(nid: Nid, c: Conf, id: Nid, answers: bool)
    decreases c
  {
    Above(nid, id) &&
    match c
    case Exec(_, _, _) => true
    case Self(_, _, _, _) => id != nid || answers
    case One(_, _, i, child) =>
      if id == nid then answers else id[|nid|] > i || May(nid + [i], child, id, answers)
    case Many(_, _, cs) =>
      if id == nid then answers
      else exists j :: 0 <= j < |cs| && May(nid + [ConIndex(j)], cs[j], id, answers)
    case Reply(_, _) => id == nid && answers
    case _ => false
  }

  /** The id that a message uses up: that of the node to execute, or of the node that answers. */
  function Uses(m: Msg, answers: bool): Option<Nid> {
    match m
    case Execute(nid, _, _, _) => if answers then None else Some(nid)
    case Receive(nid, from, _) => if answers && nid != from then Some(from) else None
    case _ => None
  }

  lemma ReactionMay(nid: Nid, node: Node, tree: Tree, e: Reaction, kids: Option<seq<Nid>>, at: nat, id: Nid, answers: bool)
    requires May(nid, ConfRcv(nid, node, tree, e, kids, at), id, answers)
    ensures Above(nid, id) && (id == nid ==> answers)
    ensures id != nid ==> e.verdict.Over? || (e.next.Some? && id[|nid|] >= e.next.value)
  {
  }

  lemma ExeMay(nid: Nid, t: Tree, p: Payload, at: nat, id: Nid, answers: bool)
    ensures May(nid, AfterExe(nid, t, p, at), id, answers) ==> Above(nid, id) && (id == nid ==> answers)
  {
    hide Exe, Prepare, ConIndex;
  }

  lemma RcvMay(nid: Nid, node: Node, tree: Tree, from: Option<nat>, p: Payload, at: nat, id: Nid, answers: bool)
    requires May(nid, AfterRcv(nid, node, tree, from, p, at), id, answers)
    ensures Above(nid, id) && (id == nid ==> answers)
    ensures id != nid && from.Some? ==> id[|nid|] > from.value
  {
    hide Rcv;
    var e := RcvReaction(node, tree, from, p);
    var kids := RcvKids(node.op, node.children, nid, from, p, e.next);
    if e.verdict.Over? {
      assert AfterRcv(nid, node, tree, from, p, at).Reply?;
    } else {
      ReactionMay(nid, node, tree, e, kids, at, id, answers);
    }
  }

  /** A step allows nothing new, and what its message uses is no longer allowed. */
  lemma {:induction false} StepMay(nid: Nid, c: Conf, found: Option<Tree>, r: nat, id: Nid, answers: bool)
    requires Good(nid, c, found) && Tidy(c, r) && Due(c, r) && !c.Reply?
    ensures May(nid, Next(nid, c, r), id, answers) ==> May(nid, c, id, answers)
    ensures MsgsAt(nid, c, r) != []
    ensures Uses(MsgsAt(nid, c, r)[0], answers) == Some(id) ==> May(nid, c, id, answers) && !May(nid, Next(nid, c, r), id, answers)
    decreases c
  {
    hide AfterExe, AfterRcv, ConIndex;
    match c {
      case Exec(t, p, _) =>
        if t.Some? {
          ExeMay(nid, t.value, p, r + 1, id, answers);
        }
      case Self(node, tree, p, _) =>
        if May(nid, Next(nid, c, r), id, answers) {
          RcvMay(nid, node, tree, None, p, r + 1, id, answers);
        }
      case One(node, tree, i, child) =>
        if child.Reply? {
          RepliedMay(nid, node, tree, i, child, r, id, answers);
        } else {
          StepMay(nid + [i], child, At(tree.children, i), r, id, answers);
          assert Above(nid + [i], id) ==> id[|nid|] == (nid + [i])[|nid|];
          MayAbove(nid + [i], child, id, answers);
        }
      case Many(node, tree, cs) => ManyMay(nid, node, tree, cs, found, r, id, answers);
      case _ =>
    }
  }

  lemma MayAbove(nid: Nid, c: Conf, id: Nid, answers: bool)
    ensures May(nid, c, id, answers) ==> Above(nid, id)
  {
  }

  lemma RepliedMay(nid: Nid, node: Node, tree: Tree, i: nat, child: Conf, r: nat, id: Nid, answers: bool)
    requires nid != [] && child.Reply? && Tidy(child, r) && Due(child, r)
    ensures
      var c := One(node, tree, i, child);
      var after := AfterRcv(nid, node, tree, Some(i), child.payload, r + 1);
      && (May(nid, after, id, answers) ==> May(nid, c, id, answers))
      && MsgsAt(nid, c, r) != []
      && (Uses(MsgsAt(nid, c, r)[0], answers) == Some(id) ==> May(nid, c, id, answers) && !May(nid, after, id, answers))
  {
    hide AfterRcv;
    assert |nid + [i]| > |ROOT|;
    ReplyMsg(nid + [i], child, r);
    ChopExtend(nid, i);
    var after := AfterRcv(nid, node, tree, Some(i), child.payload, r + 1);
    if May(nid, after, id, answers) {
      RcvMay(nid, node, tree, Some(i), child.payload, r + 1, id, answers);
    }
    assert (nid + [i])[|nid|] == i;
  }

  lemma {:induction false} ManyMay(
    nid: Nid, node: Node, tree: Tree, cs: seq<Conf>, found: Option<Tree>, r: nat, id: Nid, answers: bool)
    requires var c := Many(node, tree, cs); Good(nid, c, found) && Tidy(c, r) && Due(c, r)
    ensures
      var c := Many(node, tree, cs);
      && (May(nid, Next(nid, c, r), id, answers) ==> May(nid, c, id, answers))
      && MsgsAt(nid, c, r) != []
      && (Uses(MsgsAt(nid, c, r)[0], answers) == Some(id) ==>
          May(nid, c, id, answers) && !May(nid, Next(nid, c, r), id, answers))
    decreases cs
  {
    hide ConIndex, MsgsAt, Awaited, AfterExe, AfterRcv;
    var j := DueChild(nid, node, tree, cs, found, r);
    var kid := nid + [ConIndex(j)];
    FirstFrom(nid, cs, 0, j, r);
    ManyIs(nid, node, tree, cs, r);
    if cs[j].Reply? {
      assert |kid| > |ROOT|;
      ReplyMsg(kid, cs[j], r);
      ReplaceMay(nid, node, tree, cs, j, Gone, id, answers);
    } else {
      StepMay(kid, cs[j], At(tree.children, ConIndex(j)), r, id, answers);
      ReplaceMay(nid, node, tree, cs, j, Next(kid, cs[j], r), id, answers);
    }
  }

  /** One child of a concurrence changed. */
  lemma ReplaceMay(nid: Nid, node: Node, tree: Tree, cs: seq<Conf>, j: nat, x: Conf, id: Nid, answers: bool)
    requires nid != [] && j < |cs|
    requires var kid := nid + [ConIndex(j)]; May(kid, x, id, answers) ==> May(kid, cs[j], id, answers)
    ensures May(nid, Many(node, tree, cs[j := x]), id, answers) ==> May(nid, Many(node, tree, cs), id, answers)
    ensures
      var kid := nid + [ConIndex(j)];
      May(kid, cs[j], id, answers) ==> May(nid, Many(node, tree, cs), id, answers)
    ensures
      var kid := nid + [ConIndex(j)];
      May(kid, cs[j], id, answers) && !May(kid, x, id, answers) ==> !May(nid, Many(node, tree, cs[j := x]), id, answers)
  {
    hide ConIndex;
    var kid := nid + [ConIndex(j)];
    MayAbove(kid, cs[j], id, answers);
    if May(nid, Many(node, tree, cs[j := x]), id, answers) && id != nid {
      var k :| 0 <= k < |cs| && May(nid + [ConIndex(k)], cs[j := x][k], id, answers);
      MayAbove(nid + [ConIndex(k)], cs[j := x][k], id, answers);
      if k != j {
        assert May(nid + [ConIndex(k)], cs[k], id, answers);
        if May(kid, cs[j], id, answers) {
          assert id[|nid|] == kid[|nid|] && id[|nid|] == (nid + [ConIndex(k)])[|nid|];
          if k < j { ConIndexGrows(k, j); } else { ConIndexGrows(j, k); }
        }
      }
    }
  }

  // --- whole runs ------------------------------------------------------------------------------------

  /** One step of a run, for one id. */
  lemma MatchMay(s: State, c: Conf, r: nat, launched: seq<Msg>, id: Nid, answers: bool)
    returns (d: Conf, q: nat, l: seq<Msg>)
    requires Matches(s, c, r, launched) && !Ended(s)
    ensures Matches(Step(s), d, q, l)
    ensures May(ROOT, d, id, answers) ==> May(ROOT, c, id, answers)
    ensures Uses(s.msgs[0], answers) == Some(id) ==> May(ROOT, c, id, answers) && !May(ROOT, d, id, answers)
  {
    hide May, Step, Matches, MsgsAt, Good, Tidy, Due, Next;
    d, q, l := MatchStep(s, c, r, launched);
    if launched == [] {
      StepMay(ROOT, c, None, q, id, answers);
    }
  }

  /** What message `j` uses up stays so at state `k`. */
  lemma {:induction false} UsedUp(t: Tree, p: Payload, j: nat, k: nat, id: Nid, answers: bool)
    returns (c: Conf, r: nat, launched: seq<Msg>)
    requires j < k && !Ended(StateAt(t, p, k - 1)) && !Ended(StateAt(t, p, j))
    requires Uses(StateAt(t, p, j).msgs[0], answers) == Some(id)
    ensures Matches(StateAt(t, p, k), c, r, launched)
    ensures !May(ROOT, c, id, answers)
    decreases k
  {
    hide May, Step, Matches, Outlook, Spent;
    var s := StateAt(t, p, k - 1);
    if k == 1 {
      FirstStep(t, p);
      assert StateAt(t, p, 1) == Step(StateAt(t, p, 0)) && StateAt(t, p, 0) == Init(t, p);
      c, r, launched := AfterExe(ROOT, t, p, 1), 1, [Launched(ROOT, p)];
      assert id == ROOT && !answers;
      ExeMay(ROOT, t, p, 1, id, answers);
    } else {
      NotEndedBefore(t, p, k - 2, k - 1);
      if j == k - 1 {
        c, r, launched := RunMatches(t, p, k - 1);
      } else {
        c, r, launched := UsedUp(t, p, j, k - 1, id, answers);
      }
      c, r, launched := MatchMay(s, c, r, launched, id, answers);
    }
  }

  /** No id is executed twice in a run, and no node answers its parent twice. */
  lemma UsedOnce(t: Tree, p: Payload, j: nat, k: nat, answers: bool)
    requires j < k && !Ended(StateAt(t, p, k))
    ensures !Ended(StateAt(t, p, j))
    ensures
      var used := Uses(StateAt(t, p, j).msgs[0], answers);
      used.Some? ==> Uses(StateAt(t, p, k).msgs[0], answers) != used
  {
    hide May, Step, Matches, StateAt, Uses;
    NotEndedBefore(t, p, j, k);
    NotEndedBefore(t, p, k - 1, k);
    var used := Uses(StateAt(t, p, j).msgs[0], answers);
    if used.Some? {
      var c, r, launched := UsedUp(t, p, j, k, used.value, answers);
      var _, _, _ := MatchMay(StateAt(t, p, k), c, r, launched, used.value, answers);
    }
  }
}
