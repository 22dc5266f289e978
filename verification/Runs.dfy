/** Whole runs: the engine ends with exactly what the evaluator says, after exactly the messages it counts. */
module Runs {
  import opened Values
  import opened Trees
  import opened Machine
  import opened Evaluator
  import opened Simulation
  import opened Stepping
  import opened Preserving
  import opened Meaning

  /** The loop of flon_execut stops on an empty queue or on a `terminated` message. */
  predicate Ended(s: State) { s.msgs == [] || s.msgs[0].Terminated? }

  /** The state after `k` messages, or at the end of the run if that comes first. */
  function StateAt(t: Tree, p: Payload, k: nat): State {
    if k == 0 then Init(t, p) else
    var s := StateAt(t, p, k - 1);
    if Ended(s) then s else Step(s)
  }

  /** What the first message of a state amounts to: an execute message that makes a node, the message of a
      node to itself, or any other. */
  function StepCost(s: State): Tally
    requires s.msgs != []
  {
    match s.msgs[0]
    case Execute(nid, _, _, _) => if nid in Step(s).nodes then EXECUTED else MESSAGE
    case Receive(nid, from, _) => if nid == from then DIRECT else MESSAGE
    case _ => MESSAGE
  }

  /** What the first `k` messages of a run amount to. */
  function Spent(t: Tree, p: Payload, k: nat): Tally {
    if k == 0 then NOTHING else
    var s := StateAt(t, p, k - 1);
    Plus(Spent(t, p, k - 1), if Ended(s) then NOTHING else StepCost(s))
  }

  /** What is left, the launched event included. */
  function Rest(c: Conf, launched: seq<Msg>): Tally {
    if launched == [] then Left(c) else Plus(MESSAGE, Left(c))
  }

  // --- states and configurations -------------------------------------------------------------------

  /** `launched` is the launched event while it is queued. */
  ghost predicate Matches(s: State, c: Conf, r: nat, launched: seq<Msg>) {
    && s == State(NodesOf(ROOT, c), launched + MsgsAt(ROOT, c, r) + MsgsAt(ROOT, c, r + 1))
    && Good(ROOT, c, None)
    && Tidy(c, r)
    && !c.Exec?
    && (launched != [] ==> |launched| == 1 && launched[0].Launched? && !c.Reply?)
  }

  lemma Empty()
    ensures Context(map[], ROOT, None)
  {
    assert NodeTree(map[], ROOT) == None;
  }

  lemma InitStep(t: Tree, p: Payload)
    ensures Step(Init(t, p)) == ExecuteIn(State(map[], []), ROOT, None, t, p)
  {
    hide ExecuteIn;
    assert Init(t, p).msgs[1..] == [];
  }

  lemma FirstStep(t: Tree, p: Payload)
    ensures Matches(Step(Init(t, p)), AfterExe(ROOT, t, p, 1), 1, [Launched(ROOT, p)])
  {
    hide AfterExe, ExecuteIn, NodesOf, MsgsAt, Step, Init, Good, Tidy;
    Empty();
    InitStep(t, p);
    var c := AfterExe(ROOT, t, p, 1);
    var outs := StepExec(map[], ROOT, t, p, 1, []);
    AfterExeGood(ROOT, t, p, None, 1);
    NoMsgs(ROOT, c, 1);
    assert map[] + NodesOf(ROOT, c) == NodesOf(ROOT, c);
    assert [] + LaunchMsgs(ROOT, None, p) + outs == [Launched(ROOT, p)] + MsgsAt(ROOT, c, 1) + MsgsAt(ROOT, c, 2);
    NotExec(t, p);
  }

  lemma FirstStepCost(t: Tree, p: Payload)
    ensures StepCost(Init(t, p)) == EXECUTED
  {
    hide ExecuteIn;
    InitStep(t, p);
    ExecutedHere(State(map[], []), ROOT, None, t, p);
  }

  lemma ExecutedHere(s: State, nid: Nid, parent: Option<Nid>, t: Tree, p: Payload)
    ensures nid in ExecuteIn(s, nid, parent, t, p).nodes
  {
  }

  lemma NotExec(t: Tree, p: Payload)
    ensures !AfterExe(ROOT, t, p, 1).Exec? && !AfterExe(ROOT, t, p, 1).Reply?
  {
  }

  lemma {:induction false} NoneTerminated(nid: Nid, c: Conf, r: nat)
    requires nid != [] && (nid == ROOT ==> !c.Reply?)
    ensures forall m :: m in MsgsAt(nid, c, r) ==> !m.Terminated? && !m.Launched?
    decreases c, 0
  {
    match c
    case One(_, _, i, child) =>
      assert |nid + [i]| > |ROOT|;
      NoneTerminated(nid + [i], child, r);
    case Many(_, _, cs) => NoneTerminatedFrom(nid, cs, 0, r);
    case Reply(_, _) => assert ParentOf(nid).Some?;
    case _ =>
  }

  lemma {:induction false} NoneTerminatedFrom(nid: Nid, cs: seq<Conf>, k: nat, r: nat)
    requires nid != [] && k <= |cs|
    ensures forall m :: m in MsgsFrom(nid, cs, k, r) ==> !m.Terminated? && !m.Launched?
    decreases cs, |cs| - k
  {
    if k < |cs| {
      assert |nid + [ConIndex(k)]| > |ROOT|;
      NoneTerminated(nid + [ConIndex(k)], cs[k], r);
      NoneTerminatedFrom(nid, cs, k + 1, r);
    }
  }

  lemma Delivers(c: Conf, r: nat)
    requires Good(ROOT, c, None) && Tidy(c, r) && !c.Exec?
    ensures Due(c, r) <==> MsgsAt(ROOT, c, r) != []
  {
    NoMsgs(ROOT, c, r);
    if Due(c, r) && !c.Reply? {
      Empty();
      var _ := StepSimulates(map[], ROOT, c, r, []);
    }
  }

  /** A step of a run that has not ended. */
  lemma MatchStep(s: State, c: Conf, r: nat, launched: seq<Msg>) returns (d: Conf, q: nat, l: seq<Msg>)
    requires Matches(s, c, r, launched) && !Ended(s)
    ensures Matches(Step(s), d, q, l)
    ensures Outlook(d) == Outlook(c)
    ensures Rest(c, launched) == Plus(StepCost(s), Rest(d, l))
    ensures if launched != [] then d == c && s.msgs[0].Launched? else Turned(s, c, d, q)
  {
    hide Outlook, Left, NodesOf, MsgsAt, Good, StepCost;
    if launched != [] {
      d, q, l := c, r, [];
      LaunchedCost(s);
      assert s.msgs[1..] == [] + MsgsAt(ROOT, c, r) + MsgsAt(ROOT, c, r + 1);
    } else if MsgsAt(ROOT, c, r) == [] {
      Delivers(c, r);
      NextTurn(c, r);
      NoMsgs(ROOT, c, r + 1);
      Earlier(c, r + 1);
      assert s.msgs == [] + MsgsAt(ROOT, c, r + 1) + MsgsAt(ROOT, c, r + 2);
      d, q, l := TurnStep(s, c, r + 1);
    } else {
      assert s.msgs == [] + MsgsAt(ROOT, c, r) + MsgsAt(ROOT, c, r + 1);
      d, q, l := TurnStep(s, c, r);
    }
  }

  /** The first message of `s` is the first one of `c` stamped `q`, and `d` is what handling it leaves. */
  ghost predicate Turned(s: State, c: Conf, d: Conf, q: nat) {
    && Good(ROOT, c, None) && Tidy(c, q) && Due(c, q) && !c.Reply?
    && s.msgs != [] && MsgsAt(ROOT, c, q) != [] && s.msgs[0] == MsgsAt(ROOT, c, q)[0]
    && d == Next(ROOT, c, q)
  }

  lemma TurnStep(s: State, c: Conf, r: nat) returns (d: Conf, q: nat, l: seq<Msg>)
    requires Matches(s, c, r, []) && !Ended(s) && MsgsAt(ROOT, c, r) != []
    ensures Matches(Step(s), d, q, l)
    ensures Outlook(d) == Outlook(c)
    ensures l == [] && Left(c) == Plus(StepCost(s), Left(d))
    ensures Turned(s, c, d, q)
  {
    hide Outlook, Left, NodesOf, MsgsAt, Good, Tidy, Due, Next, Step, StateIs, StepCost, Cost;
    Delivers(c, r);
    NotTerminatedReply(s, c, r);
    d, q, l := Next(ROOT, c, r), r, [];
    StepGood(ROOT, c, None, r);
    StepMeaning(ROOT, c, None, r);
    TurnState(s, c, r);
    TurnCost(s, c, r);
    NextIsNotExec(c, r);
    StateFrom(Step(s), d, r);
  }

  lemma LaunchedCost(s: State)
    requires s.msgs != [] && s.msgs[0].Launched?
    ensures StepCost(s) == MESSAGE
  {
  }

  lemma TurnCost(s: State, c: Conf, r: nat)
    requires Matches(s, c, r, []) && MsgsAt(ROOT, c, r) != [] && Due(c, r) && !c.Reply?
    requires StateIs(Step(s), Next(ROOT, c, r), r)
    ensures StepCost(s) == Cost(c, r)
  {
    hide MsgsAt, Good, Tidy, Due, Next, Step;
    FirstCost(ROOT, c, None, r);
    assert s.msgs[0] == MsgsAt(ROOT, c, r)[0];
  }

  /** A state with no launched event. */
  ghost predicate StateIs(s: State, c: Conf, r: nat) {
    s == State(NodesOf(ROOT, c), MsgsAt(ROOT, c, r) + MsgsAt(ROOT, c, r + 1))
  }

  lemma StateFrom(s: State, c: Conf, r: nat)
    ensures StateIs(s, c, r) <==> s == State(NodesOf(ROOT, c), [] + MsgsAt(ROOT, c, r) + MsgsAt(ROOT, c, r + 1))
  {
    hide NodesOf, MsgsAt;
    assert [] + MsgsAt(ROOT, c, r) + MsgsAt(ROOT, c, r + 1) == MsgsAt(ROOT, c, r) + MsgsAt(ROOT, c, r + 1);
  }

  /** The first message of the turn is handled. */
  lemma TurnState(s: State, c: Conf, r: nat)
    requires Matches(s, c, r, []) && !Ended(s) && MsgsAt(ROOT, c, r) != [] && Due(c, r) && !c.Reply?
    ensures StateIs(Step(s), Next(ROOT, c, r), r)
  {
    hide NodesOf, MsgsAt, Good, Tidy, Due, Next, Handle;
    Empty();
    StateFrom(s, c, r);
    var queue := s.msgs[1..];
    var outs := StepSimulates(map[], ROOT, c, r, queue);
    var d := Next(ROOT, c, r);
    assert map[] + NodesOf(ROOT, c) == NodesOf(ROOT, c) && map[] + NodesOf(ROOT, d) == NodesOf(ROOT, d);
    assert queue == MsgsAt(ROOT, c, r)[1..] + MsgsAt(ROOT, c, r + 1);
    assert s.msgs[0] == MsgsAt(ROOT, c, r)[0];
    assert (MsgsAt(ROOT, c, r)[1..] + MsgsAt(ROOT, c, r + 1)) + outs
        == MsgsAt(ROOT, c, r)[1..] + (MsgsAt(ROOT, c, r + 1) + outs);
  }

  lemma NotTerminatedReply(s: State, c: Conf, r: nat)
    requires Matches(s, c, r, []) && MsgsAt(ROOT, c, r) != []
    ensures s.msgs[0] == MsgsAt(ROOT, c, r)[0]
    ensures c.Reply? <==> s.msgs[0].Terminated?
  {
    if !c.Reply? {
      NoneTerminated(ROOT, c, r);
    }
  }

  lemma NextIsNotExec(c: Conf, r: nat)
    requires Due(c, r) && !c.Reply? && !c.Exec?
    ensures !Next(ROOT, c, r).Exec?
  {
  }

  // --- how a run ends --------------------------------------------------------------------------------

  /** With no message queued, no answer comes and nothing is left to do. */
  lemma {:induction false} Quiet(nid: Nid, c: Conf, found: Option<Tree>, r: nat)
    requires Good(nid, c, found) && UpTo(c, r) && AllFrom(c, r + 1)
    ensures Outlook(c) == Never && Left(c) == NOTHING
    decreases c, 0
  {
    hide Eval, Resume, Count, CountResume;
    match c
    case One(_, tree, i, child) => Quiet(nid + [i], child, At(tree.children, i), r);
    case Many(_, tree, cs) =>
      QuietFrom(nid, cs, tree, 0, r);
      AllGone(nid, cs, 0);
      NoneLeft(cs, 0);
      AllDone(Outlooks(cs, 0));
    case _ =>
  }

  lemma {:induction false} QuietFrom(nid: Nid, cs: seq<Conf>, tree: Tree, k: nat, r: nat)
    requires k <= |cs|
    requires forall j :: 0 <= j < |cs| ==> Good(nid + [ConIndex(j)], cs[j], At(tree.children, ConIndex(j)))
    requires forall j :: 0 <= j < |cs| ==> UpTo(cs[j], r) && AllFrom(cs[j], r + 1)
    ensures forall i :: 0 <= i < |Outlooks(cs, k)| ==> Outlooks(cs, k)[i] == Never
    ensures LeftFrom(cs, k) == NOTHING
    decreases cs, |cs| - k
  {
    hide Outlook, Left;
    if k < |cs| {
      Quiet(nid + [ConIndex(k)], cs[k], At(tree.children, ConIndex(k)), r);
      QuietFrom(nid, cs, tree, k + 1, r);
    }
  }

  lemma MatchEnd(s: State, c: Conf, r: nat, launched: seq<Msg>)
    requires Matches(s, c, r, launched) && Ended(s)
    ensures launched == []
    ensures s.msgs == [] ==> Outlook(c) == Never && Left(c) == NOTHING
    ensures s.msgs != [] ==> Left(c) == MESSAGE && Outlook(c).Done? && s == State(map[], [Terminated(ROOT, Outlook(c).payload)])
  {
    if s.msgs == [] {
      Delivers(c, r);
      NextTurn(c, r);
      Delivers(c, r + 1);
      Quiet(ROOT, c, None, r + 1);
    } else {
      var first := if MsgsAt(ROOT, c, r) != [] then r else r + 1;
      assert s.msgs[0] in MsgsAt(ROOT, c, first);
      if !c.Reply? {
        NoneTerminated(ROOT, c, first);
      }
    }
  }

  // --- the theorems ----------------------------------------------------------------------------------

  /** The total number of messages of a run: those the evaluator counts, and the launched event. */
  function Total(t: Tree, p: Payload): nat { Count(t, p).msgs + 1 }

  /** Each state of a run is that of a configuration with the outlook of the evaluator. */
  lemma {:induction false} RunMatches(t: Tree, p: Payload, k: nat) returns (c: Conf, r: nat, launched: seq<Msg>)
    requires k > 0 && !Ended(StateAt(t, p, k - 1))
    ensures Matches(StateAt(t, p, k), c, r, launched)
    ensures Outlook(c) == Eval(t, p)
    ensures Plus(Spent(t, p, k), Rest(c, launched)) == Plus(Count(t, p), MESSAGE)
    decreases k
  {
    hide Outlook, Left, Eval, Count, Step, AfterExe, Matches, StepCost, Plus, Rest;
    if k == 1 {
      FirstStep(t, p);
      ExeMeaning(ROOT, t, p, 0);
      c, r, launched := AfterExe(ROOT, t, p, 1), 1, [Launched(ROOT, p)];
      assert Shift(Eval(t, p), 0) == Eval(t, p);
      FirstSpent(t, p);
    } else {
      var s := StateAt(t, p, k - 1);
      var b, q, l := RunMatches(t, p, k - 1);
      c, r, launched := MatchStep(s, b, q, l);
      PlusLaws(Spent(t, p, k - 1), StepCost(s), Rest(c, launched));
    }
  }

  lemma FirstSpent(t: Tree, p: Payload)
    ensures StateAt(t, p, 1) == Step(Init(t, p))
    ensures Plus(Spent(t, p, 1), Rest(AfterExe(ROOT, t, p, 1), [Launched(ROOT, p)])) == Plus(Count(t, p), MESSAGE)
  {
    hide Outlook, Left, Eval, Count, Step, AfterExe, StepCost, Plus, Spent;
    OneSpent(t, p);
    ExeMeaning(ROOT, t, p, 0);
    var left := Left(AfterExe(ROOT, t, p, 1));
    PlusLaws(EXECUTED, left, MESSAGE);
    PlusLaws(left, MESSAGE, MESSAGE);
  }

  lemma OneSpent(t: Tree, p: Payload)
    ensures Spent(t, p, 1) == EXECUTED
  {
    hide Step, StepCost, Plus;
    FirstStepCost(t, p);
    assert StateAt(t, p, 0) == Init(t, p);
    assert Spent(t, p, 0) == NOTHING;
    PlusLaws(EXECUTED, NOTHING, NOTHING);
  }

  lemma {:induction false} NotEndedBefore(t: Tree, p: Payload, j: nat, k: nat)
    requires j <= k && !Ended(StateAt(t, p, k))
    ensures !Ended(StateAt(t, p, j))
    decreases k - j
  {
    hide Step, Init;
    if j < k {
      NotEndedBefore(t, p, j, k - 1);
    }
  }

  /** A run ends before `Total` messages are handled and one more is asked for. */
  lemma RunIsFinite(t: Tree, p: Payload, k: nat)
    requires k > 0 && !Ended(StateAt(t, p, k - 1))
    ensures k <= Total(t, p)
  {
    hide Outlook, Left, Eval, Count, Matches, StateAt, Spent;
    var _, _, _ := RunMatches(t, p, k);
    SpentMsgs(t, p, k);
  }

  /** The first state that ends the run. */
  lemma Finish(t: Tree, p: Payload) returns (k: nat, c: Conf, r: nat, launched: seq<Msg>)
    ensures k > 0 && !Ended(StateAt(t, p, k - 1)) && Ended(StateAt(t, p, k))
    ensures Matches(StateAt(t, p, k), c, r, launched) && Outlook(c) == Eval(t, p)
    ensures Plus(Spent(t, p, k), Rest(c, launched)) == Plus(Count(t, p), MESSAGE)
  {
    hide Outlook, Left, Eval, Count, Step, Matches, Ended, Total;
    k := 1;
    assert !Ended(StateAt(t, p, 0)) by { NotEndedAtFirst(t, p); }
    while !Ended(StateAt(t, p, k))
      invariant k > 0 && !Ended(StateAt(t, p, k - 1))
      decreases Total(t, p) + 1 - k
    {
      k := k + 1;
      RunIsFinite(t, p, k);
    }
    c, r, launched := RunMatches(t, p, k);
  }

  lemma NotEndedAtFirst(t: Tree, p: Payload)
    ensures !Ended(StateAt(t, p, 0))
  {
  }

  /** Refinement: the run ends with `terminated` and the payload of the evaluator, as the last message and
      with no node left, or with an empty queue exactly when the evaluator has no answer. */
  lemma Refinement(t: Tree, p: Payload)
    ensures Eval(t, p).Done? ==>
      StateAt(t, p, Total(t, p) - 1) == State(map[], [Terminated(ROOT, Eval(t, p).payload)])
    ensures Eval(t, p).Never? ==>
      StateAt(t, p, Total(t, p)).msgs == []
    ensures forall k: nat :: k + 1 < Total(t, p) ==> !Ended(StateAt(t, p, k))
  {
    hide Outlook, Left, Eval, Count, Step, Matches, StateAt, Spent;
    var k, c, r, launched := Finish(t, p);
    MatchEnd(StateAt(t, p, k), c, r, launched);
    SpentMsgs(t, p, k);
    forall j: nat | j < k ensures !Ended(StateAt(t, p, j)) {
      NotEndedBefore(t, p, j, k - 1);
    }
  }

  /** Whenever the loop stops, it has the answer of the evaluator. */
  lemma {:induction false} Endings(t: Tree, p: Payload, k: nat)
    requires Ended(StateAt(t, p, k))
    ensures
      var s := StateAt(t, p, k);
      if s.msgs == [] then Eval(t, p).Never?
      else Eval(t, p).Done? && s == State(map[], [Terminated(ROOT, Eval(t, p).payload)])
    decreases k
  {
    hide Outlook, Left, Eval, Count, Step, Matches, Spent;
    if k == 0 {
      NotEndedAtFirst(t, p);
    } else if Ended(StateAt(t, p, k - 1)) {
      Endings(t, p, k - 1);
    } else {
      var c, r, launched := RunMatches(t, p, k);
      MatchEnd(StateAt(t, p, k), c, r, launched);
    }
  }

  lemma {:induction false} SpentMsgs(t: Tree, p: Payload, k: nat)
    requires k > 0 ==> !Ended(StateAt(t, p, k - 1))
    ensures Spent(t, p, k).msgs == k
  {
    hide Step, Init, Ended;
    if k > 0 {
      if k > 1 {
        hide StepCost;
        assert !Ended(StateAt(t, p, k - 2)) by { NotEndedBefore(t, p, k - 2, k - 1); }
      }
      SpentMsgs(t, p, k - 1);
      CostIsOne(StateAt(t, p, k - 1));
    }
  }

  lemma CostIsOne(s: State)
    requires !Ended(s)
    ensures StepCost(s).msgs == 1
  {
  }

  /** The nodes executed and the messages handled by the engine are those the evaluator counts. */
  lemma SpentIsCount(t: Tree, p: Payload)
    ensures Eval(t, p).Done? ==> Spent(t, p, Total(t, p) - 1) == Count(t, p)
    ensures Eval(t, p).Never? ==> Spent(t, p, Total(t, p)) == Plus(Count(t, p), MESSAGE)
  {
    hide Outlook, Left, Eval, Count, Step, Matches, StateAt, Spent;
    var k, c, r, launched := Finish(t, p);
    MatchEnd(StateAt(t, p, k), c, r, launched);
    SpentMsgs(t, p, k);
  }

  /** A successful run that executes n nodes, of which d are over as they execute, handles 2n + d + 1 messages,
      `launched` and `terminated` included. */
  lemma ExactCount(t: Tree, p: Payload)
    requires Eval(t, p).Done?
    ensures var n := 2 * Count(t, p).nodes + Count(t, p).direct;
      && Spent(t, p, n) == Count(t, p)
      && StateAt(t, p, n).msgs == [Terminated(ROOT, Eval(t, p).payload)]
      && forall k: nat :: k < n ==> !Ended(StateAt(t, p, k))
  {
    hide Eval, Count, StateAt, Spent;
    CountIsExact(t, p);
    SpentIsCount(t, p);
    Refinement(t, p);
  }
}
