/** What becomes of the forms a line is written in: conditions before and behind, `else if`, `set` of several keys, an
    operator at the head. Told from the words of the line and from where they stand. */
module Shapes {
  import opened Values
  import opened Trees
  import opened Rewriting
  import opened Evaluator
  import opened Flows
  import Expressions
  import Instructions
  import Machine

  /** No word that takes a line apart. */
  predicate Inner(atts: seq<Att>) {
    forall i :: 0 <= i < |atts| ==> atts[i].atom !in [Word("then"), Word("else"), Word("if"), Word("unless")]
  }

  predicate Part(atts: seq<Att>) { atts != [] && Inner(atts) }

  // --- lists -------------------------------------------------------------------------------------------------

  /** A word of its own is a head, any other value a `val`, a parenthesised tree itself; of more the first is the head. */
  lemma ListForm(l: seq<Att>, line: nat)
    requires l != []
    ensures |l| > 1 ==> LToTree(l, line) == Tree(l[0].atom, Renumber(l[1..], 0), line, [])
    ensures |l| == 1 && l[0].atom.Sub? ==> LToTree(l, line) == l[0].atom.t
    ensures |l| == 1 && l[0].atom.Lit? && l[0].atom.v.Str? ==> LToTree(l, line) == Tree(l[0].atom, [], line, [])
    ensures |l| == 1 && l[0].atom.Lit? && !l[0].atom.v.Str? ==>
      LToTree(l, line) == Tree(Word("val"), [Att(Index(0), l[0].atom)], line, [])
  {
  }

  lemma {:induction false} RenumberTwice(atts: seq<Att>, from: nat, other: nat)
    ensures Renumber(Renumber(atts, other), from) == Renumber(atts, from)
  {
    hide Renumber;
    var a, b, c := Renumber(Renumber(atts, other), from), Renumber(atts, from), Renumber(atts, other);
    forall i | 0 <= i < |atts| ensures a[i] == b[i] {
      assert c[i].key.Index? <==> atts[i].key.Index?;
      assert a[i].atom == b[i].atom && a[i].key == b[i].key;
    }
  }

  lemma ListRenumbered(l: seq<Att>, line: nat)
    requires l != []
    ensures LToTree(Renumber(l, 0), line) == LToTree(l, line)
  {
    hide VToTree;
    var r := Renumber(l, 0);
    if |l| > 1 {
      assert r[1..] == Renumber(l[1..], 1);
      RenumberTwice(l[1..], 0, 1);
    }
  }

  // --- the parts of a head condition ---------------------------------------------------------------------------

  function AddAll(parts: IfParts, part: Rewriting.Part, atts: seq<Att>): IfParts {
    match part
    case Cond => parts.(cond := parts.cond + atts)
    case Then => parts.(then_ := parts.then_ + atts)
    case Else => parts.(else_ := parts.else_ + atts)
  }

  lemma {:induction false} InnerStays(atts: seq<Att>, rest: seq<Att>, part: Rewriting.Part, parts: IfParts)
    requires Inner(atts)
    ensures SplitIf(atts + rest, part, parts) == SplitIf(rest, part, AddAll(parts, part, atts))
    decreases |atts|
  {
    if atts == [] {
      assert atts + rest == rest;
      assert AddAll(parts, part, atts) == parts;
    } else {
      var next := AddTo(parts, part, atts[0]);
      assert atts[0].atom != Word("then") && atts[0].atom != Word("else");
      assert (atts + rest)[1..] == atts[1..] + rest;
      InnerStays(atts[1..], rest, part, next);
      assert atts == [atts[0]] + atts[1..];
      assert AddAll(next, part, atts[1..]) == AddAll(parts, part, atts);
    }
  }

  const NONE := IfParts([], [], [])

  /** A mark, and what stands behind it. */
  function Marked(k: Key, word: string, atts: seq<Att>): seq<Att> { [Att(k, Word(word))] + atts }

  lemma MarkMoves(k: Key, word: string, rest: seq<Att>, part: Rewriting.Part, parts: IfParts)
    requires word == "then" || word == "else"
    ensures
      var p := if word == "then" then Then else Rewriting.Part.Else;
      SplitIf(Marked(k, word, rest), part, parts) == SplitIf(rest, p, AddTo(parts, p, Att(k, Word(word))))
  {
    assert Marked(k, word, rest)[1..] == rest;
  }

  lemma PartsOf(cond: seq<Att>, kt: Key, x: seq<Att>, ke: Key, y: seq<Att>)
    requires Inner(cond) && Inner(x) && Inner(y)
    ensures SplitIf(cond, Cond, NONE) == IfParts(cond, [], [])
    ensures SplitIf(cond + Marked(kt, "then", x), Cond, NONE) == IfParts(cond, Marked(kt, "then", x), [])
    ensures SplitIf(cond + Marked(ke, "else", y), Cond, NONE) == IfParts(cond, [], Marked(ke, "else", y))
    ensures SplitIf(cond + Marked(kt, "then", x + Marked(ke, "else", y)), Cond, NONE)
         == IfParts(cond, Marked(kt, "then", x), Marked(ke, "else", y))
  {
    hide SplitIf;
    var c, t, e := IfParts(cond, [], []), Att(kt, Word("then")), Att(ke, Word("else"));
    var behind := Marked(ke, "else", y);
    assert [] + cond == cond;
    InnerStays(cond, [], Cond, NONE);
    assert cond + [] == cond;
    Emptied(c, Cond);
    InnerStays(cond, Marked(kt, "then", x), Cond, NONE);
    MarkMoves(kt, "then", x, Cond, c);
    AllOf(x, Then, IfParts(cond, [t], []));
    InnerStays(cond, behind, Cond, NONE);
    MarkMoves(ke, "else", y, Cond, c);
    assert [] + [t] == [t] && [] + [e] == [e];
    AllOf(y, Rewriting.Part.Else, IfParts(cond, [], [e]));
    InnerStays(cond, Marked(kt, "then", x + behind), Cond, NONE);
    MarkMoves(kt, "then", x + behind, Cond, c);
    InnerStays(x, behind, Then, IfParts(cond, [t], []));
    MarkMoves(ke, "else", y, Then, IfParts(cond, [t] + x, []));
    AllOf(y, Rewriting.Part.Else, IfParts(cond, [t] + x, [e]));
  }

  lemma Emptied(parts: IfParts, part: Rewriting.Part)
    ensures SplitIf([], part, parts) == parts
  {
  }

  lemma AllOf(atts: seq<Att>, part: Rewriting.Part, parts: IfParts)
    requires Inner(atts)
    ensures SplitIf(atts, part, parts) == AddAll(parts, part, atts)
  {
    hide SplitIf, AddAll;
    InnerStays(atts, [], part, parts);
    assert atts + [] == atts;
    Emptied(AddAll(parts, part, atts), part);
  }

  /** No trailing condition. */
  predicate NoIfWords(atts: seq<Att>) { forall i :: 0 <= i < |atts| ==> !IsIfWord(atts[i]) }

  lemma Headed(name: string, atts: seq<Att>, line: nat, ts: seq<Tree>)
    requires IfLike(name) && NoIfWords(atts)
    requires IfTrees(SplitIf(atts, Cond, NONE), line).Some?
    ensures
      var parts := SplitIf(atts, Cond, NONE);
      RewriteTree(Tree(Word(name), atts, line, ts))
      == Rewritten(Tree(if parts.then_ == [] then Word(name) else ThenHead(Word(name)), [], line,
                        IfTrees(parts, line).value + ts), true)
  {
    hide SplitIf, IfTrees, Pinfixes, AsVal, ElseIf, PostIf, HeadIf, SetPass;
    var t := Tree(Word(name), atts, line, ts);
    FirstPasses(t);
    HeadIfIs(t);
    LastPasses(HeadIf(t).tree);
  }

  lemma FirstPasses(t: Tree)
    requires IsIfHead(t.head) && NoIfWords(t.atts)
    ensures AsVal(t) == Rewritten(t, false) && ElseIf(t) == Rewritten(t, false) && PostIf(t) == Rewritten(t, false)
  {
    hide RewriteTree;
    assert IfPlace(t.atts) == |t.atts|;
  }

  lemma HeadIfIs(t: Tree)
    requires IsIfHead(t.head) && IfTrees(SplitIf(t.atts, Cond, NONE), t.line).Some?
    ensures
      var parts := SplitIf(t.atts, Cond, NONE);
      HeadIf(t) == Rewritten(Tree(if parts.then_ == [] then t.head else ThenHead(t.head), [], t.line,
                                  IfTrees(parts, t.line).value + t.children), true)
  {
    hide SplitIf, IfTrees;
  }

  lemma LastPasses(d: Tree)
    requires d.atts == [] && (IsIfHead(d.head) || d.head == Word("ife") || d.head == Word("unlesse"))
    ensures SetPass(d) == Rewritten(d, false) && Pinfixes(OPS, d) == Rewritten(d, false)
  {
    hide Pinfixes;
    assert forall op :: op in OPS ==> d.head != Word(op);
    Rewriting.PinfixesIdle(OPS, d);
  }

  /** The instruction of a head condition with a `then`. */
  function Branching(name: string): string {
    if name == "if" then "ife" else if name == "unless" then "unlesse" else "elsif"
  }

  lemma InnerHasNoIf(cond: seq<Att>, kt: Key, x: seq<Att>, ke: Key, y: seq<Att>)
    requires Inner(cond) && Inner(x) && Inner(y)
    ensures NoIfWords(cond) && NoIfWords(cond + Marked(kt, "then", x)) && NoIfWords(cond + Marked(ke, "else", y))
    ensures NoIfWords(cond + Marked(kt, "then", x + Marked(ke, "else", y)))
  {
    assert Word("then") != Word("if") && Word("else") != Word("if");
  }

  /** `if c then x else y`: the branching instruction over `c`, `x` and `y`, in this order, before the lines below. */
  lemma ThenElseForm(name: string, cond: seq<Att>, kt: Key, x: seq<Att>, ke: Key, y: seq<Att>, line: nat, ts: seq<Tree>)
    requires IfLike(name) && Part(cond) && Part(x) && Part(y)
    ensures
      RewriteTree(Tree(Word(name), cond + Marked(kt, "then", x + Marked(ke, "else", y)), line, ts))
      == Rewritten(Tree(Word(Branching(name)), [], line,
                        [LToTree(cond, line), LToTree(x, line), LToTree(y, line)] + ts), true)
  {
    hide RewriteTree, LToTree, SplitIf;
    InnerHasNoIf(cond, kt, x, ke, y);
    PartsOf(cond, kt, x, ke, y);
    assert Marked(kt, "then", x)[1..] == x && Marked(ke, "else", y)[1..] == y;
    Headed(name, cond + Marked(kt, "then", x + Marked(ke, "else", y)), line, ts);
  }

  /** `if c then x`. */
  lemma ThenForm(name: string, cond: seq<Att>, kt: Key, x: seq<Att>, line: nat, ts: seq<Tree>)
    requires IfLike(name) && Part(cond) && Part(x)
    ensures
      RewriteTree(Tree(Word(name), cond + Marked(kt, "then", x), line, ts))
      == Rewritten(Tree(Word(Branching(name)), [], line, [LToTree(cond, line), LToTree(x, line)] + ts), true)
  {
    hide RewriteTree, LToTree, SplitIf;
    InnerHasNoIf(cond, kt, x, kt, []);
    PartsOf(cond, kt, x, kt, []);
    assert Marked(kt, "then", x)[1..] == x;
    Headed(name, cond + Marked(kt, "then", x), line, ts);
  }

  /** `if c`, with the lines below. */
  lemma CondForm(name: string, cond: seq<Att>, line: nat, ts: seq<Tree>)
    requires IfLike(name) && Part(cond)
    ensures RewriteTree(Tree(Word(name), cond, line, ts))
         == Rewritten(Tree(Word(name), [], line, [LToTree(cond, line)] + ts), true)
  {
    hide RewriteTree, LToTree, SplitIf;
    InnerHasNoIf(cond, Index(0), [], Index(0), []);
    PartsOf(cond, Index(0), [], Index(0), []);
    Headed(name, cond, line, ts);
  }

  /** An `else` without a `then` is lost, with all that stands behind it. */
  lemma ElseLost(name: string, cond: seq<Att>, ke: Key, y: seq<Att>, line: nat, ts: seq<Tree>)
    requires IfLike(name) && Part(cond) && Inner(y)
    ensures RewriteTree(Tree(Word(name), cond + Marked(ke, "else", y), line, ts))
         == RewriteTree(Tree(Word(name), cond, line, ts))
  {
    hide RewriteTree, LToTree, SplitIf;
    InnerHasNoIf(cond, ke, [], ke, y);
    PartsOf(cond, ke, [], ke, y);
    Headed(name, cond + Marked(ke, "else", y), line, ts);
    Headed(name, cond, line, ts);
  }

  /** Without a condition the `then` is lost, and the first line below is the condition. */
  lemma ThenAlone(name: string, kt: Key, x: seq<Att>, line: nat, ts: seq<Tree>)
    requires IfLike(name) && Inner(x)
    ensures RewriteTree(Tree(Word(name), Marked(kt, "then", x), line, ts))
         == Rewritten(Tree(Word(Branching(name)), [], line, ts), true)
  {
    hide RewriteTree, LToTree, SplitIf;
    InnerHasNoIf([], kt, x, kt, []);
    PartsOf([], kt, x, kt, []);
    assert [] + Marked(kt, "then", x) == Marked(kt, "then", x) && [] + ts == ts;
    Headed(name, Marked(kt, "then", x), line, ts);
  }

  /** A `then` or an `else` with nothing behind it. */
  lemma NothingBehind(name: string, cond: seq<Att>, kt: Key, x: seq<Att>, ke: Key, line: nat, ts: seq<Tree>)
    requires IfLike(name) && Part(cond) && Part(x)
    ensures RewriteTree(Tree(Word(name), cond + Marked(kt, "then", []), line, ts)).Crash?
    ensures RewriteTree(Tree(Word(name), cond + Marked(kt, "then", x + Marked(ke, "else", [])), line, ts)).Crash?
  {
    hide RewriteTree, LToTree, SplitIf;
    InnerHasNoIf(cond, kt, [], ke, []);
    InnerHasNoIf(cond, kt, x, ke, []);
    PartsOf(cond, kt, [], ke, []);
    PartsOf(cond, kt, x, ke, []);
    HeadCrash(name, cond + Marked(kt, "then", []), line, ts);
    HeadCrash(name, cond + Marked(kt, "then", x + Marked(ke, "else", [])), line, ts);
  }

  lemma HeadCrash(name: string, atts: seq<Att>, line: nat, ts: seq<Tree>)
    requires IfLike(name) && NoIfWords(atts)
    requires IfTrees(SplitIf(atts, Cond, NONE), line).None?
    ensures RewriteTree(Tree(Word(name), atts, line, ts)).Crash?
  {
    hide SplitIf, IfTrees, Pinfixes, AsVal, ElseIf, PostIf;
    FirstPasses(Tree(Word(name), atts, line, ts));
  }

  // --- what they do --------------------------------------------------------------------------------------------

  /** A tree answers as what it is rewritten to, if that is not rewritten any more. */
  lemma As(t: Tree, u: Tree, p: Payload)
    requires RewriteTree(t).Rewritten? && RewriteTree(t).tree == u
    requires RewriteTree(u).Rewritten? && RewriteTree(u).tree == u
    ensures Answer(t, p) == Answer(u, p)
  {
    hide RewriteTree, Answer, Instructions.OpOf;
    SamePrepared(t, u, p);
  }

  /** `if c then x else y` answers as `x`, on ret true, when `c` says yes, and else as `y`, on ret false. */
  lemma IfThenElse(cond: seq<Att>, kt: Key, x: seq<Att>, ke: Key, y: seq<Att>, line: nat, ts: seq<Tree>, p: Payload)
    requires Part(cond) && Part(x) && Part(y)
    ensures
      Answer(Tree(Word("if"), cond + Marked(kt, "then", x + Marked(ke, "else", y)), line, ts), p)
      == match Answer(LToTree(cond, line), p)
         case None => None
         case Some(q) =>
           if Yes(q) then Answer(LToTree(x, line), q["ret" := Bool(true)])
           else Answer(LToTree(y, line), q["ret" := Bool(false)])
  {
    hide RewriteTree, LToTree, Answer;
    var kids := [LToTree(cond, line), LToTree(x, line), LToTree(y, line)] + ts;
    ThenElseForm("if", cond, kt, x, ke, y, line, ts);
    Kept("ife", [], line, kids);
    As(Tree(Word("if"), cond + Marked(kt, "then", x + Marked(ke, "else", y)), line, ts), Tree(Word("ife"), [], line, kids), p);
    IfeChooses([], line, kids, p);
  }

  /** `unless c then x else y`: the other way round. */
  lemma UnlessThenElse(cond: seq<Att>, kt: Key, x: seq<Att>, ke: Key, y: seq<Att>, line: nat, ts: seq<Tree>, p: Payload)
    requires Part(cond) && Part(x) && Part(y)
    ensures
      Answer(Tree(Word("unless"), cond + Marked(kt, "then", x + Marked(ke, "else", y)), line, ts), p)
      == match Answer(LToTree(cond, line), p)
         case None => None
         case Some(q) =>
           if Yes(q) then Answer(LToTree(y, line), q["ret" := Bool(false)])
           else Answer(LToTree(x, line), q["ret" := Bool(true)])
  {
    hide RewriteTree, LToTree, Answer;
    var kids := [LToTree(cond, line), LToTree(x, line), LToTree(y, line)] + ts;
    ThenElseForm("unless", cond, kt, x, ke, y, line, ts);
    Kept("unlesse", [], line, kids);
    As(Tree(Word("unless"), cond + Marked(kt, "then", x + Marked(ke, "else", y)), line, ts),
       Tree(Word("unlesse"), [], line, kids), p);
    UnlesseChooses([], line, kids, p);
  }

  /** `if c then x` with lines below: the first of them is the `else`, and the others never run. */
  lemma IfThen(cond: seq<Att>, kt: Key, x: seq<Att>, line: nat, ts: seq<Tree>, p: Payload)
    requires Part(cond) && Part(x)
    ensures
      Answer(Tree(Word("if"), cond + Marked(kt, "then", x), line, ts), p)
      == match Answer(LToTree(cond, line), p)
         case None => None
         case Some(q) =>
           if Yes(q) then Answer(LToTree(x, line), q["ret" := Bool(true)])
           else if ts == [] then Some(q["ret" := Bool(false)])
           else Answer(ts[0], q["ret" := Bool(false)])
  {
    hide RewriteTree, LToTree, Answer;
    var kids := [LToTree(cond, line), LToTree(x, line)] + ts;
    ThenForm("if", cond, kt, x, line, ts);
    Kept("ife", [], line, kids);
    As(Tree(Word("if"), cond + Marked(kt, "then", x), line, ts), Tree(Word("ife"), [], line, kids), p);
    IfeChooses([], line, kids, p);
  }

  /** `if c` runs the lines below, in turn, when `c` says yes. */
  lemma IfLines(cond: seq<Att>, line: nat, ts: seq<Tree>, p: Payload)
    requires Part(cond)
    ensures
      Answer(Tree(Word("if"), cond, line, ts), p)
      == match Answer(LToTree(cond, line), p)
         case None => None
         case Some(q) => if Yes(q) then InTurn(ts, q) else Some(q)
  {
    hide RewriteTree, LToTree, Answer, InTurn;
    var kids := [LToTree(cond, line)] + ts;
    assert kids[1..] == ts;
    CondForm("if", cond, line, ts);
    Kept("if", [], line, kids);
    As(Tree(Word("if"), cond, line, ts), Tree(Word("if"), [], line, kids), p);
    IfGuards(line, kids, p);
  }

  /** `elsif c then x else y`, after a false ret: when `c` says yes both `x` and `y` run, and neither when it does not. */
  lemma ElsifThenElse(cond: seq<Att>, kt: Key, x: seq<Att>, ke: Key, y: seq<Att>, line: nat, p: Payload)
    requires Part(cond) && Part(x) && Part(y) && SaysFalse(p)
    ensures
      Answer(Tree(Word("elsif"), cond + Marked(kt, "then", x + Marked(ke, "else", y)), line, []), p)
      == match Answer(LToTree(cond, line), p)
         case None => None
         case Some(q) => if Yes(q) then InTurn([LToTree(x, line), LToTree(y, line)], q) else Some(q)
  {
    hide RewriteTree, LToTree, Answer, InTurn;
    var kids := [LToTree(cond, line), LToTree(x, line), LToTree(y, line)] + [];
    assert kids[1..] == [LToTree(x, line), LToTree(y, line)];
    ThenElseForm("elsif", cond, kt, x, ke, y, line, []);
    Kept("elsif", [], line, kids);
    As(Tree(Word("elsif"), cond + Marked(kt, "then", x + Marked(ke, "else", y)), line, []),
       Tree(Word("elsif"), [], line, kids), p);
    ElsifGuards("elsif", line, kids, p);
  }

  /** `else if c`: after a false ret, the lines below, in turn, when `c` says yes. */
  lemma ElseIfLines(cond: seq<Att>, line: nat, ts: seq<Tree>, p: Payload)
    requires Part(cond)
    ensures
      Answer(Tree(Word("else"), Marked(Index(0), "if", cond), line, ts), p)
      == if !SaysFalse(p) then Some(p) else
         match Answer(LToTree(cond, line), p)
         case None => None
         case Some(q) => if Yes(q) then InTurn(ts, q) else Some(q)
  {
    hide RewriteTree, LToTree, Answer, InTurn;
    var kids := [LToTree(cond, line)] + ts;
    assert kids[1..] == ts;
    ElseIfForm(cond, line, ts);
    Kept("elsif", [], line, kids);
    As(Tree(Word("else"), Marked(Index(0), "if", cond), line, ts), Tree(Word("elsif"), [], line, kids), p);
    ElsifGuards("elsif", line, kids, p);
  }

  lemma ElseIfForm(cond: seq<Att>, line: nat, ts: seq<Tree>)
    requires Part(cond)
    ensures RewriteTree(Tree(Word("else"), Marked(Index(0), "if", cond), line, ts))
         == Rewritten(Tree(Word("elsif"), [], line, [LToTree(cond, line)] + ts), true)
  {
    hide PostIf, HeadIf, SetPass, Pinfixes, LToTree;
    var t, u := Tree(Word("else"), Marked(Index(0), "if", cond), line, ts), Tree(Word("elsif"), cond, line, ts);
    assert t.atts[0].key == Index(0) && IsOp(t.atts[0], "if") && t.atts[1..] == cond;
    assert AsVal(t) == Rewritten(t, false) && ElseIf(t) == Rewritten(u, true);
    assert AsVal(u) == Rewritten(u, false) && ElseIf(u) == Rewritten(u, false);
    CondForm("elsif", cond, line, ts);
  }

  // --- conditions behind -----------------------------------------------------------------------------------------

  /** What may stand before a trailing condition: anything but the `else` of an `else if`. */
  predicate Fronts(head: Atom, x: seq<Att>, k: Key, word: string) {
    NoIfWords(x) && (word == "if" || word == "unless") && (head == Word("else") ==> word == "unless" || k != Index(0))
  }

  /** `x if c`: the branching instruction over `c` and `x`, which keeps the lines below. */
  lemma PostForm(head: Atom, x: seq<Att>, k: Key, word: string, cond: seq<Att>, line: nat, ts: seq<Tree>)
    requires Fronts(head, x, k, word) && Part(cond)
    ensures
      RewriteTree(Tree(head, x + Marked(k, word, cond), line, ts))
      == Rewritten(Tree(Word(if word == "if" then "ife" else "unlesse"), [], line,
                        [LToTree(cond, line), Tree(head, x, line, ts)]), true)
  {
    hide RewriteTree, LToTree, Renumber, HeadIf, SetPass, Pinfixes;
    var t := Tree(head, x + Marked(k, word, cond), line, ts);
    PostIs(head, x, k, word, cond, line, ts);
    var u := Tree(Word(if word == "if" then "ife" else "unlesse"), [], line, [LToTree(cond, line), Tree(head, x, line, ts)]);
    Settles(t, u);
  }

  /** The passes behind leave a branch alone. */
  lemma Settles(t: Tree, u: Tree)
    requires AsVal(t) == Rewritten(t, false) && ElseIf(t) == Rewritten(t, false) && PostIf(t) == Rewritten(u, true)
    requires (u.head == Word("ife") || u.head == Word("unlesse")) && u.atts == []
    ensures RewriteTree(t) == Rewritten(u, true)
  {
    hide PostIf, AsVal, ElseIf;
    BranchRest(u);
  }

  lemma PostIs(head: Atom, x: seq<Att>, k: Key, word: string, cond: seq<Att>, line: nat, ts: seq<Tree>)
    requires Fronts(head, x, k, word) && Part(cond)
    ensures
      var t := Tree(head, x + Marked(k, word, cond), line, ts);
      var u := Tree(Word(if word == "if" then "ife" else "unlesse"), [], line, [LToTree(cond, line), Tree(head, x, line, ts)]);
      AsVal(t) == Rewritten(t, false) && ElseIf(t) == Rewritten(t, false) && PostIf(t) == Rewritten(u, true)
  {
    hide RewriteTree, LToTree, Renumber;
    var t := Tree(head, x + Marked(k, word, cond), line, ts);
    PlaceIs(x, k, word, cond);
    var l := t.atts[IfPlace(t.atts)..];
    assert l == Marked(k, word, cond) && l[1..] == cond && t.atts[..|x|] == x;
    ListForm(l, line);
    var inner := Renumber(cond, 0);
    assert Part(inner);
    CondForm(word, inner, line, []);
    ListRenumbered(cond, line);
    assert [LToTree(cond, line)] + [] == [LToTree(cond, line)];
    assert RewriteTree(LToTree(l, line)) == Rewritten(Tree(Word(word), [], line, [LToTree(cond, line)]), true);
    assert [LToTree(cond, line)] + [Tree(head, x, line, ts)] == [LToTree(cond, line), Tree(head, x, line, ts)];
    assert word[0] == 'i' <==> word == "if";
  }

  lemma {:induction false} PlaceIs(x: seq<Att>, k: Key, word: string, cond: seq<Att>)
    requires NoIfWords(x) && (word == "if" || word == "unless")
    ensures IfPlace(x + Marked(k, word, cond)) == |x|
  {
    var atts := x + Marked(k, word, cond);
    assert IsIfWord(atts[|x|]);
    assert forall i :: 0 <= i < |x| ==> atts[i] == x[i];
  }

  /** `x if c` answers as `x`, on ret true, when `c` says yes, and with ret false when it does not. */
  lemma PostIfRuns(head: Atom, x: seq<Att>, k: Key, cond: seq<Att>, line: nat, ts: seq<Tree>, p: Payload)
    requires Fronts(head, x, k, "if") && Part(cond)
    ensures
      Answer(Tree(head, x + Marked(k, "if", cond), line, ts), p)
      == match Answer(LToTree(cond, line), p)
         case None => None
         case Some(q) =>
           if Yes(q) then Answer(Tree(head, x, line, ts), q["ret" := Bool(true)]) else Some(q["ret" := Bool(false)])
  {
    hide RewriteTree, LToTree, Answer;
    var kids := [LToTree(cond, line), Tree(head, x, line, ts)];
    PostForm(head, x, k, "if", cond, line, ts);
    Kept("ife", [], line, kids);
    As(Tree(head, x + Marked(k, "if", cond), line, ts), Tree(Word("ife"), [], line, kids), p);
    IfeChooses([], line, kids, p);
  }

  /** `x unless c`: the other way round. */
  lemma PostUnlessRuns(head: Atom, x: seq<Att>, k: Key, cond: seq<Att>, line: nat, ts: seq<Tree>, p: Payload)
    requires Fronts(head, x, k, "unless") && Part(cond)
    ensures
      Answer(Tree(head, x + Marked(k, "unless", cond), line, ts), p)
      == match Answer(LToTree(cond, line), p)
         case None => None
         case Some(q) =>
           if Yes(q) then Some(q["ret" := Bool(false)]) else Answer(Tree(head, x, line, ts), q["ret" := Bool(true)])
  {
    hide RewriteTree, LToTree, Answer;
    var kids := [LToTree(cond, line), Tree(head, x, line, ts)];
    PostForm(head, x, k, "unless", cond, line, ts);
    Kept("unlesse", [], line, kids);
    As(Tree(head, x + Marked(k, "unless", cond), line, ts), Tree(Word("unlesse"), [], line, kids), p);
    UnlesseChooses([], line, kids, p);
  }

  /** `else unless c` never runs the lines below: once `c` has said no, the ret is no longer false. */
  lemma ElseUnlessNeverRuns(k: Key, cond: seq<Att>, line: nat, ts: seq<Tree>, p: Payload)
    requires Part(cond)
    ensures
      Answer(Tree(Word("else"), Marked(k, "unless", cond), line, ts), p)
      == match Answer(LToTree(cond, line), p)
         case None => None
         case Some(q) => Some(q["ret" := Bool(!Yes(q))])
  {
    hide RewriteTree, LToTree, Answer;
    assert [] + Marked(k, "unless", cond) == Marked(k, "unless", cond);
    PostUnlessRuns(Word("else"), [], k, cond, line, ts, p);
    var a := Answer(LToTree(cond, line), p);
    if a.Some? { ElseRuns(line, ts, a.value["ret" := Bool(true)]); }
  }

  // --- several keys ----------------------------------------------------------------------------------------------

  /** Values that stand for themselves on a line. */
  predicate Itself(v: Value) { v.Str? ==> !Reserved(v.s) && !IsSignal(v.s) }

  /** A field of the payload, by its bare name. */
  predicate Bare(n: string) { '.' !in n && (n == "" || n[0] != 'd') && !IsSignal(n) }

  function Keyed(es: seq<(string, Value)>): (atts: seq<Att>)
    ensures |atts| == |es| && forall i :: 0 <= i < |es| ==> atts[i] == Att(Name(es[i].0), Lit(es[i].1))
  {
    if es == [] then [] else [Att(Name(es[0].0), Lit(es[0].1))] + Keyed(es[1..])
  }

  /** Each value becomes the ret, and the field of its name. */
  function AllSet(es: seq<(string, Value)>, p: Payload): Payload {
    if es == [] then p else AllSet(es[1..], p["ret" := es[0].1][es[0].0 := es[0].1])
  }

  lemma ItselfAnswers(v: Value, line: nat, p: Payload)
    requires Itself(v)
    ensures Answer(VToTree(Lit(v), line), p) == Some(p["ret" := v])
  {
    hide Answer;
    if v.Str? {
      WordAnswers(v.s, line, p);
    } else {
      ValAnswers(v, [], line, [], p);
      assert [Att(Index(0), Lit(v))] + [] == [Att(Index(0), Lit(v))];
    }
  }

  lemma OneSet(e: (string, Value), line: nat, p: Payload)
    requires Bare(e.0) && Itself(e.1)
    ensures Answer(SetTree(Att(Name(e.0), Lit(e.1)), line), p) == Some(p["ret" := e.1][e.0 := e.1])
  {
    hide Answer, VToTree;
    var t := VToTree(Lit(e.1), line);
    ItselfAnswers(e.1, line, p);
    assert [Att(Index(0), Word(e.0))] + [] == [Att(Index(0), Word(e.0))];
    SetAnswers(Index(0), e.0, [], line, [t], e.0, p);
  }

  lemma {:induction false} SetsInTurn(es: seq<(string, Value)>, line: nat, p: Payload)
    requires forall i :: 0 <= i < |es| ==> Bare(es[i].0) && Itself(es[i].1)
    ensures |Sets(Keyed(es), line)| == |es| && InTurn(Sets(Keyed(es), line), p) == Some(AllSet(es, p))
    decreases |es|
  {
    hide Answer, SetTree;
    if es != [] {
      OneSet(es[0], line, p);
      assert Keyed(es)[1..] == Keyed(es[1..]);
      var sets := Sets(Keyed(es), line);
      assert sets[1..] == Sets(Keyed(es[1..]), line);
      SetsInTurn(es[1..], line, p["ret" := es[0].1][es[0].0 := es[0].1]);
    }
  }

  /** `set a: 1 b: 2` sets each key to its value, from left to right. */
  lemma SetsAll(es: seq<(string, Value)>, line: nat, p: Payload)
    requires es != [] && forall i :: 0 <= i < |es| ==> Bare(es[i].0) && Itself(es[i].1)
    ensures Answer(Tree(Word("set"), Keyed(es), line, []), p) == Some(AllSet(es, p))
  {
    hide Answer, RewriteTree, SetTree, InTurn, Sets, AllSet, Bare;
    var t, sets := Tree(Word("set"), Keyed(es), line, []), Sets(Keyed(es), line);
    SetsInTurn(es, line, p);
    SetForm(es, line);
    if |es| == 1 {
      OneKey(es, line);
      OneSet(es[0], line, p);
      KeptSet(es[0], line);
      As(t, sets[0], p);
      AllSetOne(es, p);
    } else {
      Kept("sequence", [], line, sets);
      As(t, Tree(Word("sequence"), [], line, sets), p);
      SequenceRuns([], line, sets, p);
    }
  }

  lemma AllSetOne(es: seq<(string, Value)>, p: Payload)
    requires |es| == 1
    ensures AllSet(es, p) == p["ret" := es[0].1][es[0].0 := es[0].1]
  {
    assert es[1..] == [];
  }

  lemma OneKey(es: seq<(string, Value)>, line: nat)
    requires |es| == 1
    ensures Sets(Keyed(es), line) == [SetTree(Att(Name(es[0].0), Lit(es[0].1)), line)]
  {
    var atts := Keyed(es);
    assert atts[1..] == [];
  }

  lemma KeptSet(e: (string, Value), line: nat)
    requires Bare(e.0)
    ensures RewriteTree(SetTree(Att(Name(e.0), Lit(e.1)), line))
         == Rewritten(SetTree(Att(Name(e.0), Lit(e.1)), line), false)
  {
    hide VToTree, RewriteTree;
    Kept("set", [Att(Index(0), Word(e.0))], line, [VToTree(Lit(e.1), line)]);
  }

  /** `set` of keys and values, without lines below: one `set` for each of them, in a sequence when there are several. */
  lemma SetForm(es: seq<(string, Value)>, line: nat)
    requires es != [] && forall i :: 0 <= i < |es| ==> Bare(es[i].0) && Itself(es[i].1)
    ensures
      var sets := Sets(Keyed(es), line);
      && |sets| == |es|
      && RewriteTree(Tree(Word("set"), Keyed(es), line, []))
         == Rewritten(if |es| == 1 then sets[0] else Tree(Word("sequence"), [], line, sets), true)
  {
    hide Sets, Pinfixes, SetTree, Bare;
    var t, sets := Tree(Word("set"), Keyed(es), line, []), Sets(Keyed(es), line);
    SetsSize(es, line);
    KeyedQuiet(es);
    QuietPlace(t.atts);
    assert AsVal(t) == ElseIf(t) == PostIf(t) == HeadIf(t) == Rewritten(t, false);
    var u := SetPass(t).tree;
    OpsAreSignals();
    if |es| == 1 {
      OneKey(es, line);
      NoSigns(es[0], line);
    } else {
      NoOperators(OPS, u);
    }
  }

  lemma NoSigns(e: (string, Value), line: nat)
    requires Bare(e.0)
    ensures var u := SetTree(Att(Name(e.0), Lit(e.1)), line); Pinfixes(OPS, u) == Rewritten(u, false)
  {
    hide Pinfixes, VToTree;
    OpsAreSignals();
    NoOperators(OPS, SetTree(Att(Name(e.0), Lit(e.1)), line));
  }

  lemma KeyedQuiet(es: seq<(string, Value)>)
    requires forall i :: 0 <= i < |es| ==> Itself(es[i].1)
    ensures Quiet(Keyed(es))
  {
    hide IsSignal;
  }

  lemma {:induction false} SetsSize(es: seq<(string, Value)>, line: nat)
    ensures |Sets(Keyed(es), line)| == |es|
  {
    hide SetTree;
    if es != [] {
      assert Keyed(es)[1..] == Keyed(es[1..]);
      SetsSize(es[1..], line);
    }
  }

  /** `set` of a key alone sets nothing. */
  lemma SetNothing(atts: seq<Att>, line: nat, p: Payload)
    requires Quiet(atts) && forall i :: 0 <= i < |atts| ==> atts[i].key.Index?
    ensures Answer(Tree(Word("set"), atts, line, []), p) == Some(p)
  {
    hide Answer, RewriteTree;
    var t := Tree(Word("set"), atts, line, []);
    if atts == [] {
      Means("set", [], line, [], p);
    } else {
      NothingForm(t);
      Kept("sequence", [], line, []);
      As(t, Tree(Word("sequence"), [], line, []), p);
      SequenceRuns([], line, [], p);
    }
  }

  lemma NothingForm(t: Tree)
    requires t.head == Word("set") && t.atts != [] && Quiet(t.atts) && t.children == []
    requires forall i :: 0 <= i < |t.atts| ==> t.atts[i].key.Index?
    ensures RewriteTree(t) == Rewritten(Tree(Word("sequence"), [], t.line, []), true)
  {
    hide Pinfixes;
    QuietPlace(t.atts);
    NoNames(t.atts, t.line);
    OpsAreSignals();
    NoOperators(OPS, Tree(Word("sequence"), [], t.line, []));
  }

  lemma {:induction false} NoNames(atts: seq<Att>, line: nat)
    requires forall i :: 0 <= i < |atts| ==> atts[i].key.Index?
    ensures Sets(atts, line) == []
  {
    if atts != [] { NoNames(atts[1..], line); }
  }

  // --- operators at the head -------------------------------------------------------------------------------------

  /** `+ 1 2`: the operator over its attributes, each a tree of its own. */
  lemma PrefixForm(op: string, atts: seq<Att>, line: nat)
    requires op in OPS && op != "%" && Quiet(atts)
    ensures
      RewriteTree(Tree(Word(op), atts, line, []))
      == Rewritten(Tree(Word(op), [], line, seq(|atts|, i requires 0 <= i < |atts| => VToTree(atts[i].atom, line))), true)
  {
    hide Pinfixes, VToTree, AsVal, ElseIf, PostIf, HeadIf, SetPass;
    var t := Tree(Word(op), atts, line, []);
    OperatorHead(t, op);
    OpsAreSignals();
    Expressions.Distinct();
    var k :| 0 <= k < |OPS| && OPS[k] == op;
    PrefixAt(OPS, k, t);
    assert AttTrees(atts, line) == seq(|atts|, i requires 0 <= i < |atts| => VToTree(atts[i].atom, line));
  }

  lemma OperatorHead(t: Tree, op: string)
    requires op in OPS && op != "%" && t.head == Word(op) && Quiet(t.atts)
    ensures AsVal(t) == ElseIf(t) == PostIf(t) == HeadIf(t) == SetPass(t) == Rewritten(t, false)
  {
    hide RewriteTree;
    QuietPlace(t.atts);
  }

  lemma {:induction false} PrefixAt(ops: seq<string>, k: nat, t: Tree)
    requires k < |ops| && t.head == Word(ops[k]) && t.children == [] && Quiet(t.atts)
    requires forall op :: op in ops ==> IsSignal(op)
    requires forall i, j :: 0 <= i < j < |ops| ==> ops[i] != ops[j]
    ensures Pinfixes(ops, t) == Rewritten(Tree(t.head, [], t.line, AttTrees(t.atts, t.line)), true)
  {
    hide IsSignal, AttTrees;
    assert !Sees(ops[0], t.atts);
    if k > 0 {
      PrefixAt(ops[1..], k - 1, t);
    } else {
      var u := Tree(t.head, [], t.line, AttTrees(t.atts, t.line));
      assert forall op :: op in ops[1..] ==> op in ops && u.head != Word(op);
      NoOperators(ops[1..], u);
    }
  }
}
