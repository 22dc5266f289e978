/** Chains of `+` and `-`, or of `*` and `/`, over integers. The operators are split one after the other, `+`
    before `-` and `*` before `/`: sums come out as if read from left to right, products only when no
    division follows a multiplication. */
module Chains {
  import opened Values
  import opened Instructions
  import opened Expressions
  import R = Rewriting

  datatype Link = Link(op: char, x: int)

  datatype Chain = Chain(x: int, links: seq<Link>)

  function SpellLinks(links: seq<Link>): seq<Token> {
    if links == [] then [] else [Sign([links[0].op]), Operand(IntValue(links[0].x))] + SpellLinks(links[1..])
  }

  function Spell(c: Chain): seq<Token> { [Operand(IntValue(c.x))] + SpellLinks(c.links) }

  /** The value from left to right, in exact integers; None is a division by zero. */
  function InOrder(acc: int, links: seq<Link>): Option<int>
    decreases |links|
  {
    if links == [] then Some(acc) else
    var r := Apply(links[0].op, acc, links[0].x);
    if r.None? then None else InOrder(r.value, links[1..])
  }

  predicate IsSum(op: char) { op == '+' || op == '-' }

  predicate IsProduct(op: char) { op == '*' || op == '/' }

  // --- integers as operands --------------------------------------------------------------------------

  lemma IntNumber(i: int)
    ensures Number(IntValue(i)) == i && '.' !in Text(IntValue(i))
  {
    ReadIntText(i);
  }

  function Ints(xs: seq<int>): (vs: seq<Value>)
    ensures |vs| == |xs| && forall i :: 0 <= i < |xs| ==> vs[i] == IntValue(xs[i])
  {
    if xs == [] then [] else [IntValue(xs[0])] + Ints(xs[1..])
  }

  lemma IntsAreWhole(xs: seq<int>)
    ensures !Doubles(Ints(xs))
  {
    hide IntValue, Text;
    forall v | v in Ints(xs) ensures '.' !in Text(v) {
      var i :| 0 <= i < |xs| && v == IntValue(xs[i]);
      IntNumber(xs[i]);
    }
  }

  // --- groups ------------------------------------------------------------------------------------------

  /** The chains between the operators `op`; `cur` is the one being filled. */
  function Groups(op: char, cur: Chain, links: seq<Link>): (gs: seq<Chain>)
    ensures gs != []
    decreases |links|
  {
    if links == [] then [cur]
    else if links[0].op == op then [cur] + Groups(op, Chain(links[0].x, []), links[1..])
    else Groups(op, cur.(links := cur.links + [links[0]]), links[1..])
  }

  function SpellAll(gs: seq<Chain>): seq<seq<Token>> {
    if gs == [] then [] else [Spell(gs[0])] + SpellAll(gs[1..])
  }

  lemma {:induction false} SpellAppend(a: seq<Link>, b: seq<Link>)
    ensures SpellLinks(a + b) == SpellLinks(a) + SpellLinks(b)
  {
    if a == [] {
      assert a + b == b;
    } else {
      assert (a + b)[1..] == a[1..] + b;
      SpellAppend(a[1..], b);
    }
  }

  lemma {:induction false} SplitChain(op: char, cur: Chain, links: seq<Link>)
    ensures Split([op], Spell(cur), SpellLinks(links)) == SpellAll(Groups(op, cur, links))
    decreases |links|
  {
    hide IntValue;
    if links == [] {
      assert SpellAll([cur])[1..] == [];
    } else {
      var ts := SpellLinks(links);
      var l := links[0];
      var rest := SpellLinks(links[1..]);
      assert ts[0] == Sign([l.op]) && ts[1..] == [Operand(IntValue(l.x))] + rest && ts[1..][1..] == rest;
      if l.op == op {
        var first := [Operand(IntValue(l.x))];
        assert Split([op], [], ts[1..]) == Split([op], [] + first, rest);
        assert [] + first == Spell(Chain(l.x, []));
        SplitChain(op, Chain(l.x, []), links[1..]);
        var gs := Groups(op, cur, links);
        assert gs[1..] == Groups(op, Chain(l.x, []), links[1..]);
      } else {
        var longer := cur.(links := cur.links + [l]);
        SpellAppend(cur.links, [l]);
        assert SpellLinks([l]) == [Sign([l.op]), Operand(IntValue(l.x))] by { assert [l][1..] == []; }
        assert Spell(cur) + [ts[0]] + [ts[1]] == Spell(longer);
        SplitChain(op, longer, links[1..]);
      }
    }
  }

  lemma {:induction false} SignsOfLinks(op: char, links: seq<Link>)
    ensures Sign([op]) in SpellLinks(links) <==> exists i :: 0 <= i < |links| && links[i].op == op
  {
    if links != [] {
      SignsOfLinks(op, links[1..]);
      var ts := SpellLinks(links);
      assert ts[0] == Sign([links[0].op]) && ts == [ts[0], ts[1]] + SpellLinks(links[1..]);
      if Sign([op]) in SpellLinks(links[1..]) {
        var i :| 0 <= i < |links[1..]| && links[1..][i].op == op;
        assert links[i + 1].op == op;
      }
      if i :| 0 <= i < |links| && links[i].op == op {
        if i > 0 { assert links[1..][i - 1].op == op; }
      }
    }
  }

  lemma Signs(op: char, c: Chain)
    ensures Sign([op]) in Spell(c) <==> exists i :: 0 <= i < |c.links| && c.links[i].op == op
  {
    SignsOfLinks(op, c.links);
  }

  /** The first of the operators of a chain in OPS. */
  predicate Loosest(c: Chain, op: char, k: nat) {
    && k < |R.OPS| && R.OPS[k] == [op]
    && (exists i :: 0 <= i < |c.links| && c.links[i].op == op)
    && (forall i, j :: 0 <= i < |c.links| && 0 <= j < k ==> R.OPS[j] != [c.links[i].op])
  }

  /** A chain is read group by group. */
  lemma WorthOfChain(c: Chain, op: char, k: nat)
    requires Loosest(c, op, k) && (IsSum(op) || IsProduct(op))
    ensures
      var gs := Groups(op, Chain(c.x, []), c.links);
      |gs| > 1 && Worth(R.OPS, Spell(c)) == Combined([op], Worths(R.OPS, SpellAll(gs)))
  {
    hide Worth, Worths, Combined, IntValue;
    var ts := Spell(c);
    Signs(op, c);
    forall j | 0 <= j < k ensures Sign(R.OPS[j]) !in ts {
      if Sign(R.OPS[j]) in ts {
        SignIsLink(R.OPS[j], c);
      }
    }
    WorthOfParts(ts, k);
    SplitChain(op, Chain(c.x, []), c.links);
    assert ts[1..] == SpellLinks(c.links) && [] + [ts[0]] == Spell(Chain(c.x, []));
    assert Split([op], [], ts) == Split([op], [] + [ts[0]], ts[1..]);
    SpellAllSize(Groups(op, Chain(c.x, []), c.links));
  }

  lemma {:induction false} LinkSign(op: string, links: seq<Link>)
    requires Sign(op) in SpellLinks(links)
    ensures |op| == 1
  {
    if links != [] && op != [links[0].op] {
      assert SpellLinks(links) == [Sign([links[0].op]), Operand(IntValue(links[0].x))] + SpellLinks(links[1..]);
      LinkSign(op, links[1..]);
    }
  }

  lemma SignIsLink(op: string, c: Chain)
    requires Sign(op) in Spell(c)
    ensures exists i :: 0 <= i < |c.links| && [c.links[i].op] == op
  {
    LinkSign(op, c.links);
    assert op == [op[0]];
    Signs(op[0], c);
  }

  lemma {:induction false} SpellAllSize(gs: seq<Chain>)
    ensures |SpellAll(gs)| == |gs|
  {
    if gs != [] {
      SpellAllSize(gs[1..]);
    }
  }

  // --- chains of one operator ----------------------------------------------------------------------------

  function Operands(c: Chain): seq<int> { [c.x] + Xs(c.links) }

  function Xs(links: seq<Link>): seq<int> {
    if links == [] then [] else [links[0].x] + Xs(links[1..])
  }

  lemma {:induction false} GroupsOfOne(op: char, cur: Chain, links: seq<Link>)
    requires cur.links == [] && forall i :: 0 <= i < |links| ==> links[i].op == op
    ensures Worths(R.OPS, SpellAll(Groups(op, cur, links))) == Some(Ints([cur.x] + Xs(links)))
    decreases |links|
  {
    hide Worth, IntValue;
    var all := Ints([cur.x] + Xs(links));
    SingleChain(cur);
    assert ([cur.x] + Xs(links))[1..] == Xs(links);
    if links == [] {
      assert SpellAll([cur])[1..] == [];
    } else {
      GroupsOfOne(op, Chain(links[0].x, []), links[1..]);
      var gs := Groups(op, cur, links);
      assert gs[1..] == Groups(op, Chain(links[0].x, []), links[1..]);
      assert [links[0].x] + Xs(links[1..]) == Xs(links);
    }
  }

  lemma SingleChain(c: Chain)
    requires c.links == []
    ensures Worth(R.OPS, Spell(c)) == Some(IntValue(c.x))
  {
    hide Worth;
    SingleWorth(Spell(c));
  }

  lemma {:induction false} FoldInOrder(op: char, acc: int, links: seq<Link>)
    requires forall i :: 0 <= i < |links| ==> links[i].op == op
    ensures FoldFrom(op, acc, Ints(Xs(links))) == InOrder(acc, links)
    decreases |links|
  {
    hide IntValue, Number;
    if links != [] {
      IntNumber(links[0].x);
      assert Ints(Xs(links))[1..] == Ints(Xs(links[1..]));
      var r := Apply(op, acc, links[0].x);
      if r.Some? {
        FoldInOrder(op, r.value, links[1..]);
      }
    }
  }

  /** A chain of one operator is read from left to right. */
  lemma UniformChain(c: Chain, op: char, k: nat)
    requires Loosest(c, op, k) && (IsSum(op) || IsProduct(op))
    requires forall i :: 0 <= i < |c.links| ==> c.links[i].op == op
    ensures
      var r := InOrder(c.x, c.links);
      Worth(R.OPS, Spell(c)) == if r.None? then None else Some(IntValue(Wrap32(r.value)))
  {
    hide Worth, Worths, IntValue, Number, Doubles, Wrap32;
    WorthOfChain(c, op, k);
    GroupsOfOne(op, Chain(c.x, []), c.links);
    var xs := Operands(c);
    IntsAreWhole(xs);
    IntNumber(c.x);
    FoldInOrder(op, c.x, c.links);
    assert Ints(xs)[1..] == Ints(Xs(c.links));
    assert OpNamed([op]) == Arith(op);
  }

  // --- sums ------------------------------------------------------------------------------------------------

  /** What a chain answers when it does not fail: its only operand, or 32 bits of its value. */
  function Answer(c: Chain, value: int): int { if c.links == [] then c.x else Wrap32(value) }

  function Exact(c: Chain): int {
    var r := InOrder(c.x, c.links);
    if r.Some? then r.value else 0
  }

  predicate Congruent(a: int, b: int) { (a - b) % 0x1_0000_0000 == 0 }

  lemma WrapCongruent(a: int, b: int)
    ensures Congruent(Wrap32(a), a)
    ensures Congruent(a, b) ==> Wrap32(a) == Wrap32(b)
  {
    var half, full := 0x8000_0000, 0x1_0000_0000;
    var k, r := (b + half) / full, (b + half) % full;
    assert Wrap32(a) - a == -((a + half) / full) * full;
    if Congruent(a, b) {
      var q := (a - b) / full;
      assert a + half == (k + q) * full + r;
    }
  }

  lemma CongruentSums(a: int, b: int, c: int, d: int)
    requires Congruent(a, b) && Congruent(c, d)
    ensures Congruent(c + a, d + b)
  {
  }

  lemma CongruentProducts(a: int, b: int, c: int)
    requires Congruent(a, b)
    ensures Congruent(a * c, b * c)
  {
    var q := (a - b) / 0x1_0000_0000;
    assert a - b == 0x1_0000_0000 * q;
    assert a * c - b * c == (a - b) * c == 0x1_0000_0000 * (q * c);
  }

  lemma {:induction false} SumsAreSome(acc: int, links: seq<Link>, more: int)
    requires forall i :: 0 <= i < |links| ==> IsSum(links[i].op)
    ensures InOrder(acc, links).Some? && InOrder(acc + more, links) == Some(InOrder(acc, links).value + more)
    decreases |links|
  {
    if links != [] {
      var l := links[0];
      SumsAreSome(if l.op == '+' then acc + l.x else acc - l.x, links[1..], more);
    }
  }

  lemma {:induction false} InOrderAppend(acc: int, a: seq<Link>, b: seq<Link>)
    ensures
      var r := InOrder(acc, a);
      InOrder(acc, a + b) == if r.None? then None else InOrder(r.value, b)
    decreases |a|
  {
    if a == [] {
      assert a + b == b;
    } else {
      assert (a + b)[1..] == a[1..] + b;
      var r := Apply(a[0].op, acc, a[0].x);
      if r.Some? {
        InOrderAppend(r.value, a[1..], b);
      }
    }
  }

  // --- groups of one operator, under another one -----------------------------------------------------------

  /** What each group answers. */
  function Ys(gs: seq<Chain>): (ys: seq<int>)
    ensures |ys| == |gs| && forall i :: 0 <= i < |gs| ==> ys[i] == Answer(gs[i], Exact(gs[i]))
  {
    if gs == [] then [] else [Answer(gs[0], Exact(gs[0]))] + Ys(gs[1..])
  }

  predicate Uniform(c: Chain, op: char) { forall i :: 0 <= i < |c.links| ==> c.links[i].op == op }

  lemma {:induction false} GroupsUniform(op: char, other: char, cur: Chain, links: seq<Link>)
    requires Uniform(cur, other) && forall i :: 0 <= i < |links| ==> links[i].op == op || links[i].op == other
    ensures forall g :: g in Groups(op, cur, links) ==> Uniform(g, other)
    decreases |links|
  {
    if links != [] {
      if links[0].op == op {
        GroupsUniform(op, other, Chain(links[0].x, []), links[1..]);
      } else {
        GroupsUniform(op, other, cur.(links := cur.links + [links[0]]), links[1..]);
      }
    }
  }

  /** The place of an arithmetic operator among OPS. */
  function Place(op: char): (k: nat)
    requires IsSum(op) || IsProduct(op)
    ensures k < |R.OPS| && R.OPS[k] == [op]
    ensures forall j :: 0 <= j < k ==> R.OPS[j] != [op]
  {
    if op == '+' then 10 else if op == '-' then 11 else if op == '*' then 12 else 13
  }

  lemma UniformWorth(c: Chain, op: char)
    requires Uniform(c, op) && (IsSum(op) || IsProduct(op))
    ensures Worth(R.OPS, Spell(c)) ==
      if InOrder(c.x, c.links).None? then None else Some(IntValue(Answer(c, Exact(c))))
  {
    hide Worth, IntValue;
    if c.links == [] {
      SingleChain(c);
    } else {
      var k := Place(op);
      assert c.links[0].op == op;
      UniformChain(c, op, k);
    }
  }

  lemma {:induction false} GroupWorths(gs: seq<Chain>, op: char)
    requires IsSum(op) || IsProduct(op)
    requires forall g :: g in gs ==> Uniform(g, op) && InOrder(g.x, g.links).Some?
    ensures Worths(R.OPS, SpellAll(gs)) == Some(Ints(Ys(gs)))
  {
    hide Worth, IntValue, Exact;
    if gs != [] {
      UniformWorth(gs[0], op);
      GroupWorths(gs[1..], op);
    }
  }

  function Pairs(op: char, ys: seq<int>): (links: seq<Link>)
    ensures |links| == |ys| && forall i :: 0 <= i < |ys| ==> links[i] == Link(op, ys[i])
  {
    if ys == [] then [] else [Link(op, ys[0])] + Pairs(op, ys[1..])
  }

  lemma {:induction false} PairsXs(op: char, ys: seq<int>)
    ensures Xs(Pairs(op, ys)) == ys
  {
    if ys != [] {
      PairsXs(op, ys[1..]);
    }
  }

  lemma CombinedInts(op: char, ys: seq<int>)
    requires ys != [] && (IsSum(op) || IsProduct(op))
    ensures
      var r := InOrder(ys[0], Pairs(op, ys[1..]));
      Combined([op], Some(Ints(ys))) == if r.None? then None else Some(IntValue(Wrap32(r.value)))
  {
    hide IntValue, Number, Doubles, Wrap32;
    IntsAreWhole(ys);
    IntNumber(ys[0]);
    PairsXs(op, ys[1..]);
    FoldInOrder(op, ys[0], Pairs(op, ys[1..]));
    assert Ints(ys)[1..] == Ints(ys[1..]);
    assert OpNamed([op]) == Arith(op);
  }

  /** A chain whose groups all answer is the chain of their answers. */
  lemma GroupedWorth(c: Chain, op: char, other: char, k: nat)
    requires Loosest(c, op, k) && (IsSum(op) || IsProduct(op)) && (IsSum(other) || IsProduct(other))
    requires forall i :: 0 <= i < |c.links| ==> c.links[i].op == op || c.links[i].op == other
    requires forall g :: g in Groups(op, Chain(c.x, []), c.links) ==> InOrder(g.x, g.links).Some?
    ensures
      var ys := Ys(Groups(op, Chain(c.x, []), c.links));
      var r := InOrder(ys[0], Pairs(op, ys[1..]));
      |ys| > 1 && Worth(R.OPS, Spell(c)) == if r.None? then None else Some(IntValue(Wrap32(r.value)))
  {
    hide Worth, Worths, Combined, IntValue, Wrap32, Groups, InOrder, Exact, Answer, Spell;
    var gs := Groups(op, Chain(c.x, []), c.links);
    WorthOfChain(c, op, k);
    GroupsUniform(op, other, Chain(c.x, []), c.links);
    GroupWorths(gs, other);
    CombinedInts(op, Ys(gs));
  }

  // --- sums come out in order --------------------------------------------------------------------------------

  /** The sum of what the groups answer is, up to 32 bits, the value of the whole. */
  predicate SumsUp(cur: Chain, links: seq<Link>) {
    var gs := Groups('+', cur, links);
    var ys := Ys(gs);
    var sum, value := InOrder(ys[0], Pairs('+', ys[1..])), InOrder(cur.x, cur.links + links);
    && (forall g :: g in gs ==> InOrder(g.x, g.links).Some?)
    && sum.Some? && value.Some? && Congruent(sum.value, value.value)
  }

  lemma AnswerCongruent(c: Chain)
    ensures Congruent(Answer(c, Exact(c)), Exact(c))
  {
    WrapCongruent(Exact(c), Exact(c));
  }

  lemma SumLast(cur: Chain)
    requires Uniform(cur, '-')
    ensures SumsUp(cur, [])
  {
    hide Wrap32, Congruent;
    SumsAreSome(cur.x, cur.links, 0);
    AnswerCongruent(cur);
    assert cur.links + [] == cur.links;
    assert Ys([cur])[1..] == [];
  }

  lemma SumPlus(cur: Chain, links: seq<Link>)
    requires Uniform(cur, '-') && links != [] && links[0].op == '+'
    requires forall i :: 0 <= i < |links| ==> IsSum(links[i].op)
    requires SumsUp(Chain(links[0].x, []), links[1..])
    ensures SumsUp(cur, links)
  {
    hide Wrap32, Congruent, Answer;
    var next := Chain(links[0].x, []);
    var gs, rest := Groups('+', cur, links), Groups('+', next, links[1..]);
    var ys, zs := Ys(gs), Ys(rest);
    assert gs == [cur] + rest && gs[1..] == rest && ys[1..] == zs;
    assert Pairs('+', zs)[1..] == Pairs('+', zs[1..]);
    SumsAreSome(cur.x, cur.links, 0);
    AnswerCongruent(cur);
    InOrderAppend(cur.x, cur.links, links);
    var v := Exact(cur);
    SumsAreSome(zs[0], Pairs('+', zs[1..]), ys[0]);
    assert next.links + links[1..] == links[1..];
    SumsAreSome(next.x, links[1..], v);
    CongruentSums(ys[0], v, InOrder(zs[0], Pairs('+', zs[1..])).value, InOrder(next.x, links[1..]).value);
  }

  lemma {:induction false} SumGroups(cur: Chain, links: seq<Link>)
    requires Uniform(cur, '-') && forall i :: 0 <= i < |links| ==> IsSum(links[i].op)
    ensures SumsUp(cur, links)
    decreases |links|
  {
    if links == [] {
      SumLast(cur);
    } else if links[0].op == '+' {
      SumGroups(Chain(links[0].x, []), links[1..]);
      SumPlus(cur, links);
    } else {
      var longer := cur.(links := cur.links + [links[0]]);
      SumGroups(longer, links[1..]);
      assert longer.links + links[1..] == cur.links + links;
    }
  }

  lemma SumOfGroups(c: Chain)
    requires SumsUp(Chain(c.x, []), c.links) && [] + c.links == c.links && Loosest(c, '+', Place('+'))
    requires forall i :: 0 <= i < |c.links| ==> IsSum(c.links[i].op)
    ensures InOrder(c.x, c.links).Some?
    ensures Worth(R.OPS, Spell(c)) == Some(IntValue(Wrap32(InOrder(c.x, c.links).value)))
  {
    hide Worth, IntValue, Wrap32, Congruent, Groups, Pairs, Spell, Place, Ys, Loosest;
    GroupedWorth(c, '+', '-', Place('+'));
    var ys := Ys(Groups('+', Chain(c.x, []), c.links));
    WrapCongruent(InOrder(ys[0], Pairs('+', ys[1..])).value, InOrder(c.x, c.links).value);
  }

  /** A chain of `+` and `-` answers 32 bits of its value from left to right. */
  lemma SumsInOrder(c: Chain)
    requires c.links != [] && forall i :: 0 <= i < |c.links| ==> IsSum(c.links[i].op)
    ensures InOrder(c.x, c.links).Some?
    ensures Worth(R.OPS, Spell(c)) == Some(IntValue(Wrap32(InOrder(c.x, c.links).value)))
  {
    hide Worth, IntValue, Wrap32, Congruent, Groups, Pairs, Spell, Place, Ys;
    SumsAreSome(c.x, c.links, 0);
    if Uniform(c, '-') {
      UniformWorth(c, '-');
    } else {
      var cur := Chain(c.x, []);
      SumGroups(cur, c.links);
      assert cur.links + c.links == c.links;
      var i :| 0 <= i < |c.links| && c.links[i].op == '+';
      SumOfGroups(c);
    }
  }

  // --- products --------------------------------------------------------------------------------------------

  /** Products of ones and of what comes after them. */
  lemma {:induction false} TimesAreSome(acc: int, links: seq<Link>, other: int)
    requires forall i :: 0 <= i < |links| ==> links[i].op == '*'
    ensures InOrder(acc, links).Some? && InOrder(other, links).Some?
    ensures Congruent(acc, other) ==> Congruent(InOrder(acc, links).value, InOrder(other, links).value)
    ensures acc == 0 ==> InOrder(acc, links).value == 0
    decreases |links|
  {
    hide Congruent;
    if links != [] {
      if Congruent(acc, other) {
        CongruentProducts(acc, other, links[0].x);
      }
      TimesAreSome(acc * links[0].x, links[1..], other * links[0].x);
    }
  }

  /** No division follows a multiplication. */
  predicate DividesFirst(ops: seq<char>) {
    forall i, j :: 0 <= i < j < |ops| ==> ops[i] == '*' ==> ops[j] != '/'
  }

  function Ops(links: seq<Link>): (ops: seq<char>)
    ensures |ops| == |links| && forall i :: 0 <= i < |links| ==> ops[i] == links[i].op
  {
    if links == [] then [] else [links[0].op] + Ops(links[1..])
  }

  /** The chain answers what it is worth from left to right. */
  predicate ReadsInOrder(c: Chain) {
    var r := InOrder(c.x, c.links);
    Worth(R.OPS, Spell(c)) == if r.None? then None else Some(IntValue(Wrap32(r.value)))
  }

  /** The groups of divisions, then multiplications. */
  lemma {:induction false} DivisionsFirst(cur: Chain, links: seq<Link>)
    requires Uniform(cur, '/') && DividesFirst(Ops(links))
    requires forall i :: 0 <= i < |links| ==> IsProduct(links[i].op)
    ensures
      var gs := Groups('*', cur, links);
      var r := InOrder(gs[0].x, gs[0].links);
      && (forall i :: 1 <= i < |gs| ==> gs[i].links == [])
      && (r.None? ==> InOrder(cur.x, cur.links + links).None?)
      && (r.Some? ==> InOrder(cur.x, cur.links + links) == InOrder(r.value, Pairs('*', Ys(gs)[1..])))
    decreases |links|
  {
    var gs := Groups('*', cur, links);
    if links == [] {
      assert cur.links + links == cur.links;
      assert Ys(gs)[1..] == [];
    } else if links[0].op == '*' {
      InOrderAppend(cur.x, cur.links, links);
      forall i | 0 <= i < |links| ensures links[i].op == '*' {
        if i > 0 { assert Ops(links)[0] == '*' && Ops(links)[i] != '/'; }
      }
      var next := Chain(links[0].x, []);
      OnlyTimes(next, links[1..]);
      var rest := Groups('*', next, links[1..]);
      assert gs[1..] == rest;
      assert Ys(gs)[1..] == Ys(rest);
      assert Pairs('*', Ys(rest)) == links;
    } else {
      var longer := cur.(links := cur.links + [links[0]]);
      assert longer.links + links[1..] == cur.links + links;
      forall i, j | 0 <= i < j < |links[1..]| ensures Ops(links[1..])[i] == '*' ==> Ops(links[1..])[j] != '/' {
        assert Ops(links)[i + 1] == '*' ==> Ops(links)[j + 1] != '/';
      }
      DivisionsFirst(longer, links[1..]);
    }
  }

  lemma {:induction false} OnlyTimes(cur: Chain, links: seq<Link>)
    requires cur.links == [] && forall i :: 0 <= i < |links| ==> links[i].op == '*'
    ensures
      var gs := Groups('*', cur, links);
      && (forall g :: g in gs ==> g.links == [])
      && Ys(gs) == [cur.x] + Xs(links)
      && Pairs('*', Ys(gs)) == [Link('*', cur.x)] + links
    decreases |links|
  {
    var gs := Groups('*', cur, links);
    if links == [] {
      assert gs[1..] == [];
    } else {
      var next := Chain(links[0].x, []);
      OnlyTimes(next, links[1..]);
      assert gs[1..] == Groups('*', next, links[1..]);
      assert links == [Link('*', next.x)] + links[1..];
    }
  }

  /** A chain of `*` and `/` in which no division follows a multiplication reads in order. */
  lemma ProductsInOrder(c: Chain)
    requires c.links != [] && forall i :: 0 <= i < |c.links| ==> IsProduct(c.links[i].op)
    requires DividesFirst(Ops(c.links))
    ensures ReadsInOrder(c)
  {
    hide Worth, Worths, IntValue, Wrap32, Congruent, Ops, DividesFirst, Groups, Pairs, Spell, Place, Ys;
    var cur := Chain(c.x, []);
    if Uniform(c, '/') {
      UniformWorth(c, '/');
      assert c.links != [];
    } else {
      var i :| 0 <= i < |c.links| && c.links[i].op == '*';
      DivisionsFirst(cur, c.links);
      assert cur.links + c.links == c.links;
      var gs := Groups('*', cur, c.links);
      var first := InOrder(gs[0].x, gs[0].links);
      if first.None? {
        FirstGroupFails(c);
      } else {
        GroupedWorth(c, '*', '/', Place('*'));
        AnswerCongruent(gs[0]);
        var links := Pairs('*', Ys(gs)[1..]);
        TimesAreSome(Answer(gs[0], first.value), links, first.value);
        WrapCongruent(InOrder(Answer(gs[0], first.value), links).value, InOrder(first.value, links).value);
      }
    }
  }

  lemma FirstGroupFails(c: Chain)
    requires (exists i :: 0 <= i < |c.links| && c.links[i].op == '*')
    requires forall i :: 0 <= i < |c.links| ==> IsProduct(c.links[i].op)
    requires var g := Groups('*', Chain(c.x, []), c.links)[0]; InOrder(g.x, g.links).None?
    ensures Worth(R.OPS, Spell(c)) == None
  {
    hide Worth, IntValue;
    var gs := Groups('*', Chain(c.x, []), c.links);
    WorthOfChain(c, '*', Place('*'));
    GroupsUniform('*', '/', Chain(c.x, []), c.links);
    UniformWorth(gs[0], '/');
  }

  // --- and those only ----------------------------------------------------------------------------------------

  predicate AllOnes(links: seq<Link>) { forall i :: 0 <= i < |links| ==> links[i].x == 1 && IsProduct(links[i].op) }

  lemma {:induction false} Ones(acc: int, links: seq<Link>)
    requires AllOnes(links)
    ensures InOrder(acc, links) == Some(acc)
    decreases |links|
  {
    if links != [] {
      assert Div(acc, 1) == acc;
      Ones(acc, links[1..]);
    }
  }

  /** `*`, then an operand divided by two. */
  predicate Halves(links: seq<Link>, i: nat) {
    && i + 1 < |links| && links[i].op == '*' && links[i + 1] == Link('/', 2)
    && forall j :: 0 <= j < |links| && j != i + 1 ==> links[j].x == 1 && IsProduct(links[j].op)
  }

  lemma {:induction false} FirstGroup(cur: Chain, links: seq<Link>)
    requires AllOnes(links)
    ensures
      var g := Groups('*', cur, links)[0];
      g.x == cur.x && cur.links <= g.links && AllOnes(g.links[|cur.links|..])
    decreases |links|
  {
    if links != [] && links[0].op != '*' {
      var longer := cur.(links := cur.links + [links[0]]);
      FirstGroup(longer, links[1..]);
      var g := Groups('*', cur, links)[0];
      assert g.links[|cur.links|] == links[0];
      assert g.links[|cur.links|..] == [links[0]] + g.links[|longer.links|..];
    }
  }

  /** The group of the halved operand answers zero. */
  lemma {:induction false} ZeroGroup(cur: Chain, links: seq<Link>, i: nat)
    requires Halves(links, i)
    ensures 0 in Ys(Groups('*', cur, links))
    decreases |links|
  {
    var gs := Groups('*', cur, links);
    if i > 0 {
      var next := if links[0].op == '*' then Chain(links[0].x, []) else cur.(links := cur.links + [links[0]]);
      ZeroGroup(next, links[1..], i - 1);
      if links[0].op == '*' {
        assert Ys(gs)[1..] == Ys(gs[1..]);
      }
    } else {
      var half := Chain(1, [Link('/', 2)]);
      var rest := Groups('*', half, links[2..]);
      assert links[1..][1..] == links[2..];
      assert Groups('*', Chain(1, []), links[1..]) == rest by { assert [] + [links[1]] == half.links; }
      FirstGroup(half, links[2..]);
      HalfIsZero(rest[0]);
      assert gs == [cur] + rest;
      assert Ys(gs)[1] == Answer(rest[0], Exact(rest[0])) == 0;
    }
  }

  lemma HalfIsZero(g: Chain)
    requires g.x == 1 && |g.links| >= 1 && g.links[0] == Link('/', 2) && AllOnes(g.links[1..])
    ensures Answer(g, Exact(g)) == 0
  {
    assert Div(1, 2) == 0;
    Ones(0, g.links[1..]);
  }

  lemma {:induction false} NoFailure(cur: Chain, links: seq<Link>)
    requires forall i :: 0 <= i < |cur.links| ==> cur.links[i].x != 0
    requires forall i :: 0 <= i < |links| ==> links[i].x != 0
    ensures forall g :: g in Groups('*', cur, links) ==> InOrder(g.x, g.links).Some?
    decreases |links|
  {
    NoZero(cur.x, cur.links);
    if links != [] {
      if links[0].op == '*' {
        NoFailure(Chain(links[0].x, []), links[1..]);
      } else {
        NoFailure(cur.(links := cur.links + [links[0]]), links[1..]);
      }
    }
  }

  lemma {:induction false} NoZero(acc: int, links: seq<Link>)
    requires forall i :: 0 <= i < |links| ==> links[i].x != 0
    ensures InOrder(acc, links).Some?
    decreases |links|
  {
    hide Div;
    if links != [] {
      NoZero(Apply(links[0].op, acc, links[0].x).value, links[1..]);
    }
  }

  lemma {:induction false} ZeroTimes(acc: int, ys: seq<int>)
    requires acc == 0 || 0 in ys
    ensures InOrder(acc, Pairs('*', ys)) == Some(0)
    decreases |ys|
  {
    if ys != [] {
      assert Pairs('*', ys)[1..] == Pairs('*', ys[1..]);
      assert acc != 0 && ys[0] != 0 ==> 0 in ys[1..];
      assert acc == 0 || ys[0] == 0 ==> acc * ys[0] == 0;
      ZeroTimes(acc * ys[0], ys[1..]);
    }
  }

  /** 2, with operands of 1 all along and a division by 2 after a multiplication: 1 in order, 0 as split. */
  lemma HalvedChain(links: seq<Link>, i: nat)
    requires Halves(links, i)
    ensures !ReadsInOrder(Chain(2, links))
  {
    hide Worth, IntValue, Div;
    var c, cur := Chain(2, links), Chain(2, []);
    InOrderAppend(2, links[..i + 1], links[i + 1..]);
    assert links[..i + 1] + links[i + 1..] == links;
    Ones(2, links[..i + 1]);
    assert links[i + 1..][1..] == links[i + 2..];
    assert Div(2, 2) == 1 by { HalfOfTwo(); }
    Ones(1, links[i + 2..]);
    assert InOrder(2, links) == Some(1);
    NoFailure(cur, links);
    assert links[i].op == '*';
    GroupedWorth(c, '*', '/', Place('*'));
    ZeroGroup(cur, links, i);
    var ys := Ys(Groups('*', cur, links));
    ZeroTimes(ys[0], ys[1..]);
    IntNumber(0);
    IntNumber(1);
  }

  lemma HalfOfTwo()
    ensures Div(2, 2) == 1
  {
  }

  function Filled(ops: seq<char>, i: nat): (links: seq<Link>)
    ensures |links| == |ops|
    ensures forall j :: 0 <= j < |ops| ==> links[j] == Link(ops[j], if j == i then 2 else 1)
    ensures Ops(links) == ops
  {
    var links := seq(|ops|, j requires 0 <= j < |ops| => Link(ops[j], if j == i then 2 else 1));
    assert Ops(links) == ops;
    links
  }

  /** A shape of `*` and `/` reads in order whatever its operands if and only if no division follows a
      multiplication in it. */
  lemma ProductsReadInOrder(ops: seq<char>)
    requires ops != [] && forall i :: 0 <= i < |ops| ==> IsProduct(ops[i])
    ensures DividesFirst(ops) <==> forall c: Chain :: Ops(c.links) == ops ==> ReadsInOrder(c)
  {
    hide ReadsInOrder, Ops;
    if DividesFirst(ops) {
      forall c: Chain | Ops(c.links) == ops ensures ReadsInOrder(c) {
        assert forall i :: 0 <= i < |c.links| ==> c.links[i].op == Ops(c.links)[i];
        ProductsInOrder(c);
      }
    } else {
      var i, j :| 0 <= i < j < |ops| && ops[i] == '*' && ops[j] == '/';
      while ops[i + 1] == '*'
        invariant 0 <= i < j && ops[i] == '*'
        decreases j - i
      {
        i := i + 1;
      }
      var links := Filled(ops, i + 1);
      assert Halves(links, i);
      HalvedChain(links, i);
      assert Ops(Chain(2, links).links) == ops;
    }
  }
}
