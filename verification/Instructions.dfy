/** What the instructions do to a payload, and which child they start next. */
module Instructions {
  import opened Values
  import opened Trees

  /** Unknown also stands for what is outside the model: instructions missing here, and trees that keep a
      parenthesised attribute after rewriting. */
  datatype Op =
    | Sequence | Concurrence | Set | Val | Trace | Noop | Stall
    | If | Unless | Elsif | Else | Ife | Unlesse
    | And | Or | Arith(sign: char) | Cmp(rel: string)
    | Unknown

  function OpNamed(name: string): Op {
    if name == "sequence" then Sequence
    else if name == "concurrence" then Concurrence
    else if name == "set" then Set
    else if name == "val" then Val
    else if name == "trace" then Trace
    else if name == "noop" then Noop
    else if name == "stall" then Stall
    else if name == "if" then If
    else if name == "unless" then Unless
    else if name == "elsif" || name == "elif" then Elsif
    else if name == "else" then Else
    else if name == "ife" then Ife
    else if name == "unlesse" then Unlesse
    else if name == "and" then And
    else if name == "or" then Or
    else if name == "+" || name == "-" || name == "*" || name == "/" then Arith(name[0])
    else if name in {"==", "!=", ">", ">=", "<", "<="} then Cmp(name)
    else Unknown
  }

  function OpOf(t: Tree): Op {
    if !Stringy(t.head) || exists a :: a in t.atts && a.atom.Sub? then Unknown else OpNamed(t.head.v.s)
  }

  /** Over is 'v', Ok is 'k', Error is 'r' or '?'. */
  datatype Verdict = Over | Ok | Error

  /** The answer of an instruction: the payload as it leaves it, the collected rets, the child to start. */
  datatype Reaction = Reaction(verdict: Verdict, payload: Payload, rets: Option<seq<Value>>, next: Option<nat>)

  // --- arithmetic --------------------------------------------------------------------------------

  /** Integer division truncates toward zero. */
  function Div(a: int, b: int): int
    requires b != 0
  {
    if (a >= 0) == (b > 0) then Abs(a) / Abs(b) else -(Abs(a) / Abs(b))
  }

  function Abs(a: int): nat { if a < 0 then -a else a }

  function Number(v: Value): int { ToLL(Text(v)) }

  /** A decimal point in any operand selects the double arithmetic, which is outside the model. */
  predicate Doubles(vs: seq<Value>) { exists v :: v in vs && '.' in Text(v) }

  /** One step of a fold; None is the division by zero. */
  function Apply(sign: char, a: int, b: int): Option<int> {
    if sign == '+' then Some(a + b)
    else if sign == '-' then Some(a - b)
    else if sign == '*' then Some(a * b)
    else if b == 0 then None
    else Some(Div(a, b))
  }

  function FoldFrom(sign: char, acc: int, vs: seq<Value>): Option<int>
    decreases |vs|
  {
    if vs == [] then Some(acc) else
    var r := Apply(sign, acc, Number(vs[0]));
    if r.None? then None else FoldFrom(sign, r.value, vs[1..])
  }

  function Fold(sign: char, vs: seq<Value>): Option<int> {
    if vs == [] then Some(0) else FoldFrom(sign, Number(vs[0]), vs[1..])
  }

  /** arith_fold_i. */
  method ArithFold(sign: char, vs: seq<Value>) returns (r: Option<int>)
    ensures r == Fold(sign, vs)
  {
    hide Number;
    if vs == [] { return Some(0); }
    var acc := Number(vs[0]);
    var i := 1;
    while i < |vs|
      invariant 1 <= i <= |vs|
      invariant Fold(sign, vs) == FoldFrom(sign, acc, vs[i..])
    {
      var n := Number(vs[i]);
      assert vs[i..][1..] == vs[i + 1..];
      if sign == '+' { acc := acc + n; }
      else if sign == '-' { acc := acc - n; }
      else if sign == '*' { acc := acc * n; }
      else {
        if n == 0 { return None; }
        acc := Div(acc, n);
      }
      i := i + 1;
    }
    return Some(acc);
  }

  // --- comparison --------------------------------------------------------------------------------

  /** `sign` is that of left minus right. */
  function Relates(rel: string, sign: int): bool {
    if rel == "==" then sign == 0
    else if rel == "!=" then sign != 0
    else if rel == ">=" then sign >= 0
    else if rel == "<=" then sign <= 0
    else if rel == ">" then sign > 0
    else sign < 0
  }

  /** cmp: numbers as integers (never equal, less or more when the left one has a point), a number is in
      no relation with anything else, the rest is compared as JSON text. */
  function Compare(rel: string, l: Value, r: Value): bool {
    if l.Num? && r.Num? then '.' !in l.text && Relates(rel, ToLL(l.text) - ToLL(r.text))
    else if l.Num? then false
    else Relates(rel, StrCmp(Json(l), Json(r)))
  }

  /** Each value stands in the relation with the next one. */
  predicate Chain(rel: string, vs: seq<Value>) {
    |vs| < 2 || (Compare(rel, vs[0], vs[1]) && Chain(rel, vs[1..]))
  }

  /** The loop of rcv_cmp. */
  method CmpChain(rel: string, vs: seq<Value>) returns (r: bool)
    ensures r == Chain(rel, vs)
  {
    r := true;
    if |vs| > 1 {
      var i, l := 0, |vs|;
      while true
        invariant 0 <= i < |vs| && l == |vs| - i && r
        invariant Chain(rel, vs) == Chain(rel, vs[i..])
        decreases l
      {
        l := l - 1;
        if l == 0 { break; }
        r := Compare(rel, vs[i], vs[i + 1]);
        assert vs[i..][1..] == vs[i + 1..];
        if !r { break; }
        i := i + 1;
      }
    }
  }

  // --- leaves ------------------------------------------------------------------------------------

  /** The attribute under a key, as fdja_l finds it. */
  function AttAt(atts: seq<Att>, key: Key): Option<Atom> {
    if atts == [] then None
    else if atts[0].key == key then Some(atts[0].atom)
    else AttAt(atts[1..], key)
  }

  function LitOr(a: Option<Atom>, default: Value): Value {
    if a.Some? && a.value.Lit? then a.value.v else default
  }

  function ExeVal(t: Tree, p: Payload): Payload {
    WithRet(p, LitOr(AttAt(t.atts, Index(0)), Null))
  }

  function KeyText(k: Key): string {
    match k case Index(n) => "_" + NatText(n) case Name(s) => s
  }

  /** shrink_atts: the bare values when every key is an index, else the whole object. */
  function ShrinkAtts(atts: seq<Att>): Value {
    if forall a :: a in atts ==> a.key.Index?
    then Arr(seq(|atts|, i requires 0 <= i < |atts| => LitOr(Some(atts[i].atom), Null)))
    else Obj(seq(|atts|, i requires 0 <= i < |atts| => (KeyText(atts[i].key), LitOr(Some(atts[i].atom), Null))))
  }

  /** What a trace pushes: nothing when its only attribute has a name. */
  function Traced(t: Tree, p: Payload): Option<Value> {
    if t.atts == [] then Some(if "ret" in p then p["ret"] else Null)
    else if |t.atts| == 1 then
      var a := AttAt(t.atts, Index(0));
      if a.None? then None else Some(LitOr(a, Null))
    else Some(ShrinkAtts(t.atts))
  }

  function ExeTrace(t: Tree, p: Payload): Payload {
    var v := Traced(t, p);
    var trace := if "trace" in p then p["trace"] else Arr([]);
    p["trace" := if trace.Arr? && v.Some? then Arr(trace.items + [v.value]) else trace]
  }

  // --- set ---------------------------------------------------------------------------------------

  predicate StartsWith(s: string, prefix: string) { prefix <= s }

  function AfterDot(s: string): string {
    if s == [] then "" else if s[0] == '.' then s[1..] else AfterDot(s[1..])
  }

  /** extract_prefix: 'f', 'v', 'w', or '-' for none. */
  function Prefix(key: string): char {
    var path := if key != [] && key[0] in {'l', 'g', 'd'} then key[1..] else key;
    if StartsWith(path, "f.") then 'f'
    else if StartsWith(path, "v.") then 'v'
    else if StartsWith(path, "w.") then 'w'
    else if StartsWith(path, "fld.") then 'f'
    else if StartsWith(path, "var.") then 'v'
    else if StartsWith(path, "field.") then 'f'
    else if StartsWith(path, "variable.") then 'v'
    else '-'
  }

  /** The field a `set` writes. Skip: the key starts with a 'd', whatever follows. Outside: variables,
      and paths that still hold a dot, are not modelled. */
  datatype Target = Skip | Field(name: string) | Outside

  function TargetOf(key: string): Target {
    if key != [] && key[0] == 'd' then Skip else
    var k := Prefix(key);
    var name := if k == '-' then key else AfterDot(key);
    if k == 'v' || k == 'w' || '.' in name then Outside else Field(name)
  }

  function SetTarget(t: Tree): Target {
    if t.atts == [] then Skip
    else if t.atts[0].atom.Sub? then Outside
    else TargetOf(Text(t.atts[0].atom.v))
  }

  /** An absent ret removes the field. */
  function SetField(name: string, p: Payload): Payload {
    if "ret" in p then p[name := p["ret"]] else p - {name}
  }

  function RcvSet(t: Tree, p: Payload): Reaction {
    match SetTarget(t)
    case Skip => Reaction(Over, p, None, None)
    case Outside => Reaction(Error, p, None, None)
    case Field(name) => Reaction(Over, SetField(name, p), None, None)
  }

  /** The names a field may have in a `set`: alone, or behind one of these. */
  const FIELDS := ["f.", "fld.", "field."]

  predicate Names(key: string, name: string) {
    && '.' !in name
    && (key == name || exists k, m ::
          0 <= k < |FIELDS| && m in ["", "l", "g", "d"] && key == m + FIELDS[k] + name)
  }

  /** A `set` of a field writes that field with ret, or removes it when there is none, and leaves every other field; when
      the key begins with a `d` it changes nothing at all, whatever the rest of the key. */
  lemma SetWrites(t: Tree, p: Payload, name: string)
    requires t.atts != [] && t.atts[0].atom.Lit?
    ensures
      var key := Text(t.atts[0].atom.v);
      && (key != [] && key[0] == 'd' ==> RcvSet(t, p) == Reaction(Over, p, None, None))
      && (Names(key, name) && (key == [] || key[0] != 'd') ==>
            var q := RcvSet(t, p).payload;
            && (if "ret" in p then name in q && q[name] == p["ret"] else name !in q)
            && forall other :: other != name ==> (other in q <==> other in p) && (other in q ==> q[other] == p[other]))
  {
    hide Text, Names, AfterDot;
    var key := Text(t.atts[0].atom.v);
    if Names(key, name) && (key == [] || key[0] != 'd') { NamesField(key, name); }
  }

  lemma NamesField(key: string, name: string)
    requires Names(key, name) && (key == [] || key[0] != 'd')
    ensures TargetOf(key) == Field(name)
  {
    if key == name {
      if Prefix(key) != '-' { HasDot(key); }
    } else {
      var k, m :| 0 <= k < |FIELDS| && m in ["", "l", "g", "d"] && key == m + FIELDS[k] + name;
      FieldPrefix(key, m, FIELDS[k], name);
    }
  }

  lemma FieldPrefix(key: string, m: string, prefix: string, name: string)
    requires m in ["", "l", "g"] && prefix in FIELDS && key == m + prefix + name
    ensures Prefix(key) == 'f' && AfterDot(key) == name
  {
    var n := |m| + |prefix|;
    assert prefix[0] == 'f' && prefix[|prefix| - 1] == '.' && forall i :: 0 <= i < |prefix| - 1 ==> prefix[i] != '.';
    assert key == (m + prefix) + name && (m == "" || m[0] in {'l', 'g'});
    assert forall i :: 0 <= i < n - 1 ==> key[i] != '.';
    AfterDotAt(key, n - 1);
    var path := if key[0] in {'l', 'g', 'd'} then key[1..] else key;
    assert path == prefix + name;
    assert StartsWith(path, prefix) && path[0] == 'f';
    assert prefix == "field." ==> path[1] == 'i';
  }

  lemma {:induction false} AfterDotAt(s: string, k: nat)
    requires k < |s| && s[k] == '.' && forall i :: 0 <= i < k ==> s[i] != '.'
    ensures AfterDot(s) == s[k + 1..]
  {
    if k > 0 {
      AfterDotAt(s[1..], k - 1);
      assert s[1..][k..] == s[k + 1..];
    }
  }

  lemma HasDot(key: string)
    requires Prefix(key) != '-'
    ensures '.' in key
  {
    var path := if key != [] && key[0] in {'l', 'g', 'd'} then key[1..] else key;
    assert "f."[1] == '.' && "v."[1] == '.' && "w."[1] == '.' && "fld."[3] == '.' && "var."[3] == '.';
    assert "field."[5] == '.' && "variable."[8] == '.';
    assert '.' in path;
  }

  // --- execute and receive -----------------------------------------------------------------------

  /** seq_exe, then seq_rcv with an execute message: nothing to collect, child 0 if it is found. */
  function SeqExe(t: Tree, p: Payload, rets: Option<seq<Value>>, found: bool): Reaction {
    if t.children == [] || !found then Reaction(Over, p, rets, None) else Reaction(Ok, p, rets, Some(0))
  }

  /** Child 0 if there are children, without looking it up. */
  function FirstExe(t: Tree, p: Payload): Reaction {
    if t.children == [] then Reaction(Over, p, None, None) else Reaction(Ok, p, None, Some(0))
  }

  /** `found` tells whether the next child exists. */
  function SeqRcv(p: Payload, rets: Option<seq<Value>>, next: nat, found: bool): Reaction {
    var collected := if rets.Some? && "ret" in p then Some(rets.value + [p["ret"]]) else rets;
    if found then Reaction(Ok, p, collected, Some(next)) else Reaction(Over, p, collected, None)
  }

  predicate RetIsFalse(p: Payload) { "ret" in p && p["ret"] == Bool(false) }

  /** Executing a node; concurrences over children are started by the engine. */
  function Exe(op: Op, t: Tree, p: Payload, found: bool): (r: Reaction)
    ensures r.next.Some? ==> r.verdict.Ok? && r.next == Some(0) && t.children != []
  {
    match op
    case Sequence | And | Or => SeqExe(t, p, None, found)
    case Arith(_) | Cmp(_) => SeqExe(t, p, Some([]), found)
    case If | Unless | Ife | Unlesse | Set => FirstExe(t, p)
    case Elsif => if RetIsFalse(p) then FirstExe(t, p) else Reaction(Over, p, None, None)
    case Else => if RetIsFalse(p) then SeqExe(t, p, None, found) else Reaction(Over, p, None, None)
    case Val => Reaction(Over, ExeVal(t, p), None, None)
    case Trace => Reaction(Over, ExeTrace(t, p), None, None)
    case Noop | Concurrence => Reaction(Over, p, None, None)
    case Stall => Reaction(Ok, p, None, None)
    case Unknown => Reaction(Error, p, None, None)
  }

  /** The branch an `ife` or `unlesse` takes. */
  function Branch(op: Op, p: Payload): bool { Truth(p) == (op == Ife) }

  /** The child that a received message may start; `from` is None for a message from the node itself. */
  function NextIndex(op: Op, from: Option<nat>, p: Payload): nat {
    match from
    case None => 0
    case Some(i) =>
      if (op == Ife || op == Unlesse) && i == 0 then (if Branch(op, p) then 1 else 2) else i + 1
  }

  function Rcv(op: Op, t: Tree, rets: Option<seq<Value>>, from: Option<nat>, p: Payload, found: bool): (r: Reaction)
    ensures r.next.Some? ==> r.verdict.Ok? && found && r.next == Some(NextIndex(op, from, p))
  {
    var next := NextIndex(op, from, p);
    match op
    case Sequence => SeqRcv(p, rets, next, found)
    case And | Or =>
      if from.None? then SeqRcv(p, rets, next, found) else
      var b := Truth(p);
      var q := WithRet(p, Bool(b));
      if b == (op == Or) then Reaction(Over, q, rets, None) else SeqRcv(q, rets, next, found)
    case Arith(sign) =>
      var s := SeqRcv(p, rets, next, found);
      if s.verdict != Over then s else
      var vs := if s.rets.Some? then s.rets.value else [];
      if Doubles(vs) then s.(verdict := Error) else
      var r := Fold(sign, vs);
      if r.None? then s.(verdict := Error, payload := WithRet(p, IntValue(0)))
      else s.(payload := WithRet(p, IntValue(Wrap32(r.value))))
    case Cmp(rel) =>
      var s := SeqRcv(p, rets, next, found);
      if s.verdict != Over then s else
      s.(payload := WithRet(p, Bool(Chain(rel, if s.rets.Some? then s.rets.value else []))))
    case If | Unless | Elsif =>
      if from.None? then Reaction(Over, p, rets, None) else
      var first := from.value == 0;
      var then_ := !first || (Truth(p) != (op == Unless));
      var q := if first && op == Unless then WithRet(p, Bool(then_)) else p;
      if then_ && found then Reaction(Ok, q, rets, Some(next)) else Reaction(Over, q, rets, None)
    case Ife | Unlesse =>
      if from != Some(0) then Reaction(Over, p, rets, None) else
      var q := WithRet(p, Bool(Branch(op, p)));
      if found then Reaction(Ok, q, rets, Some(next)) else Reaction(Over, q, rets, None)
    case Else =>
      if from.None? then Reaction(Over, p, rets, None) else SeqRcv(p, rets, next, found)
    case Set => RcvSet(t, p).(rets := rets)
    case Val | Trace | Noop | Stall | Concurrence | Unknown => Reaction(Over, p, rets, None)
  }
}
