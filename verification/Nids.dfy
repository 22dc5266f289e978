/** Node ids as text: hexadecimal indexes joined by `_`, and a counter after a `-` unless it is zero. Tied
    to the paths of module Machine. Indexes and counters are printed by `%x`; those over 32 bits are not
    modelled. */
module Nids {
  import opened Values
  import Machine

  // --- hexadecimal ---------------------------------------------------------------------------------

  function HexChar(d: nat): (c: char)
    requires d < 16
  {
    if d < 10 then '0' + d as char else 'a' + (d - 10) as char
  }

  predicate IsHex(c: char) { '0' <= c <= '9' || 'a' <= c <= 'f' }

  function HexDigit(c: char): (d: nat)
    requires IsHex(c)
    ensures d < 16 && HexChar(d) == c
  {
    if c <= '9' then (c - '0') as nat else (c - 'a') as nat + 10
  }

  function Hex(n: nat): (s: string)
    ensures s != [] && forall i :: 0 <= i < |s| ==> IsHex(s[i])
  {
    if n < 16 then [HexChar(n)] else Hex(n / 16) + [HexChar(n % 16)]
  }

  /** C's strtoll in base 16, from a digit on: the digits at the head of the text. */
  function ReadHex(s: string, acc: nat): nat {
    if s == [] || !IsHex(s[0]) then acc else ReadHex(s[1..], 16 * acc + HexDigit(s[0]))
  }

  lemma {:induction false} ReadHexAppend(s: string, c: char, acc: nat)
    requires IsHex(c) && forall i :: 0 <= i < |s| ==> IsHex(s[i])
    ensures ReadHex(s + [c], acc) == 16 * ReadHex(s, acc) + HexDigit(c)
  {
    if s == [] {
      assert ([] + [c])[1..] == [];
    } else {
      assert (s + [c])[1..] == s[1..] + [c];
      ReadHexAppend(s[1..], c, 16 * acc + HexDigit(s[0]));
    }
  }

  lemma {:induction false} HexRoundTrip(n: nat)
    ensures ReadHex(Hex(n), 0) == n
  {
    if n < 16 {
      assert Hex(n)[1..] == [];
      assert HexDigit(HexChar(n)) == n;
    } else {
      HexRoundTrip(n / 16);
      ReadHexAppend(Hex(n / 16), HexChar(n % 16), 0);
      assert HexDigit(HexChar(n % 16)) == n % 16;
    }
  }

  /** The sixteen digits, and a number by its last one and by those before. */
  lemma HexIs(n: nat)
    ensures n < 16 ==> Hex(n) == ["0123456789abcdef"[n]]
    ensures n >= 16 ==> Hex(n) == Hex(n / 16) + ["0123456789abcdef"[n % 16]]
  {
    HexCharIs(n % 16);
  }

  lemma HexCharIs(d: nat)
    requires d < 16
    ensures HexChar(d) == "0123456789abcdef"[d]
  {
  }

  /** A decimal text read as hexadecimal. */
  lemma {:induction false} DecimalAsHex(i: nat)
    ensures ReadHex(NatText(i), 0) == Machine.ConIndex(i)
  {
    if i < 10 {
      assert NatText(i)[1..] == [];
    } else {
      DecimalAsHex(i / 10);
      ReadHexAppend(NatText(i / 10), DigitChar(i % 10), 0);
    }
  }

  // --- searching -----------------------------------------------------------------------------------

  /** strchr. */
  function First(c: char, s: string): (r: Option<nat>)
    ensures r.None? <==> c !in s
    ensures r.Some? ==> r.value < |s| && s[r.value] == c && forall k :: 0 <= k < r.value ==> s[k] != c
  {
    if s == [] then None
    else if s[0] == c then Some(0)
    else
      var r := First(c, s[1..]);
      assert s == [s[0]] + s[1..];
      if r.None? then None else Some(r.value + 1)
  }

  /** strrchr. */
  function Last(c: char, s: string): (r: Option<nat>)
    ensures r.None? <==> c !in s
    ensures r.Some? ==> r.value < |s| && s[r.value] == c && forall k :: r.value < k < |s| ==> s[k] != c
  {
    if s == [] then None
    else
      var n := |s| - 1;
      assert s == s[..n] + [s[n]];
      if s[n] == c then Some(n)
      else
        var r := Last(c, s[..n]);
        r
  }

  lemma LastAt(c: char, a: string, b: string)
    requires c !in b
    ensures Last(c, a + [c] + b) == Some(|a|)
  {
    hide Last;
    var s := a + [c] + b;
    assert s[|a|] == c;
  }

  lemma FirstAt(c: char, a: string, b: string)
    requires c !in a
    ensures First(c, a + [c] + b) == Some(|a|)
  {
    hide First;
    var s := a + [c] + b;
    assert s[|a|] == c;
  }

  // --- ids -----------------------------------------------------------------------------------------

  function NodeText(path: seq<nat>): (s: string)
    requires path != []
  {
    if |path| == 1 then Hex(path[0]) else NodeText(path[..|path| - 1]) + ['_'] + Hex(path[|path| - 1])
  }

  function Suffix(counter: nat): string { if counter == 0 then "" else ['-'] + Hex(counter) }

  function Nid(path: seq<nat>, counter: nat): string
    requires path != []
  {
    NodeText(path) + Suffix(counter)
  }

  /** The indexes are joined by underscores; a counter comes behind a dash, and one of zero is not written. */
  lemma NidText()
    ensures Nid([0, 10, 19], 90) == "0_a_13-5a" && Nid([0, 10, 19], 0) == "0_a_13"
  {
    HexIs(0);
    HexIs(10);
    HexIs(19);
    HexIs(1);
    HexIs(90);
    HexIs(5);
    var path := [0, 10, 19];
    assert path[..2] == [0, 10] && path[..2][..1] == [0];
    assert NodeText([0]) == "0" && NodeText([0, 10]) == "0_a" && NodeText(path) == "0_a_13";
  }

  /** flon_nid_child. */
  function Child(nid: string, n: nat): string {
    var dash := First('-', nid);
    if dash.Some? then nid[..dash.value] + ['_'] + Hex(n) + ['-'] + nid[dash.value + 1..]
    else nid + ['_'] + Hex(n)
  }

  /** flon_nid_parent; the counter is dropped when `chop`. */
  function Parent(nid: string, chop: bool): Option<string> {
    var u := Last('_', nid);
    var d := First('-', nid);
    if u.None? then None
    else if d.Some? && !chop then Some(nid[..u.value] + nid[d.value..])
    else Some(nid[..u.value])
  }

  /** flon_nid_index. */
  function Index(nid: string): nat {
    var u := Last('_', nid);
    ReadHex(if u.Some? then nid[u.value + 1..] else nid, 0)
  }

  /** The node and the counter that flon_parse_nid finds. */
  function Node(nid: string): string {
    var d := First('-', nid);
    if d.Some? then nid[..d.value] else nid
  }

  function Counter(nid: string): Option<string> {
    var d := First('-', nid);
    if d.Some? then Some(nid[d.value + 1..]) else None
  }

  /** flon_nid_next. */
  function Next(nid: string, increment: nat): Option<string> {
    var node, counter := Node(nid), Counter(nid);
    var u := Last('_', node);
    if u.None? then None else
    var l := ReadHex(node[u.value + 1..], 0);
    var next := node[..u.value] + ['_'] + Hex(l + increment);
    Some(if counter.Some? && counter.value != "0" then next + ['-'] + counter.value else next)
  }

  // --- the shape of ids ------------------------------------------------------------------------------

  predicate Plain(s: string) { '-' !in s && '_' !in s }

  lemma HexIsPlain(n: nat)
    ensures Plain(Hex(n))
  {
  }

  lemma {:induction false} NodeHasNoDash(path: seq<nat>)
    requires path != []
    ensures '-' !in NodeText(path) && NodeText(path) != []
  {
    if |path| > 1 {
      NodeHasNoDash(path[..|path| - 1]);
    }
  }

  lemma Dash(path: seq<nat>, counter: nat)
    requires path != []
    ensures First('-', Nid(path, counter)) == if counter == 0 then None else Some(|NodeText(path)|)
    ensures Node(Nid(path, counter)) == NodeText(path)
    ensures Counter(Nid(path, counter)) == if counter == 0 then None else Some(Hex(counter))
  {
    hide Hex, NodeText, First;
    NodeHasNoDash(path);
    var node := NodeText(path);
    if counter == 0 {
      assert node + "" == node;
    } else {
      FirstAt('-', node, Hex(counter));
      assert node + (['-'] + Hex(counter)) == node + ['-'] + Hex(counter);
      assert Nid(path, counter)[..|node|] == node && Nid(path, counter)[|node| + 1..] == Hex(counter);
    }
  }

  lemma NodeSnoc(path: seq<nat>, i: nat)
    requires path != []
    ensures NodeText(path + [i]) == NodeText(path) + ['_'] + Hex(i)
  {
    assert (path + [i])[..|path|] == path;
  }

  lemma Underscore(path: seq<nat>, i: nat, counter: nat)
    requires path != []
    ensures Last('_', Nid(path + [i], counter)) == Some(|NodeText(path)|)
    ensures Last('_', NodeText(path + [i])) == Some(|NodeText(path)|)
    ensures NodeText(path + [i]) == NodeText(path) + ['_'] + Hex(i)
  {
    hide Hex, First, Last, NodeText;
    NodeSnoc(path, i);
    var node := NodeText(path);
    LastAt('_', node, Hex(i));
    LastAt('_', node, Hex(i) + Suffix(counter));
    assert Nid(path + [i], counter) == node + ['_'] + (Hex(i) + Suffix(counter));
  }

  lemma NotZeroText(counter: nat)
    ensures Hex(counter) == "0" <==> counter == 0
  {
    HexRoundTrip(counter);
    assert "0"[1..] == [];
    assert HexDigit('0') == 0;
    assert ReadHex("0", 0) == ReadHex([], 0);
  }

  lemma SmallText(i: nat)
    requires i < 10
    ensures NatText(i) == Hex(i)
  {
  }

  // --- the laws --------------------------------------------------------------------------------------

  lemma ChildIs(path: seq<nat>, counter: nat, n: nat)
    requires path != []
    ensures Child(Nid(path, counter), n) == Nid(path + [n], counter)
  {
    hide Hex, First, Last, NodeText;
    Dash(path, counter);
    Underscore(path, n, counter);
    if counter != 0 {
      var nid, node := Nid(path, counter), NodeText(path);
      assert nid[..|node|] == node && nid[|node| + 1..] == Hex(counter);
    }
  }

  lemma ParentIs(path: seq<nat>, counter: nat, i: nat, chop: bool)
    requires path != []
    ensures Parent(Nid(path + [i], counter), chop) == Some(Nid(path, if chop then 0 else counter))
  {
    hide NodeText, Hex, ReadHex, First, Last;
    Dash(path + [i], counter);
    Underscore(path, i, counter);
    var nid, node := Nid(path + [i], counter), NodeText(path);
    assert nid[..|node|] == node && node + "" == node;
    if counter != 0 {
      assert nid[|NodeText(path + [i])|..] == Suffix(counter);
    }
  }

  lemma {:induction false} ReadHexPrefix(s: string, rest: string, acc: nat)
    requires forall i :: 0 <= i < |s| ==> IsHex(s[i])
    requires rest == [] || !IsHex(rest[0])
    ensures ReadHex(s + rest, acc) == ReadHex(s, acc)
  {
    if s == [] {
      assert s + rest == rest;
    } else {
      assert (s + rest)[1..] == s[1..] + rest;
      ReadHexPrefix(s[1..], rest, 16 * acc + HexDigit(s[0]));
    }
  }

  lemma IndexIs(path: seq<nat>, counter: nat, i: nat)
    requires path != []
    ensures Index(Nid(path + [i], counter)) == i
  {
    hide Hex, First, Last, NodeText, ReadHex;
    Underscore(path, i, counter);
    var nid := Nid(path + [i], counter);
    assert nid[|NodeText(path)| + 1..] == Hex(i) + Suffix(counter);
    ReadHexPrefix(Hex(i), Suffix(counter), 0);
    HexRoundTrip(i);
  }

  lemma NextFrom(nid: string, k: nat, head: string, index: string)
    requires Node(nid) == head + ['_'] + index && Last('_', Node(nid)) == Some(|head|)
    ensures
      var next := head + ['_'] + Hex(ReadHex(index, 0) + k);
      var counter := Counter(nid);
      Next(nid, k) == Some(if counter.Some? && counter.value != "0" then next + ['-'] + counter.value else next)
  {
    hide Hex, ReadHex, Last, Node, Counter;
    var node := Node(nid);
    assert node[|head| + 1..] == index && node[..|head|] == head;
  }

  lemma NextIs(path: seq<nat>, counter: nat, i: nat, k: nat)
    requires path != []
    ensures Next(Nid(path + [i], counter), k) == Some(Nid(path + [i + k], counter))
  {
    hide NodeText, Hex, ReadHex, First, Last, Node, Counter, Next;
    Dash(path + [i], counter);
    Underscore(path, i, counter);
    Underscore(path, i + k, counter);
    HexRoundTrip(i);
    NextFrom(Nid(path + [i], counter), k, NodeText(path), Hex(i));
    NotZeroText(counter);
    var next := NodeText(path + [i + k]);
    assert next + "" == next && next + (['-'] + Hex(counter)) == next + ['-'] + Hex(counter);
  }

  /** A root id has neither a parent nor a next id. */
  lemma RootIs(i: nat, counter: nat, chop: bool, k: nat)
    ensures Parent(Nid([i], counter), chop) == None && Next(Nid([i], counter), k) == None
    ensures Index(Nid([i], counter)) == i
  {
    Dash([i], counter);
    var nid := Nid([i], counter);
    assert '_' !in nid;
    ReadHexPrefix(Hex(i), Suffix(counter), 0);
    HexRoundTrip(i);
  }

  /** The first child is that of index 0; the k-th after it that of index k; and all have the same parent. */
  lemma ChildNextParent(path: seq<nat>, counter: nat, k: nat)
    requires path != []
    ensures
      var nid := Nid(path, counter);
      && Next(Child(nid, 0), k) == Some(Child(nid, k))
      && Parent(Child(nid, k), false) == Some(nid)
      && Index(Child(nid, k)) == k
  {
    hide Nid, Child, Next, Parent, Index;
    ChildIs(path, counter, 0);
    ChildIs(path, counter, k);
    NextIs(path, counter, 0, k);
    ParentIs(path, counter, k, false);
    IndexIs(path, counter, k);
  }

  /** Distinct paths, or distinct counters, have distinct ids. */
  lemma {:induction false} NodeInjective(p: seq<nat>, q: seq<nat>)
    requires p != [] && q != [] && NodeText(p) == NodeText(q)
    ensures p == q
  {
    hide Hex, First, Last, ReadHex;
    if |p| == 1 || |q| == 1 {
      if |p| > 1 {
        assert p == p[..|p| - 1] + [p[|p| - 1]];
        Underscore(p[..|p| - 1], p[|p| - 1], 0);
        RootIs(q[0], 0, true, 0);
      } else if |q| > 1 {
        assert q == q[..|q| - 1] + [q[|q| - 1]];
        Underscore(q[..|q| - 1], q[|q| - 1], 0);
        RootIs(p[0], 0, true, 0);
      } else {
        HexRoundTrip(p[0]);
        HexRoundTrip(q[0]);
      }
    } else {
      var a, b := p[..|p| - 1], q[..|q| - 1];
      var i, j := p[|p| - 1], q[|q| - 1];
      assert p == a + [i] && q == b + [j];
      Underscore(a, i, 0);
      Underscore(b, j, 0);
      assert NodeText(p)[..|NodeText(a)|] == NodeText(a) && NodeText(q)[..|NodeText(b)|] == NodeText(b);
      assert NodeText(p)[|NodeText(a)| + 1..] == Hex(i) && NodeText(q)[|NodeText(b)| + 1..] == Hex(j);
      NodeInjective(a, b);
      HexRoundTrip(i);
      HexRoundTrip(j);
    }
  }

  lemma NidInjective(p: seq<nat>, c: nat, q: seq<nat>, d: nat)
    requires p != [] && q != [] && Nid(p, c) == Nid(q, d)
    ensures p == q && c == d
  {
    Dash(p, c);
    Dash(q, d);
    NodeInjective(p, q);
    if c != 0 {
      HexRoundTrip(c);
      HexRoundTrip(d);
    }
  }

  /** The id that a concurrence makes for its child `i`, `%zu` after the `_`, is read back as ConIndex(i): it is
      the id of child `i` if and only if `i` is below ten. */
  lemma ConcurrenceChild(path: seq<nat>, i: nat)
    requires path != []
    ensures
      var made := Nid(path, 0) + ['_'] + NatText(i);
      && Index(made) == Machine.ConIndex(i)
      && Parent(made, false) == Some(Nid(path, 0))
      && (made == Child(Nid(path, 0), i) <==> i < 10)
  {
    hide Hex, First, Last, NodeText, ReadHex, Machine.ConIndex;
    var node := NodeText(path);
    var made := Nid(path, 0) + ['_'] + NatText(i);
    NodeHasNoDash(path);
    assert Nid(path, 0) == node;
    LastAt('_', node, NatText(i));
    assert made[|node| + 1..] == NatText(i) && made[..|node|] == node;
    DecimalAsHex(i);
    ChildIs(path, 0, i);
    IndexIs(path, 0, i);
    if i < 10 {
      SmallText(i);
    } else {
      ConIndexAbove(i);
    }
  }

  lemma {:induction false} ConIndexAbove(i: nat)
    requires i >= 10
    ensures Machine.ConIndex(i) > i
  {
    if i >= 100 {
      ConIndexAbove(i / 10);
    }
  }

  // --- the loops of flon_nid_parent and flon_nid_depth -------------------------------------------------

  /** What a buffer says, up to its terminating NUL. */
  function CString(buffer: seq<char>): string {
    if buffer == [] || buffer[0] == '\0' then [] else [buffer[0]] + CString(buffer[1..])
  }

  lemma {:induction false} CStringIs(s: string, rest: seq<char>)
    requires '\0' !in s && (rest == [] || rest[0] == '\0')
    ensures CString(s + rest) == s
  {
    if s == [] {
      assert s + rest == rest;
    } else {
      assert (s + rest)[1..] == s[1..] + rest;
      CStringIs(s[1..], rest);
    }
  }

  /** The counter, if it is kept, is moved over the last index, in a copy of the id. */
  method ParentInPlace(nid: string, chop: bool) returns (parent: Option<string>)
    requires '\0' !in nid
    requires '_' in nid && '-' in nid ==> Last('_', nid).value < First('-', nid).value
    ensures parent == Parent(nid, chop)
  {
    hide First, Last, CString;
    var u := Last('_', nid);
    if u.None? { return None; }
    var buffer := new char[|nid| + 1](k requires 0 <= k <= |nid| => if k < |nid| then nid[k] else '\0');
    var c, d := u.value, First('-', nid);
    if d.Some? && !chop {
      var e := d.value;
      while true
        invariant u.value <= c <= e <= |nid| && e - c == d.value - u.value
        invariant buffer[..c] == nid[..u.value] + nid[d.value..e]
        decreases |nid| - e
      {
        ghost var before := buffer[..c];
        buffer[c] := if e < |nid| then nid[e] else '\0';
        assert buffer[..c] == before;
        if e == |nid| { break; }
        assert nid[d.value..e + 1] == nid[d.value..e] + [nid[e]];
        assert buffer[..c + 1] == nid[..u.value] + nid[d.value..e] + [nid[e]];
        c := c + 1;
        e := e + 1;
      }
      assert nid[d.value..|nid|] == nid[d.value..];
    } else {
      buffer[c] := '\0';
      assert buffer[..c] == nid[..u.value];
    }
    assert buffer[c] == '\0' && buffer[..c] == Parent(nid, chop).value;
    assert buffer[..] == buffer[..c] + buffer[c..];
    CStringIs(buffer[..c], buffer[c..]);
    return Some(CString(buffer[..]));
  }

  function Underscores(s: string): nat {
    if s == [] then 0 else (if s[0] == '_' then 1 else 0) + Underscores(s[1..])
  }

  lemma {:induction false} NoUnderscores(s: string, rest: string)
    requires '_' !in s
    ensures Underscores(s + rest) == Underscores(rest)
  {
    if s == [] {
      assert s + rest == rest;
    } else {
      assert (s + rest)[1..] == s[1..] + rest;
      NoUnderscores(s[1..], rest);
    }
  }

  lemma {:induction false} UnderscoresAppend(a: string, b: string)
    ensures Underscores(a + b) == Underscores(a) + Underscores(b)
  {
    if a == [] {
      assert a + b == b;
    } else {
      assert (a + b)[1..] == a[1..] + b;
      UnderscoresAppend(a[1..], b);
    }
  }

  lemma NextUnderscore(s: string)
    ensures
      var next := First('_', s);
      Underscores(s) == if next.None? then 0 else 1 + Underscores(s[next.value + 1..])
  {
    hide First;
    var next := First('_', s);
    if next.None? {
      NoUnderscores(s, []);
      assert s + [] == s;
    } else {
      var n := next.value;
      NoUnderscores(s[..n], s[n..]);
      assert s[..n] + s[n..] == s && s[n..][1..] == s[n + 1..];
    }
  }

  /** flon_nid_depth. */
  method Depth(nid: string) returns (depth: nat)
    ensures depth == Underscores(Node(nid))
  {
    hide First, Underscores;
    var s := Node(nid);
    assert s[0..] == s;
    depth := 0;
    var ss := 0;
    while true
      invariant ss <= |s|
      invariant Underscores(s) == depth + Underscores(s[ss..])
      decreases |s| - ss
    {
      var next := First('_', s[ss..]);
      var rest := s[ss..];
      NextUnderscore(rest);
      if next.None? { break; }
      assert rest[next.value + 1..] == s[ss + next.value + 1..];
      depth := depth + 1;
      ss := ss + next.value + 1;
    }
  }

  /** The depth of an id is the length of its path, the root not counted. */
  lemma {:induction false} DepthIs(path: seq<nat>, counter: nat)
    requires path != []
    ensures Underscores(Node(Nid(path, counter))) == |path| - 1
    decreases |path|
  {
    hide Hex, First;
    Dash(path, counter);
    var n := |path| - 1;
    HexIsPlain(path[n]);
    NoUnderscores(Hex(path[n]), []);
    assert Hex(path[n]) + [] == Hex(path[n]);
    if n > 0 {
      DepthIs(path[..n], 0);
      Dash(path[..n], 0);
      var node := NodeText(path[..n]);
      UnderscoresAppend(node, ['_'] + Hex(path[n]));
      assert NodeText(path) == node + (['_'] + Hex(path[n]));
      assert (['_'] + Hex(path[n]))[1..] == Hex(path[n]);
    }
  }
}
