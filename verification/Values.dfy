/** The values a flow manipulates: what the djan parser yields, with the three string kinds (symbol,
    single-quoted, double-quoted) merged, because cloning a value through JSON merges them. */
module Values {

  datatype Option<+T> = None | Some(value: T)

  datatype Value =
    | Null
    | Bool(b: bool)
    | Num(text: string)
    | Str(s: string)
    | Arr(items: seq<Value>)
    | Obj(entries: seq<(string, Value)>)

  /** A payload is an object; the order of its keys is not modelled. */
  type Payload = map<string, Value>

  // --- numbers as text -------------------------------------------------------------------------

  predicate IsDigit(c: char) { '0' <= c <= '9' }

  function DigitValue(c: char): (d: nat)
    requires IsDigit(c)
    ensures d < 10
  {
    c as int - '0' as int
  }

  function DigitChar(d: nat): (c: char)
    requires d < 10
    ensures IsDigit(c) && DigitValue(c) == d
  {
    (d + '0' as int) as char
  }

  function NatText(n: nat): (s: string)
    ensures |s| > 0 && forall i :: 0 <= i < |s| ==> IsDigit(s[i])
  {
    if n < 10 then [DigitChar(n)] else NatText(n / 10) + [DigitChar(n % 10)]
  }

  /** What printf writes for `%d`, `%zu` and `%lli`. */
  function IntText(i: int): string {
    if i < 0 then "-" + NatText(-i) else NatText(i)
  }

  /** The longest run of digits at the head of `s`, read in base ten after `acc`. */
  function ReadDigits(s: string, acc: nat): nat {
    if s == [] || !IsDigit(s[0]) then acc else ReadDigits(s[1..], 10 * acc + DigitValue(s[0]))
  }

  predicate IsSpace(c: char) { c == ' ' || '\t' <= c <= '\r' }

  function SkipSpaces(s: string): string {
    if s != [] && IsSpace(s[0]) then SkipSpaces(s[1..]) else s
  }

  /** C's `strtoll(s, NULL, 10)`: blanks, a sign, then digits; whatever follows is ignored, an absent
      number reads as 0. The saturation at the 64-bit bounds is not modelled. */
  function ToLL(s: string): int {
    var t := SkipSpaces(s);
    var digits := if t != [] && (t[0] == '-' || t[0] == '+') then t[1..] else t;
    var n: int := ReadDigits(digits, 0);
    if t != [] && t[0] == '-' then -n else n
  }

  lemma {:induction false} ReadDigitsAppend(s: string, c: char, acc: nat)
    requires forall i :: 0 <= i < |s| ==> IsDigit(s[i])
    requires IsDigit(c)
    ensures ReadDigits(s + [c], acc) == 10 * ReadDigits(s, acc) + DigitValue(c)
  {
    if s == [] {
      assert ([] + [c])[1..] == [];
    } else {
      assert (s + [c])[1..] == s[1..] + [c];
      ReadDigitsAppend(s[1..], c, 10 * acc + DigitValue(s[0]));
    }
  }

  /** Reading stops at the first character that is not a digit. */
  lemma {:induction false} ReadStops(digits: string, rest: string, acc: nat)
    requires forall k :: 0 <= k < |digits| ==> IsDigit(digits[k])
    requires rest == [] || !IsDigit(rest[0])
    ensures ReadDigits(digits + rest, acc) == ReadDigits(digits, acc)
  {
    if digits == [] {
      assert digits + rest == rest;
    } else {
      assert (digits + rest)[1..] == digits[1..] + rest;
      ReadStops(digits[1..], rest, 10 * acc + DigitValue(digits[0]));
    }
  }

  lemma {:induction false} ReadNatText(n: nat)
    ensures ReadDigits(NatText(n), 0) == n
  {
    if n < 10 {
      assert NatText(n)[1..] == [];
    } else {
      ReadNatText(n / 10);
      ReadDigitsAppend(NatText(n / 10), DigitChar(n % 10), 0);
    }
  }

  /** Blanks are gone over, then a sign counts, then the digits up to the first character that is none. */
  lemma {:induction false} ToLLReads(blanks: string, sign: string, digits: string, rest: string)
    requires (forall k :: 0 <= k < |blanks| ==> blanks[k] in " \t\n\r" + [11 as char, 12 as char]) && sign in ["", "+", "-"]
    requires (forall k :: 0 <= k < |digits| ==> IsDigit(digits[k])) && (rest == [] || !IsDigit(rest[0]))
    requires sign + digits == [] && rest != [] ==> !IsSpace(rest[0]) && rest[0] != '-' && rest[0] != '+'
    ensures ToLL(blanks + sign + digits + rest) == if sign == "-" then 0 - ReadDigits(digits, 0) else ReadDigits(digits, 0)
  {
    var s := blanks + sign + digits + rest;
    if blanks == [] {
      var t := digits + rest;
      assert s == sign + t;
      ReadStops(digits, rest, 0);
      assert sign != "" ==> s[0] == sign[0] && s[1..] == t;
      assert sign == "" ==> s == t && (t != [] ==> t[0] == if digits != [] then digits[0] else rest[0]);
      assert SkipSpaces(s) == s;
    } else {
      ToLLReads(blanks[1..], sign, digits, rest);
      assert s[1..] == blanks[1..] + sign + digits + rest;
    }
  }

  /** A number is written without zeros in front. */
  lemma NatTextIs(n: nat)
    ensures ReadDigits(NatText(n), 0) == n && (n > 0 ==> NatText(n)[0] != '0') && (n == 0 ==> NatText(n) == "0")
  {
    ReadNatText(n);
    NoZeroFirst(n);
  }

  lemma {:induction false} NoZeroFirst(n: nat)
    ensures n > 0 ==> NatText(n)[0] != '0'
  {
    if n >= 10 { NoZeroFirst(n / 10); }
  }

  /** Printing an integer and reading it back is the identity. */
  lemma ReadIntText(i: int)
    ensures ToLL(IntText(i)) == i
  {
    var s := IntText(i);
    assert SkipSpaces(s) == s;
    if i < 0 {
      assert s[1..] == NatText(-i);
      ReadNatText(-i);
    } else {
      assert IsDigit(s[0]);
      ReadNatText(i);
    }
  }

  /** What `%d` shows of a `long long`: its low 32 bits, as a signed number. */
  function Wrap32(i: int): (r: int)
    ensures -0x8000_0000 <= r < 0x8000_0000
    ensures -0x8000_0000 <= i < 0x8000_0000 ==> r == i
  {
    (i + 0x8000_0000) % 0x1_0000_0000 - 0x8000_0000
  }

  function IntValue(i: int): Value { Num(IntText(i)) }

  // --- printing --------------------------------------------------------------------------------

  /** fdja_to_j: compact JSON. Strings are escaped, keys are written as they are. */
  function Json(v: Value): string
    decreases v, 0
  {
    match v
    case Null => "null"
    case Bool(b) => if b then "true" else "false"
    case Num(text) => text
    case Str(s) => "\"" + Escape(s) + "\""
    case Arr(items) => "[" + JsonItems(items) + "]"
    case Obj(entries) => "{" + JsonEntries(entries) + "}"
  }

  function JsonItems(vs: seq<Value>): string
    decreases vs, 1
  {
    if vs == [] then ""
    else if |vs| == 1 then Json(vs[0])
    else Json(vs[0]) + "," + JsonItems(vs[1..])
  }

  function JsonEntry(e: (string, Value)): string
    decreases e, 1
  {
    "\"" + e.0 + "\":" + Json(e.1)
  }

  function JsonEntries(es: seq<(string, Value)>): string
    decreases es, 2
  {
    if es == [] then ""
    else if |es| == 1 then JsonEntry(es[0])
    else JsonEntry(es[0]) + "," + JsonEntries(es[1..])
  }

  const BS := 8 as char
  const FF := 12 as char

  /** flu_n_escape, one character. */
  function EscapeChar(c: char): string {
    if c == '\\' then "\\\\"
    else if c == '"' then "\\\""
    else if c == BS then "\\b"
    else if c == FF then "\\f"
    else if c == '\n' then "\\n"
    else if c == '\r' then "\\r"
    else if c == '\t' then "\\t"
    else [c]
  }

  function Escape(s: string): string {
    if s == [] then "" else EscapeChar(s[0]) + Escape(s[1..])
  }

  /** fdja_to_string: a string's content, or the JSON text of anything else. */
  function Text(v: Value): string {
    if v.Str? then v.s else Json(v)
  }

  /** ret_to_boolean: an absent ret, null and false are false, all the rest is true. */
  function Truth(p: Payload): bool {
    "ret" in p && p["ret"] != Null && p["ret"] != Bool(false)
  }

  function WithRet(p: Payload, v: Value): Payload { p["ret" := v] }

  /** strcmp: the sign of the difference at the first place where the strings differ. */
  function StrCmp(a: string, b: string): int {
    if a == [] && b == [] then 0
    else if a == [] then -1
    else if b == [] then 1
    else if a[0] != b[0] then a[0] as int - b[0] as int
    else StrCmp(a[1..], b[1..])
  }

  /** The order of a dictionary over character codes. */
  predicate AtMost(a: string, b: string) {
    a <= b || exists k :: 0 <= k < |a| && k < |b| && a[..k] == b[..k] && a[k] < b[k]
  }

  lemma FirstAtMost(a: string, b: string)
    requires a != [] && b != [] && AtMost(a, b)
    ensures a[0] <= b[0]
  {
    if !(a <= b) {
      var k :| 0 <= k < |a| && k < |b| && a[..k] == b[..k] && a[k] < b[k];
      assert k > 0 ==> a[..k][0] == b[..k][0];
    }
  }

  /** strcmp is negative, zero or positive as its first text comes before the second one, is it, or comes behind. */
  lemma {:induction false} CmpIs(a: string, b: string)
    ensures StrCmp(a, b) <= 0 <==> AtMost(a, b)
    ensures StrCmp(a, b) == 0 <==> a == b
    ensures StrCmp(a, b) == -StrCmp(b, a)
  {
    if a == [] || b == [] {
    } else if a[0] != b[0] {
      assert a[..0] == b[..0];
      if AtMost(a, b) { FirstAtMost(a, b); }
    } else {
      CmpIs(a[1..], b[1..]);
      assert a == [a[0]] + a[1..] && b == [b[0]] + b[1..];
      if k :| 0 <= k < |a[1..]| && k < |b[1..]| && a[1..][..k] == b[1..][..k] && a[1..][k] < b[1..][k] {
        assert a[..k + 1] == [a[0]] + a[1..][..k] && b[..k + 1] == [b[0]] + b[1..][..k];
        assert a[k + 1] < b[k + 1];
      }
      if k :| 0 <= k < |a| && k < |b| && a[..k] == b[..k] && a[k] < b[k] {
        assert a[1..][..k - 1] == a[..k][1..] && b[1..][..k - 1] == b[..k][1..];
        assert a[1..][k - 1] < b[1..][k - 1];
      }
    }
  }

  lemma {:induction false} CmpTransitive(a: string, b: string, c: string)
    requires StrCmp(a, b) <= 0 && StrCmp(b, c) <= 0
    ensures StrCmp(a, c) <= 0
    ensures StrCmp(a, b) < 0 || StrCmp(b, c) < 0 ==> StrCmp(a, c) < 0
  {
    if a != [] && b != [] && c != [] && a[0] == b[0] == c[0] {
      CmpTransitive(a[1..], b[1..], c[1..]);
    }
  }

  predicate AllDigits(s: string) { forall k :: 0 <= k < |s| ==> IsDigit(s[k]) }

  /** Stamps of as many digits are ordered as the numbers they write. */
  lemma StampOrder(a: string, b: string)
    requires AllDigits(a) && AllDigits(b) && |a| == |b|
    ensures AtMost(a, b) <==> ReadDigits(a, 0) <= ReadDigits(b, 0)
  {
    hide StrCmp, AtMost;
    CmpIs(a, b);
    DigitsCmp(a, b, 0, 0);
  }

  lemma {:induction false} DigitsCmp(a: string, b: string, m: nat, n: nat)
    requires AllDigits(a) && AllDigits(b) && |a| == |b|
    ensures m < n ==> ReadDigits(a, m) < ReadDigits(b, n)
    ensures m == n ==> (StrCmp(a, b) <= 0 <==> ReadDigits(a, m) <= ReadDigits(b, n))
    decreases |a|
  {
    if a != [] {
      var x, y := DigitValue(a[0]), DigitValue(b[0]);
      DigitsCmp(a[1..], b[1..], 10 * m + x, 10 * n + y);
      DigitsCmp(b[1..], a[1..], 10 * n + y, 10 * m + x);
    }
  }
}
