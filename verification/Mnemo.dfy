/** Mnemonic numerals: base 100, one syllable a digit, with a syllable of its own for the minus sign. */
module Mnemo {
  function Consonants(): (c: seq<string>)
    ensures |c| == COUNT / 5
  {
    ["b", "ch", "d", "f", "g", "h", "j", "k", "l", "m", "n", "p", "r", "s", "sh", "t", "ts", "w", "y", "z"]
  }

  const VOWELS := "aiueo"
  const COUNT := 100
  const NEG := "xa"
  const MAX := 0x8000_0000_0000_0000  // one more than the greatest long long

  function Syllable(i: nat): (s: string)
    requires i < COUNT
    ensures |s| == |Consonants()[i / 5]| + 1
  {
    Consonants()[i / 5] + [VOWELS[i % 5]]
  }

  /** fmne_tos. */
  function Digits(i: nat): string {
    (if i / COUNT > 0 then Digits(i / COUNT) else "") + Syllable(i % COUNT)
  }

  /** fmne_to_s, but for the least long long, whose negation overflows. */
  function ToS(i: int): string {
    if i < 0 then NEG + Digits(-i) else Digits(i)
  }

  /** What a long long keeps of an integer. */
  function Wrap64(i: int): int { (i + MAX) % (2 * MAX) - MAX }

  datatype Result = Result(err: bool, value: int)

  predicate Begins(i: nat, s: string) { i < COUNT && Syllable(i) <= s }

  /** The first syllable of the table, from `i` on, that the text starts with; COUNT if there is none. */
  function Match(s: string, i: nat): (k: nat)
    requires i <= COUNT
    ensures i <= k <= COUNT
    decreases COUNT - i
  {
    if i == COUNT || Begins(i, s) then i else Match(s, i + 1)
  }

  lemma {:induction false} MatchFinds(s: string, i: nat)
    requires i <= COUNT
    ensures var k := Match(s, i); k < COUNT ==> Begins(k, s)
    ensures forall j :: i <= j < Match(s, i) ==> !Begins(j, s)
    decreases COUNT - i
  {
    hide Begins;
    if i < COUNT && !Begins(i, s) { MatchFinds(s, i + 1); }
  }

  /** Syllable by syllable, the first match of the table each time. */
  function Read(s: string, acc: int): Result
    decreases |s|
  {
    if s == [] then Result(false, acc) else
    var k := Match(s, 0);
    MatchFinds(s, 0);
    if k == COUNT then Result(true, 0) else Read(s[|Syllable(k)|..], Wrap64(COUNT * acc + k))
  }

  function FromS(s: string): Result {
    if NEG <= s then var r := Read(s[2..], 0); r.(value := Wrap64(-r.value)) else Read(s, 0)
  }

  lemma MatchStep(s: string, i: nat)
    requires i <= COUNT
    ensures Match(s, i) == if i == COUNT || Begins(i, s) then i else Match(s, i + 1)
  {
    hide Syllable;
  }

  lemma ReadStep(s: string, acc: int)
    requires s != []
    ensures
      var k := Match(s, 0);
      && (k < COUNT ==> Syllable(k) <= s)
      && Read(s, acc) == if k == COUNT then Result(true, 0) else Read(s[|Syllable(k)|..], Wrap64(COUNT * acc + k))
  {
    hide Syllable, Match, Wrap64;
    MatchFinds(s, 0);
  }

  lemma ReadEnd(acc: int)
    ensures Read([], acc) == Result(false, acc)
  {
  }

  /** fmne_to_i: it ends on every text. */
  method ToI(s: string) returns (r: Result)
    ensures r == FromS(s)
  {
    hide Syllable, Match, Wrap64, Read;
    var sign, rest := 1, s;
    if NEG <= s { sign, rest := -1, s[2..]; }
    ghost var all := rest;
    r := Result(false, 0);
    while !r.err && rest != []
      invariant Read(all, 0) == if r.err then r else Read(rest, r.value)
      decreases if r.err then 0 else 1, |rest|
    {
      var i := 0;
      while i < COUNT && !(Syllable(i) <= rest)
        invariant i <= COUNT && Match(rest, 0) == Match(rest, i)
      {
        MatchStep(rest, i);
        i := i + 1;
      }
      MatchStep(rest, i);
      MatchFinds(rest, 0);
      ReadStep(rest, r.value);
      if i == COUNT {
        r := Result(true, 0);
      } else {
        r := Result(false, Wrap64(COUNT * r.value + i));
        rest := rest[|Syllable(i)|..];
      }
    }
    ReadEnd(r.value);
    if sign == -1 { r := r.(value := Wrap64(-r.value)); }
  }

  // --- the table ---------------------------------------------------------------------------------------

  /** The syllables by their consonant: that of the digits 5 * c to 5 * c + 4 is row `c`. */
  function Table(): seq<seq<string>> {[
    ["ba", "bi", "bu", "be", "bo"], ["cha", "chi", "chu", "che", "cho"], ["da", "di", "du", "de", "do"],
    ["fa", "fi", "fu", "fe", "fo"], ["ga", "gi", "gu", "ge", "go"], ["ha", "hi", "hu", "he", "ho"],
    ["ja", "ji", "ju", "je", "jo"], ["ka", "ki", "ku", "ke", "ko"], ["la", "li", "lu", "le", "lo"],
    ["ma", "mi", "mu", "me", "mo"], ["na", "ni", "nu", "ne", "no"], ["pa", "pi", "pu", "pe", "po"],
    ["ra", "ri", "ru", "re", "ro"], ["sa", "si", "su", "se", "so"], ["sha", "shi", "shu", "she", "sho"],
    ["ta", "ti", "tu", "te", "to"], ["tsa", "tsi", "tsu", "tse", "tso"], ["wa", "wi", "wu", "we", "wo"],
    ["ya", "yi", "yu", "ye", "yo"], ["za", "zi", "zu", "ze", "zo"]]}

  lemma SyllableIs(c: nat, v: nat)
    requires c < 20 && v < 5
    ensures |Table()| == 20 && |Table()[c]| == 5 && Syllable(5 * c + v) == Table()[c][v]
  {
    hide Table;
    Row(c, v);
    assert (5 * c + v) / 5 == c && (5 * c + v) % 5 == v;
  }

  lemma Row(c: nat, v: nat)
    requires c < 20 && v < 5
    ensures |Table()| == 20 && |Table()[c]| == 5 && Table()[c][v] == Consonants()[c] + [VOWELS[v]]
  {
  }

  /** A number is written with its syllables in base 100, the first of them the highest; a negative one behind `xa`. */
  lemma ToSIs(n: nat, i: nat)
    requires n > 0 && i < COUNT
    ensures ToS(i) == Syllable(i) && ToS(COUNT * n + i) == ToS(n) + Syllable(i) && ToS(0 - n) == "xa" + ToS(n)
  {
    hide Syllable;
    assert (COUNT * n + i) / COUNT == n && (COUNT * n + i) % COUNT == i;
  }

  // --- the syllables are a prefix code ---------------------------------------------------------------

  predicate IsVowel(c: char) { c in VOWELS }

  lemma ConsonantsHaveNoVowels(k: nat)
    requires k < |Consonants()|
    ensures |Consonants()[k]| in {1, 2} && forall i :: 0 <= i < |Consonants()[k]| ==> !IsVowel(Consonants()[k][i])
    ensures Consonants()[k][0] != 'x'
  {
  }

  lemma ConsonantsDiffer(j: nat, k: nat)
    requires j < |Consonants()| && k < |Consonants()| && Consonants()[j] == Consonants()[k]
    ensures j == k
  {
  }

  lemma VowelsDiffer(j: nat, k: nat)
    requires j < 5 && k < 5 && VOWELS[j] == VOWELS[k]
    ensures j == k
  {
  }

  /** Of two syllables at the head of a text, none is longer: they are the same. */
  lemma PrefixFree(i: nat, j: nat, s: string)
    requires i < COUNT && j < COUNT && Syllable(i) <= s && Syllable(j) <= s
    ensures i == j
  {
    var a, b := Consonants()[i / 5], Consonants()[j / 5];
    ConsonantsHaveNoVowels(i / 5);
    ConsonantsHaveNoVowels(j / 5);
    assert s[|a|] == VOWELS[i % 5] && s[|b|] == VOWELS[j % 5];
    assert IsVowel(s[|a|]) && IsVowel(s[|b|]);
    assert forall k :: 0 <= k < |a| ==> s[k] == a[k];
    assert forall k :: 0 <= k < |b| ==> s[k] == b[k];
    assert |a| == |b|;
    assert a == b;
    ConsonantsDiffer(i / 5, j / 5);
    VowelsDiffer(i % 5, j % 5);
  }

  lemma MatchIs(i: nat, rest: string)
    requires i < COUNT
    ensures Match(Syllable(i) + rest, 0) == i
  {
    var k := Match(Syllable(i) + rest, 0);
    MatchFinds(Syllable(i) + rest, 0);
    assert Begins(i, Syllable(i) + rest);
    if k < COUNT {
      PrefixFree(k, i, Syllable(i) + rest);
    }
  }

  lemma ReadOne(low: nat, rest: string, acc: int)
    requires low < COUNT
    ensures Read(Syllable(low) + rest, acc) == Read(rest, Wrap64(COUNT * acc + low))
  {
    hide Syllable, Match, Wrap64;
    MatchIs(low, rest);
    ReadStep(Syllable(low) + rest, acc);
    assert (Syllable(low) + rest)[|Syllable(low)|..] == rest;
  }

  lemma WrapFits(n: nat)
    requires n < MAX
    ensures Wrap64(n) == n
  {
  }

  lemma {:induction false} ReadDigits(n: nat, rest: string)
    requires n < MAX
    ensures Read(Digits(n) + rest, 0) == Read(rest, n)
  {
    hide Syllable, Match, Read, Wrap64;
    WrapFits(n);
    var high, low := n / COUNT, n % COUNT;
    var tail := Syllable(low) + rest;
    ReadOne(low, rest, high);
    if high > 0 {
      ReadDigits(high, tail);
      assert Digits(n) + rest == Digits(high) + tail;
    } else {
      assert Digits(n) + rest == tail;
    }
    assert COUNT * high + low == n;
  }

  lemma {:induction false} NotNegative(n: nat)
    ensures Digits(n) != [] && Digits(n)[0] != 'x'
  {
    if n / COUNT > 0 {
      NotNegative(n / COUNT);
    } else {
      ConsonantsHaveNoVowels(n % COUNT / 5);
    }
  }

  /** Every long long but the least comes back without error. */
  lemma RoundTrip(i: int)
    requires -MAX < i < MAX
    ensures FromS(ToS(i)) == Result(false, i)
  {
    hide Digits, Read;
    var n := if i < 0 then -i else i;
    ReadDigits(n, []);
    assert Digits(n) + [] == Digits(n);
    NotNegative(n);
    if i < 0 {
      assert ToS(i)[2..] == Digits(n);
    }
    ReadEnd(n);
  }
}
