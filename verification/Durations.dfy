/** Durations as text (flu_ts_to_hs, flu_parse_ts): weeks to seconds, then the fraction of a second in nine digits. */
module Durations {
  import opened Values
  import opened Instructions

  datatype Time = Time(sec: int, nsec: int)

  const MINUTE := 60
  const HOUR := 3600
  const DAY := 86400
  const WEEK := 604800
  const SECOND_NANOS := 1000000000

  // --- writing ---------------------------------------------------------------------------------------

  function Part(n: int, unit: char): string { if n > 0 then IntText(n) + [unit] else [] }

  /** The `k` low digits of `n`, zeros in front: what `%09li` writes for nanoseconds when `k` is 9. */
  function Fixed(n: nat, k: nat): (s: string)
    ensures |s| == k && (forall i :: 0 <= i < k ==> IsDigit(s[i]))
  {
    if k == 0 then [] else Fixed(n / 10, k - 1) + [DigitChar(n % 10)]
  }

  /** How many digits of the fraction a format keeps. */
  function Keep(format: char): nat {
    if format == 's' then 0 else if format == 'm' then 3 else if format == 'u' then 6 else 9
  }

  /** Weeks, days, hours and minutes, each only when there are some. */
  function Above(sec: int): string {
    if sec < 0 then [] else
    Part(sec / WEEK, 'w') + Part(sec % WEEK / DAY, 'd') + Part(sec % DAY / HOUR, 'h') + Part(sec % HOUR / MINUTE, 'm')
  }

  /** The seconds: left out when there are none, but for a fraction that follows or when nothing else was written. */
  function Seconds(sec: int, format: char): string {
    var s := if sec < 0 then 0 else sec % MINUTE;
    if s > 0 then Part(s, 's') else if Above(sec) == [] || format != 's' then "0s" else []
  }

  function Hs(t: Time, format: char): string
    requires 0 <= t.nsec < SECOND_NANOS
  {
    Above(t.sec) + Seconds(t.sec, format) + Fixed(t.nsec, 9)[..Keep(format)]
  }

  /** flu_ts_to_hs: the running remainder and the text written so far. */
  method ToHs(t: Time, format: char) returns (r: string)
    requires 0 <= t.nsec < SECOND_NANOS
    ensures r == Hs(t, format)
  {
    hide IntText, Fixed, Div;
    Remainders(t.sec);
    r := "";
    var s := t.sec;
    var l := Div(s, WEEK);
    CRemainder(s, WEEK);
    s := s - l * WEEK;
    if l > 0 { r := r + IntText(l) + "w"; }
    assert r == Part(l, 'w');
    ghost var r1 := r;
    l := Div(s, DAY);
    CRemainder(s, DAY);
    s := s - l * DAY;
    if l > 0 { r := r + IntText(l) + "d"; }
    assert r == r1 + Part(l, 'd');
    ghost var r2 := r;
    l := Div(s, HOUR);
    CRemainder(s, HOUR);
    s := s - l * HOUR;
    if l > 0 { r := r + IntText(l) + "h"; }
    assert r == r2 + Part(l, 'h');
    ghost var r3 := r;
    l := Div(s, MINUTE);
    CRemainder(s, MINUTE);
    s := s - l * MINUTE;
    if l > 0 { r := r + IntText(l) + "m"; }
    assert r == r3 + Part(l, 'm');
    assert r == Above(t.sec);
    ghost var r4 := r;
    if s > 0 {
      r := r + IntText(s) + "s";
    } else if r == "" || format != 's' {
      r := r + "0s";
    }
    assert r == r4 + Seconds(t.sec, format);
    r := r + Fixed(t.nsec, 9)[..Keep(format)];
  }

  /** The quotient and the remainder of C, on either side of zero. */
  lemma CRemainder(s: int, b: int)
    requires b > 0
    ensures s >= 0 ==> Div(s, b) == s / b && s - Div(s, b) * b == s % b
    ensures s <= 0 ==> Div(s, b) <= 0 && s - Div(s, b) * b <= 0
  {
    var q, m := Abs(s) / b, Abs(s) % b;
    assert Abs(s) == q * b + m;
    assert Div(s, b) == if s >= 0 then q else -q;
    assert (-q) * b == -(q * b);
  }

  lemma Remainders(sec: int)
    ensures sec % WEEK % DAY == sec % DAY && sec % DAY % HOUR == sec % HOUR && sec % HOUR % MINUTE == sec % MINUTE
  {
    DaysOfWeeks(sec);
    HoursOfDays(sec);
    MinutesOfHours(sec);
  }

  lemma DaysOfWeeks(sec: int)
    ensures sec % WEEK % DAY == sec % DAY
  {
    var w, r := sec / WEEK, sec % WEEK;
    assert sec == (7 * w + r / DAY) * DAY + r % DAY;
  }

  lemma HoursOfDays(sec: int)
    ensures sec % DAY % HOUR == sec % HOUR
  {
    var d, r := sec / DAY, sec % DAY;
    assert sec == (24 * d + r / HOUR) * HOUR + r % HOUR;
  }

  lemma MinutesOfHours(sec: int)
    ensures sec % HOUR % MINUTE == sec % MINUTE
  {
    var h, r := sec / HOUR, sec % HOUR;
    assert sec == (60 * h + r / MINUTE) * MINUTE + r % MINUTE;
  }

  // --- reading ---------------------------------------------------------------------------------------

  predicate IsUnit(c: char) { c in "-+yMwdhms" }

  predicate Readable(c: char) { c == '.' || IsDigit(c) || IsUnit(c) || c == ' ' }

  function UnitSeconds(c: char): int {
    if c == 'm' then MINUTE
    else if c == 'h' then HOUR
    else if c == 'd' then DAY
    else if c == 'w' then WEEK
    else if c == 'M' then 30 * DAY
    else if c == 'y' then 365 * DAY
    else 1
  }

  /** `prev` is the last unit or point, NUL when there was none; `digits` what was read since. */
  datatype Scan = Scan(time: Time, sign: int, prev: char, digits: string)

  /** Negative nanoseconds are taken out of positive seconds. */
  function Borrow(t: Time): Time
    decreases t.sec
  {
    if t.sec > 0 && t.nsec < 0 then Borrow(Time(t.sec - 1, t.nsec + SECOND_NANOS)) else t
  }

  /** A fraction: its first nine digits, zeros behind. */
  function Nanos(digits: string): nat { ReadDigits((digits + "000000000")[..9], 0) }

  predicate IsFraction(prev: char, c: char) { prev == '.' || (c == '\0' && prev == 's') }

  /** At a unit or, `c` being NUL, at the end of the text. */
  function Flush(st: Scan, c: char): Scan {
    var t := st.time;
    var u := if IsFraction(st.prev, c) then Borrow(Time(t.sec, t.nsec + st.sign * Nanos(st.digits)))
             else Time(t.sec + st.sign * ReadDigits(st.digits, 0) * UnitSeconds(c), t.nsec);
    Scan(u, if c == '+' then 1 else if c == '-' then -1 else st.sign, c, [])
  }

  function Feed(st: Scan, c: char): Scan {
    if c == '.' then st.(prev := '.')
    else if IsDigit(c) then st.(digits := st.digits + [c])
    else if IsUnit(c) then Flush(st, c)
    else st
  }

  function Run(st: Scan, s: string): Option<Time>
    decreases |s|
  {
    if s == [] then Some(Flush(st, '\0').time)
    else if !Readable(s[0]) then None
    else Run(Feed(st, s[0]), s[1..])
  }

  const FRESH := Scan(Time(0, 0), 1, '\0', [])

  function Parse(s: string): Option<Time> { Run(FRESH, s) }

  /** What the buffer of digits holds: the digits and a NUL, then zeros, the last place a NUL too. */
  ghost predicate Holds(buf: seq<char>, digits: string) {
    && |buf| >= 10 && |digits| < |buf|
    && (forall k :: 0 <= k < |digits| ==> IsDigit(digits[k]) && buf[k] == digits[k])
    && (digits != [] ==> buf[|digits|] == '\0')
    && (digits == [] ==> buf[0] == '0')
    && (forall k :: |digits| < k < |buf| - 1 ==> buf[k] == '0')
    && buf[|buf| - 1] == '\0'
  }

  /** flu_parse_ts, with its buffer; strtoll reads the digits up to the NUL. */
  method ParseTs(s: string) returns (ts: Option<Time>)
    requires '\0' !in s
    ensures ts == Parse(s)
  {
    hide ReadDigits, UnitSeconds, Borrow, Nanos, Holds;
    var sec, nsec, sign, prev := 0, 0, 1, '\0';
    var l := if |s| < 9 then 9 else |s|;
    var ss := new char[l + 1](_ => '\0');
    Reset(ss);
    var i, j := 0, 0;
    ghost var st := FRESH;
    assert s[0..] == s;
    HoldsNothing(ss[..]);
    while true
      invariant 0 <= j <= i <= |s| && j == |st.digits| && ss.Length == l + 1
      invariant st == Scan(Time(sec, nsec), sign, prev, st.digits)
      invariant Holds(ss[..], st.digits)
      invariant Parse(s) == Run(st, s[i..])
      decreases |s| - i
    {
      var c := if i < |s| then s[i] else '\0';
      assert i < |s| ==> c != '\0' && s[i..][0] == c && s[i..][1..] == s[i + 1..];
      if c == '.' {
        prev := '.';
        st := Feed(st, c);
      } else if IsDigit(c) {
        HoldsMore(ss[..], st.digits, c);
        ss[j] := c;
        j := j + 1;
        ss[j] := '\0';
        st := Feed(st, c);
      } else if c == '\0' || IsUnit(c) {
        HoldsEnd(ss[..], st.digits);
        if IsFraction(prev, c) {
          HoldsNanos(ss[..], st.digits);
          ss[j] := '0';
          ss[9] := '\0';
          nsec := nsec + sign * ReadDigits(ss[..], 0);
          sec, nsec := Borrowed(sec, nsec);
        } else {
          HoldsNumber(ss[..], st.digits);
          sec := sec + sign * ReadDigits(ss[..], 0) * UnitSeconds(c);
        }
        st := Flush(st, c);
        j := 0;
        Reset(ss);
        if c == '\0' { break; }
        if c == '+' { sign := 1; } else if c == '-' { sign := -1; }
        prev := c;
        HoldsNothing(ss[..]);
      } else if c != ' ' {
        return None;
      }
      i := i + 1;
    }
    return Some(Time(sec, nsec));
  }

  /** All zeros again, but for the last place. */
  method Reset(ss: array<char>)
    requires ss.Length > 0
    modifies ss
    ensures forall k :: 0 <= k < ss.Length - 1 ==> ss[k] == '0'
    ensures ss[ss.Length - 1] == old(ss[ss.Length - 1])
  {
    for k := 0 to ss.Length - 1
      invariant forall i :: 0 <= i < k ==> ss[i] == '0'
      invariant ss[ss.Length - 1] == old(ss[ss.Length - 1])
    {
      ss[k] := '0';
    }
  }

  method Borrowed(sec: int, nsec: int) returns (sec': int, nsec': int)
    ensures Time(sec', nsec') == Borrow(Time(sec, nsec))
  {
    sec', nsec' := sec, nsec;
    while sec' > 0 && nsec' < 0
      invariant Borrow(Time(sec', nsec')) == Borrow(Time(sec, nsec))
      decreases sec'
    {
      sec' := sec' - 1;
      nsec' := nsec' + SECOND_NANOS;
    }
  }

  // --- the buffer ------------------------------------------------------------------------------------

  lemma HoldsNothing(buf: seq<char>)
    requires |buf| >= 10 && (forall k :: 0 <= k < |buf| - 1 ==> buf[k] == '0') && buf[|buf| - 1] == '\0'
    ensures Holds(buf, [])
  {
  }

  lemma HoldsEnd(buf: seq<char>, digits: string)
    requires Holds(buf, digits)
    ensures buf[|buf| - 1] == '\0'
  {
  }

  lemma HoldsMore(buf: seq<char>, digits: string, c: char)
    requires Holds(buf, digits) && IsDigit(c) && |digits| < |buf| - 1
    ensures Holds(buf[|digits| := c][|digits| + 1 := '\0'], digits + [c])
  {
  }

  lemma {:induction false} ReadZeros(digits: string)
    requires forall k :: 0 <= k < |digits| ==> digits[k] == '0'
    ensures ReadDigits(digits, 0) == 0
  {
    if digits != [] { ReadZeros(digits[1..]); }
  }

  lemma HoldsNumber(buf: seq<char>, digits: string)
    requires Holds(buf, digits)
    ensures ReadDigits(buf, 0) == ReadDigits(digits, 0)
  {
    var n := if digits == [] then |buf| - 1 else |digits|;
    assert buf == buf[..n] + buf[n..];
    ReadStops(buf[..n], buf[n..], 0);
    if digits == [] {
      ReadZeros(buf[..n]);
    } else {
      assert buf[..n] == digits;
    }
  }

  lemma HoldsNanos(buf: seq<char>, digits: string)
    requires Holds(buf, digits)
    ensures ReadDigits(buf[|digits| := '0'][9 := '\0'], 0) == Nanos(digits)
  {
    var b := buf[|digits| := '0'][9 := '\0'];
    assert b == b[..9] + b[9..];
    assert b[..9] == (digits + "000000000")[..9];
    ReadStops(b[..9], b[9..], 0);
  }

  // --- the round trip --------------------------------------------------------------------------------

  /** The fraction cut to what the format keeps. */
  function Cut(nsec: nat, format: char): nat {
    if format == 's' then 0
    else if format == 'm' then nsec / 1000000 * 1000000
    else if format == 'u' then nsec / 1000 * 1000
    else nsec
  }

  /** Digits are kept until a unit comes. */
  lemma {:induction false} RunDigits(st: Scan, digits: string, rest: string)
    requires forall k :: 0 <= k < |digits| ==> IsDigit(digits[k])
    ensures Run(st, digits + rest) == Run(st.(digits := st.digits + digits), rest)
    decreases |digits|
  {
    hide Flush;
    if digits == [] {
      assert digits + rest == rest && st.digits + digits == st.digits;
    } else {
      assert (digits + rest)[1..] == digits[1..] + rest;
      RunDigits(st.(digits := st.digits + [digits[0]]), digits[1..], rest);
      assert st.digits + [digits[0]] + digits[1..] == st.digits + digits;
    }
  }

  /** A number and its unit. */
  lemma RunUnit(st: Scan, n: nat, unit: char, rest: string)
    requires IsUnit(unit) && unit != '+' && unit != '-' && st.prev != '.' && st.digits == []
    ensures
      Run(st, NatText(n) + [unit] + rest)
      == Run(Scan(Time(st.time.sec + st.sign * n * UnitSeconds(unit), st.time.nsec), st.sign, unit, []), rest)
  {
    hide NatText, ReadDigits, UnitSeconds;
    var digits := NatText(n);
    assert digits + [unit] + rest == digits + ([unit] + rest);
    RunDigits(st, digits, [unit] + rest);
    assert [] + digits == digits;
    ReadNatText(n);
    assert ([unit] + rest)[1..] == rest;
  }

  lemma RunPart(st: Scan, n: nat, unit: char, rest: string) returns (to: Scan)
    requires IsUnit(unit) && unit != '+' && unit != '-' && st.prev != '.' && st.digits == [] && st.sign == 1
    ensures Run(st, Part(n, unit) + rest) == Run(to, rest)
    ensures to == Scan(Time(st.time.sec + n * UnitSeconds(unit), st.time.nsec), 1, to.prev, [])
    ensures to.prev == if n > 0 then unit else st.prev
  {
    hide NatText, Run, UnitSeconds;
    if n > 0 {
      RunUnit(st, n, unit, rest);
      to := Scan(Time(st.time.sec + n * UnitSeconds(unit), st.time.nsec), 1, unit, []);
      assert st.sign * n == n;
    } else {
      assert Part(n, unit) + rest == rest;
      to := st;
    }
  }

  lemma RunAbove(sec: nat, rest: string) returns (to: Scan)
    ensures Run(FRESH, Above(sec) + rest) == Run(to, rest)
    ensures to == Scan(Time(sec - sec % MINUTE, 0), 1, to.prev, []) && to.prev != '.' && to.prev != 's'
  {
    hide Run, Part;
    var w, d, h, m := Part(sec / WEEK, 'w'), Part(sec % WEEK / DAY, 'd'), Part(sec % DAY / HOUR, 'h'),
      Part(sec % HOUR / MINUTE, 'm');
    assert w + d + h + m + rest == w + (d + (h + (m + rest)));
    to := RunPart(FRESH, sec / WEEK, 'w', d + (h + (m + rest)));
    to := RunPart(to, sec % WEEK / DAY, 'd', h + (m + rest));
    to := RunPart(to, sec % DAY / HOUR, 'h', m + rest);
    to := RunPart(to, sec % HOUR / MINUTE, 'm', rest);
    SumOfParts(sec);
  }

  lemma SumOfParts(sec: nat)
    ensures
      sec / WEEK * WEEK + sec % WEEK / DAY * DAY + sec % DAY / HOUR * HOUR + sec % HOUR / MINUTE * MINUTE
      == sec - sec % MINUTE
  {
    Remainders(sec);
  }

  lemma {:induction false} ReadFixed(n: nat, k: nat)
    requires n < Ten(k)
    ensures ReadDigits(Fixed(n, k), 0) == n
  {
    if k > 0 {
      ReadFixed(n / 10, k - 1);
      ReadDigitsAppend(Fixed(n / 10, k - 1), DigitChar(n % 10), 0);
    }
  }

  /** Ten to the power of `k`. */
  function Ten(k: nat): nat { if k == 0 then 1 else 10 * Ten(k - 1) }

  /** The first digits are those of the quotient. */
  lemma DropThree(n: nat, k: nat)
    requires k >= 3
    ensures Fixed(n, k)[..k - 3] == Fixed(n / 1000, k - 3)
  {
    assert Fixed(n, k)[..k - 1] == Fixed(n / 10, k - 1);
    assert Fixed(n / 10, k - 1)[..k - 2] == Fixed(n / 10 / 10, k - 2);
    assert Fixed(n / 10 / 10, k - 2)[..k - 3] == Fixed(n / 10 / 10 / 10, k - 3);
    assert n / 10 / 10 / 10 == n / 1000;
  }

  lemma ThreeZeros(s: string)
    requires forall k :: 0 <= k < |s| ==> IsDigit(s[k])
    ensures ReadDigits(s + "000", 0) == 1000 * ReadDigits(s, 0)
  {
    hide ReadDigits;
    assert s + "000" == s + ['0'] + ['0'] + ['0'];
    ReadDigitsAppend(s, '0', 0);
    ReadDigitsAppend(s + ['0'], '0', 0);
    ReadDigitsAppend(s + ['0'] + ['0'], '0', 0);
  }

  lemma NanosOfFixed(n: nat, format: char)
    requires n < SECOND_NANOS
    ensures Nanos(Fixed(n, 9)[..Keep(format)]) == Cut(n, format)
  {
    hide ReadDigits, Fixed;
    var f, k, z := Fixed(n, 9), Keep(format), "000000000";
    Tens();
    if k == 9 {
      assert (f[..k] + z)[..9] == f;
      ReadFixed(n, 9);
    } else if k == 6 {
      DropThree(n, 9);
      assert (f[..k] + z)[..9] == f[..6] + "000";
      ReadFixed(n / 1000, 6);
      ThreeZeros(f[..6]);
    } else if k == 3 {
      DropThree(n, 9);
      DropThree(n / 1000, 6);
      assert f[..3] == f[..6][..3] == Fixed(n / 1000 / 1000, 3);
      assert (f[..k] + z)[..9] == f[..3] + "000" + "000";
      ReadFixed(n / 1000 / 1000, 3);
      ThreeZeros(f[..3]);
      ThreeZeros(f[..3] + "000");
    } else {
      assert (f[..k] + z)[..9] == z;
      ReadZeros(z);
    }
  }

  lemma Tens()
    ensures Ten(3) == 1000 && Ten(6) == 1000000 && Ten(9) == SECOND_NANOS
  {
  }

  /** Reading the text of a time gives the time back, its fraction cut to what the format keeps, unless it is negative:
      then no seconds are left of it. */
  lemma RoundTrip(t: Time, format: char)
    requires 0 <= t.nsec < SECOND_NANOS
    ensures Parse(Hs(t, format)) == Some(Time(if t.sec < 0 then 0 else t.sec, Cut(t.nsec, format)))
  {
    hide Parse, Hs, Cut;
    if t.sec < 0 {
      NegativeIsZero(t, format);
      ComesBack(Time(0, t.nsec), format);
    } else {
      ComesBack(t, format);
    }
  }

  lemma NegativeIsZero(t: Time, format: char)
    requires 0 <= t.nsec < SECOND_NANOS && t.sec < 0
    ensures Hs(t, format) == Hs(Time(0, t.nsec), format)
  {
    assert Above(0) == [] && Above(t.sec) == [];
  }

  lemma ComesBack(t: Time, format: char)
    requires 0 <= t.sec && 0 <= t.nsec < SECOND_NANOS
    ensures Parse(Hs(t, format)) == Some(Time(t.sec, Cut(t.nsec, format)))
  {
    hide Run, Part, Fixed, Above, Nanos, Cut;
    var f, s := Fixed(t.nsec, 9)[..Keep(format)], t.sec % MINUTE;
    assert Hs(t, format) == Above(t.sec) + (Seconds(t.sec, format) + f);
    var st := RunAbove(t.sec, Seconds(t.sec, format) + f);
    NanosOfFixed(t.nsec, format);
    if Seconds(t.sec, format) == [] {
      NoSeconds(t, format);
      assert [] + f == f;
      RunEnd(st, f);
    } else {
      var to := RunSeconds(st, s, t.sec, format, f);
      RunEnd(to, f);
    }
  }

  lemma NoSeconds(t: Time, format: char)
    requires 0 <= t.sec && 0 <= t.nsec && Seconds(t.sec, format) == []
    ensures t.sec % MINUTE == 0 && Keep(format) == 0 && Cut(t.nsec, format) == 0
  {
    hide Above;
  }

  lemma RunSeconds(st: Scan, s: nat, sec: nat, format: char, rest: string) returns (to: Scan)
    requires st.prev != '.' && st.digits == [] && st.sign == 1 && s == sec % MINUTE && Seconds(sec, format) != []
    ensures Run(st, Seconds(sec, format) + rest) == Run(to, rest)
    ensures to == Scan(Time(st.time.sec + s, st.time.nsec), 1, 's', [])
  {
    hide Run, Above;
    assert "0s" == NatText(0) + ['s'];
    assert Seconds(sec, format) == NatText(s) + ['s'];
    RunUnit(st, s, 's', rest);
    to := Scan(Time(st.time.sec + s, st.time.nsec), 1, 's', []);
  }

  /** The digits at the end of the text: a fraction after seconds, nothing otherwise. */
  lemma RunEnd(st: Scan, digits: string)
    requires forall k :: 0 <= k < |digits| ==> IsDigit(digits[k])
    requires st.digits == [] && st.sign == 1 && st.time.nsec == 0 && st.prev != '.'
    requires st.prev == 's' || digits == []
    ensures Run(st, digits) == Some(Time(st.time.sec, if st.prev == 's' then Nanos(digits) else 0))
  {
    hide Nanos;
    assert digits + [] == digits && [] + digits == digits;
    RunDigits(st, digits, []);
  }

  // --- what is refused, and a point ------------------------------------------------------------------

  /** A text is refused exactly when it holds a character that is neither a digit, a unit, a point nor a space. */
  lemma {:induction false} RefusedWhen(st: Scan, s: string)
    ensures Run(st, s) == None <==> exists k :: 0 <= k < |s| && !Readable(s[k])
    decreases |s|
  {
    hide Feed, Flush, Readable;
    if s != [] {
      RefusedWhen(Feed(st, s[0]), s[1..]);
      if k :| 0 <= k < |s[1..]| && !Readable(s[1..][k]) {
        assert !Readable(s[k + 1]);
      }
      if k :| 0 <= k < |s| && !Readable(s[k]) {
        assert k > 0 ==> s[1..][k - 1] == s[k];
      }
    }
  }

  /** A point does not end the number before it: `1.5` reads as the fraction `15`, and as no seconds. */
  lemma PointJoins(a: string, b: string)
    requires forall k :: 0 <= k < |a| ==> IsDigit(a[k])
    requires forall k :: 0 <= k < |b| ==> IsDigit(b[k])
    ensures Parse(a + "." + b) == Some(Time(0, Nanos(a + b)))
  {
    hide Nanos;
    var point := FRESH.(digits := a, prev := '.');
    assert a + "." + b == a + ("." + b) && [] + a == a;
    RunDigits(FRESH, a, "." + b);
    assert ("." + b)[1..] == b && b + [] == b;
    RunDigits(point, b, []);
  }

  // --- what is read ------------------------------------------------------------------------------------

  /** How many seconds a unit stands for: a year is 365 days, a month 30. */
  const UNITS := [('y', 31536000), ('M', 2592000), ('w', 604800), ('d', 86400), ('h', 3600), ('m', 60), ('s', 1)]

  /** A number and its unit, behind a sign or not. */
  datatype Amount = Amount(sign: string, digits: string, unit: nat)

  predicate IsAmount(a: Amount) { a.sign in ["", "+", "-"] && AllDigits(a.digits) && a.unit < |UNITS| }

  function Spell(ams: seq<Amount>): string
    requires forall i :: 0 <= i < |ams| ==> IsAmount(ams[i])
  {
    if ams == [] then "" else
    assert IsAmount(ams[0]);
    ams[0].sign + ams[0].digits + [UNITS[ams[0].unit].0] + Spell(ams[1..])
  }

  /** The seconds they add up to; a sign stays until the next one. */
  function Total(ams: seq<Amount>, sign: int): int
    requires forall i :: 0 <= i < |ams| ==> IsAmount(ams[i])
  {
    if ams == [] then 0 else
    assert IsAmount(ams[0]);
    var s := if ams[0].sign == "-" then -1 else if ams[0].sign == "+" then 1 else sign;
    s * ReadDigits(ams[0].digits, 0) * UNITS[ams[0].unit].1 + Total(ams[1..], s)
  }

  lemma UnitsAre(k: nat)
    requires k < |UNITS|
    ensures IsUnit(UNITS[k].0) && UNITS[k].0 !in "+-." && UnitSeconds(UNITS[k].0) == UNITS[k].1
  {
  }

  lemma RunSign(st: Scan, sign: string, rest: string) returns (to: Scan)
    requires sign in ["", "+", "-"] && st.prev != '.' && st.digits == []
    ensures Run(st, sign + rest) == Run(to, rest)
    ensures to == Scan(st.time, if sign == "-" then -1 else if sign == "+" then 1 else st.sign, to.prev, [])
    ensures to.prev != '.'
  {
    hide UnitSeconds, Borrow, Nanos;
    if sign == "" {
      assert sign + rest == rest;
      to := st;
    } else {
      assert (sign + rest)[0] == sign[0] && (sign + rest)[1..] == rest;
      NothingRead(st.sign * ReadDigits([], 0), UnitSeconds(sign[0]));
      to := Flush(st, sign[0]);
    }
  }

  lemma NothingRead(n: int, unit: int)
    ensures n == 0 ==> n * unit == 0
    ensures ReadDigits([], 0) == 0
  {
  }

  lemma RunNumber(st: Scan, digits: string, unit: char, rest: string)
    requires AllDigits(digits) && IsUnit(unit) && unit !in "+-" && st.prev != '.' && st.digits == []
    ensures
      Run(st, digits + [unit] + rest)
      == Run(Scan(Time(st.time.sec + st.sign * ReadDigits(digits, 0) * UnitSeconds(unit), st.time.nsec), st.sign, unit, []), rest)
  {
    hide ReadDigits, UnitSeconds;
    assert digits + [unit] + rest == digits + ([unit] + rest) && [] + digits == digits;
    RunDigits(st, digits, [unit] + rest);
    assert ([unit] + rest)[1..] == rest;
  }

  lemma {:induction false} RunAmounts(st: Scan, ams: seq<Amount>)
    requires forall i :: 0 <= i < |ams| ==> IsAmount(ams[i])
    requires st.prev != '.' && st.digits == [] && st.time.nsec == 0
    ensures Run(st, Spell(ams)) == Some(Time(st.time.sec + Total(ams, st.sign), 0))
    decreases |ams|
  {
    hide Run, ReadDigits, UnitSeconds;
    if ams == [] {
      RunNothing(st);
    } else {
      var a, rest := ams[0], Spell(ams[1..]);
      UnitsAre(a.unit);
      var unit := UNITS[a.unit].0;
      assert Spell(ams) == a.sign + (a.digits + [unit] + rest);
      var to := RunSign(st, a.sign, a.digits + [unit] + rest);
      RunNumber(to, a.digits, unit, rest);
      RunAmounts(Scan(Time(to.time.sec + to.sign * ReadDigits(a.digits, 0) * UnitSeconds(unit), 0), to.sign, unit, []), ams[1..]);
    }
  }

  lemma RunNothing(st: Scan)
    requires st.prev != '.' && st.digits == [] && st.time.nsec == 0
    ensures Run(st, "") == Some(Time(st.time.sec, 0))
  {
    hide UnitSeconds;
    NothingRead(st.sign * ReadDigits([], 0), UnitSeconds('\0'));
    NoNanos();
    NothingRead(st.sign * Nanos([]), 1);
  }

  lemma NoNanos()
    ensures Nanos([]) == 0
  {
    hide ReadDigits;
    var z := "000000000";
    assert ([] + z)[..9] == z;
    ReadZeros(z);
  }

  /** A text of numbers and units reads as what they add up to. */
  lemma AmountsRead(ams: seq<Amount>)
    requires forall i :: 0 <= i < |ams| ==> IsAmount(ams[i])
    ensures Parse(Spell(ams)) == Some(Time(Total(ams, 1), 0))
  {
    hide Run, Total, Spell;
    RunAmounts(FRESH, ams);
  }

  /** A number without a unit is seconds. */
  lemma BareNumber(digits: string)
    requires AllDigits(digits)
    ensures Parse(digits) == Some(Time(ReadDigits(digits, 0), 0))
  {
    hide ReadDigits;
    assert digits + [] == digits && [] + digits == digits;
    RunDigits(FRESH, digits, []);
    assert 1 * ReadDigits(digits, 0) * UnitSeconds('\0') == ReadDigits(digits, 0);
  }

  /** Borrowing keeps the time, and leaves no nanoseconds below zero as long as there are seconds. */
  lemma {:induction false} BorrowKeeps(t: Time)
    ensures Borrow(t).sec * 1000000000 + Borrow(t).nsec == t.sec * 1000000000 + t.nsec
    ensures Borrow(t).nsec >= 0 || Borrow(t).sec <= 0
    ensures t.nsec >= 0 ==> Borrow(t) == t
    decreases t.sec
  {
    if t.sec > 0 && t.nsec < 0 { BorrowKeeps(Time(t.sec - 1, t.nsec + SECOND_NANOS)); }
  }
}
