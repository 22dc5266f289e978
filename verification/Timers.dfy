/** The `at` timers of the dispatcher: a linked list kept in order by insertion, shifted by triggers. */
module Timers {
  import opened Values

  /** `arrival` tells apart, and orders, timers with the same stamp and file. */
  datatype Timer = Timer(ts: string, fn: string, arrival: nat)

  // --- ordered lists -----------------------------------------------------------------------------------

  /** `a` has to fire before `b`: an earlier stamp, or an earlier arrival. */
  predicate Before(a: Timer, b: Timer) {
    if a.ts == b.ts then a.arrival < b.arrival else AtMost(a.ts, b.ts)
  }

  lemma BeforeIs(a: Timer, b: Timer)
    ensures Before(a, b) <==> StrCmp(a.ts, b.ts) < 0 || (a.ts == b.ts && a.arrival < b.arrival)
  {
    hide StrCmp, AtMost;
    CmpIs(a.ts, b.ts);
  }

  predicate InOrder(l: seq<Timer>) { forall i, j :: 0 <= i < j < |l| ==> Before(l[i], l[j]) }

  /** flu_list_oinsert: in front of the first greater one. */
  function Insert(l: seq<Timer>, t: Timer): seq<Timer> {
    if l == [] then [t]
    else if StrCmp(t.ts, l[0].ts) < 0 then [t] + l
    else [l[0]] + Insert(l[1..], t)
  }

  /** The timers that a trigger at `ns` shifts, and those it leaves. */
  function Due(l: seq<Timer>, ns: string): seq<Timer> {
    if l == [] || StrCmp(l[0].ts, ns) > 0 then [] else [l[0]] + Due(l[1..], ns)
  }

  function Left(l: seq<Timer>, ns: string): seq<Timer> {
    if l == [] || StrCmp(l[0].ts, ns) > 0 then l else Left(l[1..], ns)
  }

  /** remove_timer. */
  function Remove(l: seq<Timer>, ts: string, fn: string): seq<Timer> {
    if l == [] then []
    else if l[0].ts == ts && l[0].fn == fn then l[1..]
    else [l[0]] + Remove(l[1..], ts, fn)
  }

  lemma {:induction false} InsertAt(l: seq<Timer>, t: Timer, k: nat)
    requires k <= |l| && forall i :: 0 <= i < k ==> StrCmp(t.ts, l[i].ts) >= 0
    requires k < |l| ==> StrCmp(t.ts, l[k].ts) < 0
    ensures Insert(l, t) == l[..k] + [t] + l[k..]
  {
    hide StrCmp;
    if k > 0 {
      InsertAt(l[1..], t, k - 1);
      assert l[..k] == [l[0]] + l[1..][..k - 1] && l[1..][k - 1..] == l[k..];
    }
  }

  lemma {:induction false} InsertPlace(l: seq<Timer>, t: Timer) returns (k: nat)
    ensures k <= |l| && forall i :: 0 <= i < k ==> StrCmp(t.ts, l[i].ts) >= 0
    ensures k < |l| ==> StrCmp(t.ts, l[k].ts) < 0
  {
    hide StrCmp;
    k := 0;
    while k < |l| && StrCmp(t.ts, l[k].ts) >= 0
      invariant k <= |l| && forall i :: 0 <= i < k ==> StrCmp(t.ts, l[i].ts) >= 0
    {
      k := k + 1;
    }
  }

  /** Inserting a timer that arrives last keeps the order, and adds that timer only. */
  lemma InsertInOrder(l: seq<Timer>, t: Timer)
    requires InOrder(l) && forall i :: 0 <= i < |l| ==> l[i].arrival < t.arrival
    ensures InOrder(Insert(l, t))
    ensures multiset(Insert(l, t)) == multiset(l) + multiset{t}
  {
    hide StrCmp, AtMost, Before, Insert, InOrder;
    var k := InsertPlace(l, t);
    InsertAt(l, t, k);
    assert l == l[..k] + l[k..];
    if k < |l| {
      BeforeRest(l, t, k);
    }
    forall i | 0 <= i < k ensures Before(l[i], t) {
      CmpIs(t.ts, l[i].ts);
      BeforeIs(l[i], t);
    }
    SpliceInOrder(l, t, k);
  }

  lemma BeforeRest(l: seq<Timer>, t: Timer, k: nat)
    requires InOrder(l) && k < |l| && StrCmp(t.ts, l[k].ts) < 0
    ensures forall j :: k <= j < |l| ==> Before(t, l[j])
  {
    hide StrCmp, AtMost, Before;
    BeforeIs(t, l[k]);
    forall j | k < j < |l| ensures Before(t, l[j]) {
      assert Before(l[k], l[j]);
      BeforeIs(l[k], l[j]);
      BeforeIs(t, l[j]);
      CmpIs(l[k].ts, l[j].ts);
      CmpTransitive(t.ts, l[k].ts, l[j].ts);
    }
  }

  lemma SpliceInOrder(l: seq<Timer>, t: Timer, k: nat)
    requires InOrder(l) && k <= |l|
    requires (forall i :: 0 <= i < k ==> Before(l[i], t)) && (forall j :: k <= j < |l| ==> Before(t, l[j]))
    ensures InOrder(l[..k] + [t] + l[k..])
  {
    hide Before;
    var r := l[..k] + [t] + l[k..];
    assert forall i :: 0 <= i < k ==> r[i] == l[i];
    assert forall i :: k < i < |r| ==> r[i] == l[i - 1];
  }

  /** A trigger shifts the timers whose stamp is at most its time, all of them, and keeps their order. */
  lemma {:induction false} DueIsExact(l: seq<Timer>, ns: string)
    requires InOrder(l)
    ensures Due(l, ns) + Left(l, ns) == l
    ensures InOrder(Due(l, ns)) && InOrder(Left(l, ns))
    ensures forall t :: t in Due(l, ns) ==> AtMost(t.ts, ns)
    ensures forall t :: t in Left(l, ns) ==> !AtMost(t.ts, ns)
  {
    hide StrCmp, AtMost, Before;
    if l == [] {
    } else if StrCmp(l[0].ts, ns) > 0 {
      forall i | 0 <= i < |l| ensures !AtMost(l[i].ts, ns) {
        CmpIs(l[i].ts, ns);
        if i > 0 {
          LaterStamp(l[0], l[i]);
          if StrCmp(l[i].ts, ns) <= 0 { CmpTransitive(l[0].ts, l[i].ts, ns); }
        }
      }
    } else {
      CmpIs(l[0].ts, ns);
      DueIsExact(l[1..], ns);
      assert l == [l[0]] + l[1..];
      assert Due(l, ns) + Left(l, ns) == [l[0]] + (Due(l[1..], ns) + Left(l[1..], ns));
      var due := Due(l, ns);
      forall i, j | 0 <= i < j < |due| ensures Before(due[i], due[j]) {
        assert due[i] == l[i] && due[j] == l[j];
      }
    }
  }

  lemma LaterStamp(a: Timer, b: Timer)
    requires Before(a, b)
    ensures StrCmp(a.ts, b.ts) <= 0
  {
    hide StrCmp, AtMost;
    BeforeIs(a, b);
    CmpIs(a.ts, b.ts);
  }

  /** The timer that remove_timer takes out, if any. */
  function Removed(l: seq<Timer>, ts: string, fn: string): seq<Timer> {
    if l == [] then [] else if l[0].ts == ts && l[0].fn == fn then [l[0]] else Removed(l[1..], ts, fn)
  }

  /** The place of the first timer of a stamp and a file, or the number of timers. */
  function Place(l: seq<Timer>, ts: string, fn: string): (k: nat)
    ensures k <= |l| && forall i :: 0 <= i < k ==> l[i].ts != ts || l[i].fn != fn
    ensures k < |l| ==> l[k].ts == ts && l[k].fn == fn
  {
    if l == [] || (l[0].ts == ts && l[0].fn == fn) then 0 else 1 + Place(l[1..], ts, fn)
  }

  lemma {:induction false} RemoveAt(l: seq<Timer>, ts: string, fn: string, k: nat)
    requires k == Place(l, ts, fn)
    ensures Remove(l, ts, fn) == if k < |l| then l[..k] + l[k + 1..] else l
    ensures Removed(l, ts, fn) == if k < |l| then [l[k]] else []
  {
    if k > 0 {
      RemoveAt(l[1..], ts, fn, k - 1);
      RemoveLater(l, k, Remove(l[1..], ts, fn));
    }
  }

  lemma RemoveLater(l: seq<Timer>, k: nat, rest: seq<Timer>)
    requires 0 < k <= |l| && rest == if k < |l| then l[1..][..k - 1] + l[1..][k..] else l[1..]
    ensures [l[0]] + rest == if k < |l| then l[..k] + l[k + 1..] else l
  {
  }

  /** Taking a timer out takes that timer only, and keeps the order. */
  lemma RemoveIsExact(l: seq<Timer>, ts: string, fn: string)
    ensures multiset(l) == multiset(Remove(l, ts, fn)) + multiset(Removed(l, ts, fn))
    ensures forall t :: t in Remove(l, ts, fn) ==> t in l
    ensures InOrder(l) ==> InOrder(Remove(l, ts, fn))
  {
    hide Before, Remove, Removed, Place;
    var k := Place(l, ts, fn);
    RemoveAt(l, ts, fn, k);
    if k < |l| {
      assert l == l[..k] + [l[k]] + l[k + 1..];
    }
  }

  // --- runs ----------------------------------------------------------------------------------------------

  datatype Event = Schedule(ts: string, fn: string) | Unschedule(ts: string, fn: string) | Trigger(ns: string)

  /** The timers that wait, fired and were taken out, and how many ever arrived. */
  datatype Board = Board(pending: seq<Timer>, fired: seq<Timer>, dropped: seq<Timer>, arrivals: nat)

  function After(b: Board, e: Event): Board {
    match e
    case Schedule(ts, fn) => b.(pending := Insert(b.pending, Timer(ts, fn, b.arrivals)), arrivals := b.arrivals + 1)
    case Unschedule(ts, fn) =>
      b.(pending := Remove(b.pending, ts, fn), dropped := b.dropped + Removed(b.pending, ts, fn))
    case Trigger(ns) => b.(pending := Left(b.pending, ns), fired := b.fired + Due(b.pending, ns))
  }

  function BoardAt(es: seq<Event>, k: nat): Board
    requires k <= |es|
  {
    if k == 0 then Board([], [], [], 0) else After(BoardAt(es, k - 1), es[k - 1])
  }

  /** The timers scheduled by the first `k` events. */
  function Scheduled(es: seq<Event>, k: nat): seq<Timer>
    requires k <= |es|
  {
    if k == 0 then []
    else
      var before := Scheduled(es, k - 1);
      if es[k - 1].Schedule? then before + [Timer(es[k - 1].ts, es[k - 1].fn, |before|)] else before
  }

  predicate Arrived(l: seq<Timer>, n: nat) { forall t :: t in l ==> t.arrival < n }

  /** In every run, the waiting timers are in order, and each timer scheduled waits, fired or was taken out,
      exactly once. */
  lemma {:induction false} NoneLostNorTwice(es: seq<Event>, k: nat)
    requires k <= |es|
    ensures
      var b := BoardAt(es, k);
      && InOrder(b.pending) && b.arrivals == |Scheduled(es, k)| && Arrived(b.pending, b.arrivals)
      && multiset(Scheduled(es, k)) == multiset(b.pending) + multiset(b.fired) + multiset(b.dropped)
    ensures forall t :: multiset(Scheduled(es, k))[t] <= 1
  {
    hide Insert, Due, Left, Remove, Removed, InOrder, AtMost, StrCmp;
    if k == 0 {
      EmptyInOrder();
    } else {
      NoneLostNorTwice(es, k - 1);
      ScheduledOnce(es, k);
      BoardStep(BoardAt(es, k - 1), es[k - 1], Scheduled(es, k - 1));
    }
  }

  lemma EmptyInOrder()
    ensures InOrder([])
  {
  }

  lemma BoardStep(b: Board, e: Event, scheduled: seq<Timer>)
    requires InOrder(b.pending) && b.arrivals == |scheduled| && Arrived(b.pending, b.arrivals)
    requires multiset(scheduled) == multiset(b.pending) + multiset(b.fired) + multiset(b.dropped)
    ensures
      var c := After(b, e);
      var all := if e.Schedule? then scheduled + [Timer(e.ts, e.fn, |scheduled|)] else scheduled;
      && InOrder(c.pending) && c.arrivals == |all| && Arrived(c.pending, c.arrivals)
      && multiset(all) == multiset(c.pending) + multiset(c.fired) + multiset(c.dropped)
  {
    hide Insert, Due, Left, Remove, Removed, InOrder, AtMost, StrCmp;
    match e
    case Schedule(ts, fn) =>
      var t := Timer(ts, fn, b.arrivals);
      assert forall i :: 0 <= i < |b.pending| ==> b.pending[i] in b.pending;
      InsertInOrder(b.pending, t);
      forall x | x in Insert(b.pending, t) ensures x.arrival < b.arrivals + 1 {
        assert x in multiset(Insert(b.pending, t));
      }
    case Unschedule(ts, fn) => RemoveIsExact(b.pending, ts, fn);
    case Trigger(ns) =>
      DueIsExact(b.pending, ns);
      var due, left := Due(b.pending, ns), Left(b.pending, ns);
      assert multiset(due + left) == multiset(due) + multiset(left);
      forall x | x in left ensures x in b.pending {
        assert x in due + left;
      }
  }

  lemma {:induction false} ScheduledOnce(es: seq<Event>, k: nat)
    requires k <= |es|
    ensures forall i :: 0 <= i < |Scheduled(es, k)| ==> Scheduled(es, k)[i].arrival == i
    ensures forall t :: multiset(Scheduled(es, k))[t] <= 1
  {
    if k > 0 {
      ScheduledOnce(es, k - 1);
      var before := Scheduled(es, k - 1);
      if es[k - 1].Schedule? {
        var t := Timer(es[k - 1].ts, es[k - 1].fn, |before|);
        assert t !in before;
        assert multiset(before + [t]) == multiset(before) + multiset{t};
      }
    }
  }

  /** A trigger at `ns` in a run fires exactly the waiting timers with a stamp of at most `ns`, by stamp and then
      by arrival. */
  lemma TriggersAreExact(es: seq<Event>, k: nat)
    requires k < |es| && es[k].Trigger?
    ensures
      var b, c, ns := BoardAt(es, k), BoardAt(es, k + 1), es[k].ns;
      && b.fired <= c.fired && b.pending == c.fired[|b.fired|..] + c.pending
      && InOrder(c.fired[|b.fired|..])
      && (forall t :: t in c.fired[|b.fired|..] ==> AtMost(t.ts, ns))
      && (forall t :: t in c.pending ==> !AtMost(t.ts, ns))
  {
    hide Due, Left, InOrder, AtMost, StrCmp;
    NoneLostNorTwice(es, k);
    var b, c := BoardAt(es, k), BoardAt(es, k + 1);
    DueIsExact(b.pending, es[k].ns);
    assert c.fired[|b.fired|..] == Due(b.pending, es[k].ns);
  }

  // --- the list ------------------------------------------------------------------------------------------

  class Cell {
    const ts: string
    const fn: string
    ghost const arrival: nat
    var next: Cell?

    constructor (ts: string, fn: string, ghost arrival: nat)
      ensures this.ts == ts && this.fn == fn && this.arrival == arrival && next == null
    {
      this.ts, this.fn, this.arrival := ts, fn, arrival;
      next := null;
    }

    ghost function Value(): Timer { Timer(ts, fn, arrival) }
  }

  ghost function TimersOf(cells: seq<Cell>): (l: seq<Timer>)
    ensures |l| == |cells| && forall i :: 0 <= i < |cells| ==> l[i] == cells[i].Value()
  {
    if cells == [] then [] else [cells[0].Value()] + TimersOf(cells[1..])
  }

  ghost predicate Distinct(cells: seq<Cell>) { forall i, j :: 0 <= i < j < |cells| ==> cells[i] != cells[j] }

  ghost function At(cells: seq<Cell>, i: nat): Cell? { if i < |cells| then cells[i] else null }

  lemma Spliced(was: seq<Cell>, k: nat, n: Cell)
    requires k <= |was| && n !in was && Distinct(was)
    ensures
      var cells := was[..k] + [n] + was[k..];
      && Distinct(cells)
      && TimersOf(cells) == TimersOf(was)[..k] + [n.Value()] + TimersOf(was)[k..]
      && (forall i :: 0 <= i < k ==> cells[i] == was[i])
      && cells[k] == n
      && (forall i :: k < i < |cells| ==> cells[i] == was[i - 1])
  {
    var cells := was[..k] + [n] + was[k..];
    forall i, j | 0 <= i < j < |cells| ensures cells[i] != cells[j] {
      assert cells[i] in was || cells[j] in was;
    }
    assert TimersOf(cells) == TimersOf(was)[..k] + [n.Value()] + TimersOf(was)[k..] by { hide Distinct; }
  }

  lemma PlaceIs(l: seq<Timer>, ts: string, fn: string, k: nat)
    requires k <= |l| && forall i :: 0 <= i < k ==> l[i].ts != ts || l[i].fn != fn
    requires k < |l| ==> l[k].ts == ts && l[k].fn == fn
    ensures Place(l, ts, fn) == k
  {
    hide Place;
  }

  lemma Apart(cells: seq<Cell>, i: nat, j: nat)
    requires Distinct(cells) && i < |cells| && j < |cells| && i != j
    ensures cells[i] != cells[j]
  {
  }

  lemma Cut(was: seq<Cell>, k: nat)
    requires k < |was| && Distinct(was)
    ensures
      var cells := was[..k] + was[k + 1..];
      && Distinct(cells)
      && TimersOf(cells) == TimersOf(was)[..k] + TimersOf(was)[k + 1..]
      && (forall i :: 0 <= i < k ==> cells[i] == was[i])
      && (forall i :: k <= i < |cells| ==> cells[i] == was[i + 1])
  {
    var cells := was[..k] + was[k + 1..];
    assert TimersOf(cells) == TimersOf(was)[..k] + TimersOf(was)[k + 1..] by { hide Distinct; }
  }

  class TimerList {
    var first: Cell?
    var last: Cell?              // only means something in a list that is not empty
    var size: nat
    ghost var cells: seq<Cell>   // from the first to the last

    ghost predicate Valid()
      reads this, cells`next
    {
      && size == |cells|
      && first == At(cells, 0)
      && (cells != [] ==> last == cells[|cells| - 1] && last.next == null)
      && Distinct(cells)
      && forall i, j :: 0 <= i < j == i + 1 < |cells| ==> cells[i].next == cells[j]
    }

    ghost function Contents(): seq<Timer>
      reads this
    {
      TimersOf(cells)
    }

    constructor ()
      ensures Valid() && Contents() == []
    {
      first, last, size, cells := null, null, 0, [];
    }

    /** flu_list_oinsert. */
    method OInsert(ts: string, fn: string, ghost arrival: nat)
      requires Valid()
      modifies this, cells
      ensures Valid() && Contents() == Insert(old(Contents()), Timer(ts, fn, arrival))
    {
      hide StrCmp, Insert;
      var n := new Cell(ts, fn, arrival);
      size := size + 1;
      if first == null {
        ghost var l := Contents();
        assert l == [];
        InsertAt(l, n.Value(), 0);
        first, last := n, n;
        cells := [n];
        assert Contents() == l[..0] + [n.Value()] + l[0..];
        return;
      }
      var prev: Cell? := null;
      var nn := first;
      ghost var k := 0;
      while nn != null
        invariant k <= |cells| && nn == At(cells, k) && prev == if k == 0 then null else cells[k - 1]
        invariant forall i :: 0 <= i < k ==> StrCmp(ts, cells[i].ts) >= 0
        decreases |cells| - k
      {
        if StrCmp(ts, nn.ts) < 0 { break; }
        assert nn.next == At(cells, k + 1);
        prev, nn, k := nn, nn.next, k + 1;
      }
      InsertAt(Contents(), n.Value(), k);
      Link(n, prev, nn, k);
    }

    /** Puts a node between `prev` and `nn`, or at an end. */
    method Link(n: Cell, prev: Cell?, nn: Cell?, ghost k: nat)
      requires k <= |cells| && cells != [] && nn == At(cells, k) && prev == if k == 0 then null else cells[k - 1]
      requires n !in cells && size == |cells| + 1 && first == cells[0]
      requires last == cells[|cells| - 1] && last.next == null && Distinct(cells)
      requires forall i, j :: 0 <= i < j == i + 1 < |cells| ==> cells[i].next == cells[j]
      modifies this`first, this`last, this`cells, cells, n
      ensures Valid() && cells == old(cells)[..k] + [n] + old(cells)[k..]
      ensures Contents() == old(Contents())[..k] + [n.Value()] + old(Contents())[k..]
    {
      hide TimersOf, Distinct;
      n.next := nn;
      if prev == null { first := n; } else { prev.next := n; }
      if nn == null { last := n; }
      ghost var was := cells;
      cells := cells[..k] + [n] + cells[k..];
      Spliced(was, k, n);
      assert Distinct(was);
      forall i, j | 0 <= i < j == i + 1 < |cells| ensures cells[i].next == cells[j] {
        if i > k {
          if k > 0 { Apart(was, k - 1, i - 1); }
          assert was[i - 1].next == was[i];
        } else if i + 1 < k {
          Apart(was, k - 1, i);
          assert was[i].next == was[i + 1];
        }
      }
    }

    /** flu_list_shift. */
    method Shift() returns (c: Cell)
      requires Valid() && cells != []
      modifies this
      ensures Valid() && c == old(cells)[0] && cells == old(cells)[1..]
      ensures [c.Value()] + Contents() == old(Contents())
    {
      c := first;
      assert c.next == At(cells, 1);
      first := c.next;
      if first == null { last := null; }
      size := size - 1;
      cells := cells[1..];
    }

    /** do_trigger, up to the shift. */
    method DoTrigger(ns: string) returns (c: Cell?)
      requires Valid()
      modifies this
      ensures Valid()
      ensures
        var l := old(Contents());
        if l == [] || StrCmp(l[0].ts, ns) > 0 then c == null && Contents() == l
        else c != null && [c.Value()] + Contents() == l
    {
      hide StrCmp;
      if first == null { return null; }
      if StrCmp(first.ts, ns) > 0 { return null; }
      c := Shift();
    }

    /** flon_trigger: the timers it fires, in order. */
    method Trigger(ns: string) returns (ghost fired: seq<Timer>)
      requires Valid()
      modifies this
      ensures Valid() && fired == Due(old(Contents()), ns) && Contents() == Left(old(Contents()), ns)
    {
      hide StrCmp;
      fired := [];
      if size < 1 { return; }
      while true
        invariant Valid()
        invariant fired + Due(Contents(), ns) == Due(old(Contents()), ns)
        invariant Left(Contents(), ns) == Left(old(Contents()), ns)
        decreases |Contents()|
      {
        ghost var l := Contents();
        var c := DoTrigger(ns);
        if c == null { break; }
        assert l[1..] == Contents() && l[0] == c.Value();
        fired := fired + [c.Value()];
        assert fired + Due(Contents(), ns) == fired[..|fired| - 1] + Due(l, ns);
      }
      assert fired + [] == fired;
    }

    /** remove_timer. It leaves `last` as it is, so the timer may not be the tail of a longer list. */
    method RemoveTimer(ts: string, fn: string)
      requires Valid()
      requires Place(Contents(), ts, fn) + 1 == |cells| ==> |cells| == 1
      modifies this, cells
      ensures Valid() && Contents() == Remove(old(Contents()), ts, fn)
    {
      hide Remove, Place;
      var prev: Cell? := null;
      var n := first;
      ghost var k := 0;
      while n != null
        invariant k <= |cells| && n == At(cells, k) && prev == if k == 0 then null else cells[k - 1]
        invariant forall i :: 0 <= i < k ==> cells[i].ts != ts || cells[i].fn != fn
        decreases |cells| - k
      {
        if n.ts == ts && n.fn == fn { break; }
        assert n.next == At(cells, k + 1);
        prev, n, k := n, n.next, k + 1;
      }
      PlaceIs(Contents(), ts, fn, k);
      RemoveAt(Contents(), ts, fn, k);
      if n == null { return; }
      Unlink(prev, n, k);
    }

    method Unlink(prev: Cell?, n: Cell, ghost k: nat)
      requires Valid() && k < |cells| && n == cells[k] && prev == if k == 0 then null else cells[k - 1]
      requires k + 1 == |cells| ==> |cells| == 1
      modifies this, cells
      ensures Valid() && Contents() == old(Contents())[..k] + old(Contents())[k + 1..]
    {
      hide TimersOf, Distinct;
      assert n.next == At(cells, k + 1);
      if prev == null { first := n.next; } else { prev.next := n.next; }
      size := size - 1;
      ghost var was := cells;
      cells := cells[..k] + cells[k + 1..];
      Cut(was, k);
      forall i, j | 0 <= i < j == i + 1 < |cells| ensures cells[i].next == cells[j] {
        if i >= k {
          if k > 0 { Apart(was, k - 1, i + 1); }
          assert was[i + 1].next == was[j + 1];
        } else if i + 1 < k {
          Apart(was, k - 1, i);
          assert was[i].next == was[j];
        }
      }
    }
  }
}
