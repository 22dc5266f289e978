/** The session store: a linked list, newest session first, cut off at the first expired one that a query
    meets. It answers as a log of all sessions would, under a clock and expiries that never go back. */
module Sessions {
  import opened Values

  datatype Session = Session(sid: string, user: string, id: string, expus: int, used: bool)

  // --- the log of all sessions, newest first ---------------------------------------------------------

  datatype Key = Sid(s: string) | Id(s: string)

  predicate Matches(e: Session, key: Key) {
    match key case Sid(s) => e.sid == s case Id(s) => e.id == s
  }

  /** Marks the newest session under a key as used. */
  function Mark(log: seq<Session>, key: Key): (r: seq<Session>)
    ensures |r| == |log|
    ensures forall i :: 0 <= i < |log| ==> r[i] == log[i] || (Matches(log[i], key) && r[i] == log[i].(used := true))
  {
    if log == [] then []
    else if Matches(log[0], key) then [log[0].(used := true)] + log[1..]
    else [log[0]] + Mark(log[1..], key)
  }

  /** The newest live session of a sid, unless it is used. */
  function Query(log: seq<Session>, sid: string, now: int): Option<Session> {
    if log == [] then None
    else if log[0].expus > now && log[0].sid == sid then (if log[0].used then None else Some(log[0]))
    else Query(log[1..], sid, now)
  }

  function Start(log: seq<Session>, sid: string, user: string, id: string, expus: int): seq<Session> {
    [Session(sid, user, id, expus, false)] + Mark(log, Id(id))
  }

  /** Expiries never go back. */
  predicate Sorted(log: seq<Session>) {
    forall i, j :: 0 <= i < j < |log| ==> log[i].expus >= log[j].expus
  }

  lemma {:induction false} MarkAt(log: seq<Session>, key: Key, k: nat)
    requires k < |log| && Matches(log[k], key) && forall i :: 0 <= i < k ==> !Matches(log[i], key)
    ensures Mark(log, key)[k] == log[k].(used := true)
    ensures forall i :: 0 <= i < |log| && i != k ==> Mark(log, key)[i] == log[i]
  {
    hide Matches;
    var marked := Mark(log, key);
    if k > 0 {
      var rest := Mark(log[1..], key);
      MarkAt(log[1..], key, k - 1);
      assert marked == [log[0]] + rest;
      assert forall i :: 0 < i < |log| ==> marked[i] == rest[i - 1] && log[i] == log[1..][i - 1];
    } else {
      assert marked == [log[0].(used := true)] + log[1..];
    }
  }

  lemma MarkSorted(log: seq<Session>, key: Key)
    requires Sorted(log)
    ensures Sorted(Mark(log, key))
  {
    var r := Mark(log, key);
    assert forall i :: 0 <= i < |log| ==> r[i].expus == log[i].expus;
  }

  lemma StartSorted(log: seq<Session>, sid: string, user: string, id: string, expus: int)
    requires Sorted(log) && forall e :: e in log ==> e.expus <= expus
    ensures Sorted(Start(log, sid, user, id, expus))
  {
    var r := Mark(log, Id(id));
    forall i | 0 <= i < |r| ensures r[i].expus == log[i].expus && log[i] in log {}
  }

  lemma {:induction false} MarkPast(log: seq<Session>, key: Key, k: nat)
    requires k <= |log| && forall i :: 0 <= i < k ==> !Matches(log[i], key)
    ensures Mark(log, key)[..k] == log[..k]
  {
    if k > 0 {
      MarkPast(log[1..], key, k - 1);
    }
  }

  lemma {:induction false} QueryAt(log: seq<Session>, sid: string, now: int, k: nat)
    requires k <= |log| && forall i :: 0 <= i < k ==> log[i].expus <= now || log[i].sid != sid
    ensures Query(log, sid, now) == Query(log[k..], sid, now)
  {
    if k > 0 {
      QueryAt(log[1..], sid, now, k - 1);
      assert log[1..][k - 1..] == log[k..];
    } else {
      assert log[0..] == log;
    }
  }

  lemma {:induction false} QueryNone(log: seq<Session>, sid: string, now: int)
    requires forall i :: 0 <= i < |log| ==> log[i].expus <= now || log[i].sid != sid
    ensures Query(log, sid, now) == None
  {
    QueryAt(log, sid, now, |log|);
    assert log[|log|..] == [];
  }

  /** The sid is met at `k`. */
  lemma QueryMeets(log: seq<Session>, sid: string, now: int, k: nat)
    requires k < |log| && forall i :: 0 <= i < k ==> log[i].sid != sid
    requires log[k].sid == sid && log[k].expus > now
    ensures Query(log, sid, now) == if log[k].used then None else Some(log[k])
  {
    QueryAt(log, sid, now, k);
    assert log[k..][0] == log[k];
  }

  /** The sid is not met before `k`, where the first expired session is, or the end of the first `n`. */
  lemma QueryStops(log: seq<Session>, sid: string, now: int, k: nat, n: nat, clock: int)
    requires Sorted(log) && k <= n <= |log| && clock <= now
    requires forall i :: 0 <= i < k ==> log[i].sid != sid
    requires forall i :: n <= i < |log| ==> log[i].expus <= clock
    requires k < n ==> log[k].expus <= now
    ensures Query(log, sid, now) == None
    ensures forall i :: k <= i < |log| ==> log[i].expus <= now
  {
    QueryNone(log, sid, now);
  }

  // --- runs ------------------------------------------------------------------------------------------

  const EXPIRY := 24 * 3600 * 1000 * 1000

  /** fshv_session_auth, once the sid is read from the cookie: a query, then a refresh under a new sid. */
  function Auth(log: seq<Session>, sid: string, newSid: string, now: int): (bool, seq<Session>) {
    match Query(log, sid, now)
    case None => (false, log)
    case Some(s) => (true, Start(log, newSid, s.user, s.id, now + EXPIRY))
  }

  datatype Event =
    | Login(now: int, sid: string, user: string, id: string)
    | Logout(now: int, sid: string)
    | Authenticate(now: int, sid: string, newSid: string)

  function After(log: seq<Session>, e: Event): seq<Session> {
    match e
    case Login(now, sid, user, id) => Start(log, sid, user, id, now + EXPIRY)
    case Logout(_, sid) => Mark(log, Sid(sid))
    case Authenticate(now, sid, newSid) => Auth(log, sid, newSid, now).1
  }

  /** The log after the first `k` events. */
  function LogAt(es: seq<Event>, k: nat): seq<Session>
    requires k <= |es|
  {
    if k == 0 then [] else After(LogAt(es, k - 1), es[k - 1])
  }

  /** Among the sessions of an id, only the most recent one may be unused. */
  predicate OneUsable(log: seq<Session>) {
    forall i, j :: 0 <= i < j < |log| && log[i].id == log[j].id ==> log[j].used
  }

  lemma {:induction false} MarkedFirst(log: seq<Session>, id: string)
    requires OneUsable(log)
    ensures forall i :: 0 <= i < |log| && log[i].id == id ==> Mark(log, Id(id))[i].used
  {
    if log != [] {
      forall i, j | 0 <= i < j < |log[1..]| && log[1..][i].id == log[1..][j].id ensures log[1..][j].used {
        assert log[i + 1].id == log[j + 1].id;
      }
      MarkedFirst(log[1..], id);
      if log[0].id == id {
        assert forall i :: 1 <= i < |log| && log[i].id == id ==> log[i].used;
      }
    }
  }

  lemma OneUsableStart(log: seq<Session>, sid: string, user: string, id: string, expus: int)
    requires OneUsable(log)
    ensures OneUsable(Start(log, sid, user, id, expus))
  {
    MarkedFirst(log, id);
    MarkKeeps(log, Id(id));
  }

  lemma MarkKeeps(log: seq<Session>, key: Key)
    requires OneUsable(log)
    ensures OneUsable(Mark(log, key))
  {
    var r := Mark(log, key);
    forall i, j | 0 <= i < j < |r| && r[i].id == r[j].id ensures r[j].used {
      assert log[i].id == log[j].id;
    }
  }

  /** In every run, at most one session of an id is usable: the most recent one. */
  lemma {:induction false} RunsAreOneUsable(es: seq<Event>, k: nat)
    requires k <= |es|
    ensures OneUsable(LogAt(es, k))
  {
    hide OneUsable, Query, Mark;
    if k == 0 {
      NoneUsable();
    } else {
      RunsAreOneUsable(es, k - 1);
      var log := LogAt(es, k - 1);
      match es[k - 1]
      case Login(now, sid, user, id) => OneUsableStart(log, sid, user, id, now + EXPIRY);
      case Logout(_, sid) => MarkKeeps(log, Sid(sid));
      case Authenticate(now, sid, newSid) =>
        if s: Session :| Query(log, sid, now) == Some(s) {
          OneUsableStart(log, newSid, s.user, s.id, now + EXPIRY);
        }
    }
  }

  lemma NoneUsable()
    ensures OneUsable([])
  {
  }

  // --- a sid authenticates once ------------------------------------------------------------------------

  /** The sid an event brings is new. */
  predicate Fresh(log: seq<Session>, e: Event) {
    match e
    case Login(_, sid, _, _) => forall s :: s in log ==> s.sid != sid
    case Logout(_, _) => true
    case Authenticate(_, _, newSid) => forall s :: s in log ==> s.sid != newSid
  }

  predicate FreshRun(es: seq<Event>) {
    forall k :: 0 <= k < |es| ==> Fresh(LogAt(es, k), es[k])
  }

  predicate DistinctSids(log: seq<Session>) {
    forall i, j :: 0 <= i < j < |log| ==> log[i].sid != log[j].sid
  }

  lemma {:induction false} RunsHaveDistinctSids(es: seq<Event>, k: nat)
    requires k <= |es| && FreshRun(es)
    ensures DistinctSids(LogAt(es, k))
  {
    hide FreshRun, Fresh, After;
    if k > 0 {
      RunsHaveDistinctSids(es, k - 1);
      FreshAt(es, k - 1);
      AfterSids(LogAt(es, k - 1), es[k - 1]);
    }
  }

  lemma AfterSids(log: seq<Session>, e: Event)
    requires DistinctSids(log) && Fresh(log, e)
    ensures DistinctSids(After(log, e))
  {
    hide Query, Mark, DistinctSids;
    match e
    case Login(now, sid, user, id) => StartSids(log, sid, user, id, now + EXPIRY);
    case Logout(_, sid) => MarkSids(log, Sid(sid));
    case Authenticate(now, sid, newSid) =>
      if s: Session :| Query(log, sid, now) == Some(s) {
        StartSids(log, newSid, s.user, s.id, now + EXPIRY);
      }
  }

  lemma MarkSids(log: seq<Session>, key: Key)
    requires DistinctSids(log)
    ensures DistinctSids(Mark(log, key))
  {
    hide Mark;
  }

  lemma StartSids(log: seq<Session>, sid: string, user: string, id: string, expus: int)
    requires DistinctSids(log) && forall s :: s in log ==> s.sid != sid
    ensures DistinctSids(Start(log, sid, user, id, expus))
  {
    hide Mark;
    MarkSids(log, Id(id));
    forall i | 0 <= i < |log| ensures log[i] in log {}
  }

  /** The sessions of a sid are used, and there is one. */
  predicate Spent(log: seq<Session>, sid: string) {
    && (forall s :: s in log && s.sid == sid ==> s.used)
    && (exists s :: s in log && s.sid == sid)
  }

  lemma {:induction false} QueryFinds(log: seq<Session>, sid: string, now: int) returns (k: nat)
    requires Query(log, sid, now).Some?
    ensures k < |log| && log[k] == Query(log, sid, now).value && log[k].sid == sid && !log[k].used
  {
    if log[0].expus > now && log[0].sid == sid {
      k := 0;
    } else {
      k := QueryFinds(log[1..], sid, now);
      k := k + 1;
    }
  }

  lemma AuthSpends(log: seq<Session>, sid: string, newSid: string, now: int)
    requires OneUsable(log) && DistinctSids(log) && (forall s :: s in log ==> s.sid != newSid)
    requires Auth(log, sid, newSid, now).0
    ensures Spent(Auth(log, sid, newSid, now).1, sid)
  {
    hide Query, Mark;
    var k := QueryFinds(log, sid, now);
    var s := log[k];
    assert s in log;
    MarkedFirst(log, s.id);
    var r := Auth(log, sid, newSid, now).1;
    assert r[k + 1].sid == sid && r[k + 1].used && r[k + 1] in r;
    forall x | x in r && x.sid == sid ensures x.used {
      var i :| 0 <= i < |r| && r[i] == x;
      if i > 0 {
        assert log[i - 1].sid == sid;
      }
    }
  }

  lemma SpentStays(log: seq<Session>, e: Event, sid: string)
    requires Spent(log, sid) && Fresh(log, e)
    ensures Spent(After(log, e), sid)
  {
    hide Query, Mark;
    var s :| s in log && s.sid == sid;
    var k :| 0 <= k < |log| && log[k] == s;
    match e
    case Login(now, newSid, user, id) => SpentStart(log, sid, newSid, user, id, now + EXPIRY, k);
    case Logout(_, other) => SpentMark(log, Sid(other), sid, k);
    case Authenticate(now, other, newSid) =>
      if q: Session :| Query(log, other, now) == Some(q) {
        SpentStart(log, sid, newSid, q.user, q.id, now + EXPIRY, k);
      }
  }

  lemma SpentMark(log: seq<Session>, key: Key, sid: string, k: nat)
    requires Spent(log, sid) && k < |log| && log[k].sid == sid
    ensures Spent(Mark(log, key), sid)
  {
    hide Mark;
    var r := Mark(log, key);
    assert r[k] in r && r[k].sid == sid;
    forall x | x in r && x.sid == sid ensures x.used {
      var i :| 0 <= i < |r| && r[i] == x;
      assert log[i] in log;
    }
  }

  lemma SpentStart(log: seq<Session>, sid: string, newSid: string, user: string, id: string, expus: int, k: nat)
    requires Spent(log, sid) && k < |log| && log[k].sid == sid && newSid != sid
    ensures Spent(Start(log, newSid, user, id, expus), sid)
  {
    hide Mark;
    SpentMark(log, Id(id), sid, k);
    var s :| s in Mark(log, Id(id)) && s.sid == sid;
    assert s in Start(log, newSid, user, id, expus);
  }

  lemma {:induction false} SpentFails(log: seq<Session>, sid: string, now: int)
    requires forall s :: s in log && s.sid == sid ==> s.used
    ensures Query(log, sid, now) == None
  {
    if log != [] {
      assert log[0] in log;
      SpentFails(log[1..], sid, now);
    }
  }

  lemma FreshAt(es: seq<Event>, k: nat)
    requires FreshRun(es) && k < |es|
    ensures Fresh(LogAt(es, k), es[k])
  {
    hide LogAt, Fresh;
  }

  /** The event `k` of a run authenticates a sid. */
  predicate Authenticates(es: seq<Event>, k: nat, sid: string)
    requires k < |es|
  {
    es[k].Authenticate? && es[k].sid == sid && Auth(LogAt(es, k), sid, es[k].newSid, es[k].now).0
  }

  lemma {:induction false} StaysSpent(es: seq<Event>, j: nat, k: nat, sid: string)
    requires j <= k <= |es| && FreshRun(es) && Spent(LogAt(es, j), sid)
    ensures Spent(LogAt(es, k), sid)
  {
    hide Spent, FreshRun, Fresh, After;
    if j < k {
      FreshAt(es, k - 1);
      StaysSpent(es, j, k - 1, sid);
      SpentStays(LogAt(es, k - 1), es[k - 1], sid);
    }
  }

  /** In every run with new sids, a sid authenticates once at most. */
  lemma SidAuthenticatesOnce(es: seq<Event>, j: nat, k: nat, sid: string)
    requires FreshRun(es) && j < k < |es| && Authenticates(es, j, sid)
    ensures !Authenticates(es, k, sid)
  {
    hide Query, Mark, OneUsable, DistinctSids, FreshRun;
    RunsAreOneUsable(es, j);
    RunsHaveDistinctSids(es, j);
    FreshAt(es, j);
    AuthSpends(LogAt(es, j), sid, es[j].newSid, es[j].now);
    assert LogAt(es, j + 1) == Auth(LogAt(es, j), sid, es[j].newSid, es[j].now).1;
    StaysSpent(es, j + 1, k, sid);
    SpentFails(LogAt(es, k), sid, es[k].now);
  }

  // --- the log as a table ------------------------------------------------------------------------------

  /** What lets an id in: a sid, for a user, up to a time in microseconds. */
  datatype Ticket = Ticket(sid: string, user: string, until: int)

  const DAY := 86_400_000_000

  /** The ticket is good for a sid at a time. */
  predicate Good(t: Ticket, sid: string, now: int) { t.sid == sid && t.until > now }

  /** One ticket an id: a login replaces it, a logout takes it away, an authentication renews it under the new sid. */
  function Tickets(es: seq<Event>, k: nat): map<string, Ticket>
    requires k <= |es|
  {
    if k == 0 then map[] else
    var m := Tickets(es, k - 1);
    match es[k - 1]
    case Login(now, sid, user, id) => m[id := Ticket(sid, user, now + DAY)]
    case Logout(_, sid) => map id | id in m && m[id].sid != sid :: m[id]
    case Authenticate(now, sid, newSid) =>
      map id | id in m :: if Good(m[id], sid, now) then Ticket(newSid, m[id].user, now + DAY) else m[id]
  }

  /** The usable sessions of the log are the tickets. */
  ghost predicate Agrees(log: seq<Session>, m: map<string, Ticket>) {
    && (forall i :: 0 <= i < |log| && !log[i].used ==>
          log[i].id in m && m[log[i].id] == Ticket(log[i].sid, log[i].user, log[i].expus))
    && (forall id :: id in m ==> exists i :: 0 <= i < |log| && !log[i].used && log[i].id == id)
  }

  lemma StartAgrees(log: seq<Session>, m: map<string, Ticket>, sid: string, user: string, id: string, expus: int)
    requires Agrees(log, m) && OneUsable(log)
    ensures Agrees(Start(log, sid, user, id, expus), m[id := Ticket(sid, user, expus)])
  {
    hide Mark;
    MarkedFirst(log, id);
    var r, n := Start(log, sid, user, id, expus), m[id := Ticket(sid, user, expus)];
    assert r[0].id == id && !r[0].used;
    forall other | other in n ensures exists i :: 0 <= i < |r| && !r[i].used && r[i].id == other {
      if other != id {
        var i :| 0 <= i < |log| && !log[i].used && log[i].id == other;
        assert r[i + 1] == log[i];
      }
    }
    forall i | 1 <= i < |r| && !r[i].used ensures r[i] == log[i - 1] && r[i].id != id {}
  }

  lemma {:induction false} MarkedSid(log: seq<Session>, sid: string)
    requires DistinctSids(log)
    ensures forall i :: 0 <= i < |log| && log[i].sid == sid ==> Mark(log, Sid(sid))[i].used
  {
    if k: nat :| k < |log| && log[k].sid == sid {
      MarkAt(log, Sid(sid), k);
    }
  }

  lemma MarkAgrees(log: seq<Session>, m: map<string, Ticket>, sid: string)
    requires Agrees(log, m) && DistinctSids(log)
    ensures Agrees(Mark(log, Sid(sid)), map id | id in m && m[id].sid != sid :: m[id])
  {
    hide Mark;
    MarkedSid(log, sid);
    var r := Mark(log, Sid(sid));
    forall id | id in m && m[id].sid != sid ensures exists i :: 0 <= i < |r| && !r[i].used && r[i].id == id {
      var i :| 0 <= i < |log| && !log[i].used && log[i].id == id;
      assert log[i].sid != sid && r[i] == log[i];
    }
  }

  /** A query finds what a good ticket stands for, and only that. */
  lemma QueryIsTicket(log: seq<Session>, m: map<string, Ticket>, sid: string, now: int)
    requires Agrees(log, m) && DistinctSids(log)
    ensures
      var q := Query(log, sid, now);
      && (q.Some? ==> q.value.id in m && Good(m[q.value.id], sid, now) && m[q.value.id].user == q.value.user)
      && (forall id :: id in m && Good(m[id], sid, now) ==> q.Some? && q.value.id == id)
  {
    hide Query;
    var q := Query(log, sid, now);
    if q.Some? {
      var k := QueryFinds(log, sid, now);
      QueryIsLive(log, sid, now);
    }
    forall id | id in m && Good(m[id], sid, now) ensures q.Some? && q.value.id == id {
      var i :| 0 <= i < |log| && !log[i].used && log[i].id == id;
      QueryMeets(log, sid, now, i);
    }
  }

  lemma {:induction false} QueryIsLive(log: seq<Session>, sid: string, now: int)
    requires Query(log, sid, now).Some?
    ensures Query(log, sid, now).value.expus > now
  {
    if log != [] && !(log[0].expus > now && log[0].sid == sid) { QueryIsLive(log[1..], sid, now); }
  }

  lemma AuthAgrees(log: seq<Session>, m: map<string, Ticket>, sid: string, newSid: string, now: int)
    requires Agrees(log, m) && DistinctSids(log) && OneUsable(log)
    ensures Agrees(Auth(log, sid, newSid, now).1,
      map id | id in m :: if Good(m[id], sid, now) then Ticket(newSid, m[id].user, now + DAY) else m[id])
  {
    hide Query, Agrees, OneUsable, DistinctSids, Good;
    var n := map id | id in m :: if Good(m[id], sid, now) then Ticket(newSid, m[id].user, now + DAY) else m[id];
    QueryIsTicket(log, m, sid, now);
    var q := Query(log, sid, now);
    if q.Some? {
      StartAgrees(log, m, newSid, q.value.user, q.value.id, now + DAY);
      assert n == m[q.value.id := Ticket(newSid, q.value.user, now + DAY)];
    } else {
      assert n == m;
    }
  }

  /** In every run with new sids the usable sessions are the tickets. */
  lemma {:induction false} RunsAreTickets(es: seq<Event>, k: nat)
    requires k <= |es| && FreshRun(es)
    ensures Agrees(LogAt(es, k), Tickets(es, k))
  {
    hide FreshRun, OneUsable, DistinctSids, Query, Mark, Agrees, Good;
    if k == 0 {
      NoTickets();
    } else {
      RunsAreTickets(es, k - 1);
      RunsAreOneUsable(es, k - 1);
      RunsHaveDistinctSids(es, k - 1);
      var log, m := LogAt(es, k - 1), Tickets(es, k - 1);
      match es[k - 1]
      case Login(now, sid, user, id) => StartAgrees(log, m, sid, user, id, now + DAY);
      case Logout(_, sid) => MarkAgrees(log, m, sid);
      case Authenticate(now, sid, newSid) => AuthAgrees(log, m, sid, newSid, now);
    }
  }

  lemma NoTickets()
    ensures Agrees([], map[])
  {
  }

  /** So an authentication succeeds if and only if there is a good ticket. */
  lemma AuthenticatesIsTicket(es: seq<Event>, k: nat)
    requires k < |es| && FreshRun(es) && es[k].Authenticate?
    ensures
      var m := Tickets(es, k);
      Authenticates(es, k, es[k].sid) <==> exists id :: id in m && Good(m[id], es[k].sid, es[k].now)
  {
    hide FreshRun, DistinctSids, Query, Mark, Agrees, Good;
    RunsAreTickets(es, k);
    RunsHaveDistinctSids(es, k);
    QueryIsTicket(LogAt(es, k), Tickets(es, k), es[k].sid, es[k].now);
  }

  // --- the store -------------------------------------------------------------------------------------

  /** A list node and its session. */
  class Entry {
    const sid: string
    const user: string
    const id: string
    const expus: int
    var used: bool
    var next: Entry?

    constructor (sid: string, user: string, id: string, expus: int, next: Entry?)
      ensures this.sid == sid && this.user == user && this.id == id && this.expus == expus
      ensures !used && this.next == next
    {
      this.sid, this.user, this.id, this.expus := sid, user, id, expus;
      used, this.next := false, next;
    }

    function Value(): Session
      reads this
    {
      Session(sid, user, id, expus, used)
    }
  }

  ghost predicate Distinct(cells: seq<Entry>) { forall i, j :: 0 <= i < j < |cells| ==> cells[i] != cells[j] }

  ghost function At(cells: seq<Entry>, i: nat): Entry? { if i < |cells| then cells[i] else null }

  class Store {
    var first: Entry?
    var last: Entry?
    var size: nat
    ghost var cells: seq<Entry>       // from the first to the last
    ghost var log: seq<Session>      // all the sessions ever started
    ghost var clock: int             // the time of the last query

    /** The list is well linked. */
    ghost predicate Linked()
      reads this`first, this`last, this`size, this`cells, cells`next
    {
      && size == |cells|
      && first == At(cells, 0)
      && last == (if cells == [] then null else cells[|cells| - 1])
      && (last != null ==> last.next == null)
      && Distinct(cells)
      && forall i, j :: 0 <= i < j == i + 1 < |cells| ==> cells[i].next == cells[j]
    }

    /** The list is the log without a tail of expired sessions. */
    ghost predicate Mirrors()
      reads this`cells, this`log, this`clock, cells
    {
      && |cells| <= |log|
      && (forall i :: 0 <= i < |cells| ==> log[i] == cells[i].Value())
      && (forall i :: |cells| <= i < |log| ==> log[i].expus <= clock)
    }

    ghost predicate Valid()
      reads this, cells
    {
      Linked() && Mirrors() && Sorted(log)
    }

    /** The cells that are left are still those of the log. */
    twostate lemma StillMirrors(now: int)
      requires old(Mirrors()) && Sorted(log) && log == old(log) && clock == now >= old(clock)
      requires |cells| <= |old(cells)| && cells == old(cells)[..|cells|]
      requires forall c :: c in old(cells) ==> c.Value() == old(c.Value())
      requires forall i :: |cells| <= i < |log| ==> log[i].expus <= now
      ensures Mirrors()
    {
    }

    constructor ()
      ensures Valid() && log == []
    {
      first, last, size := null, null, 0;
      cells, log, clock := [], [], 0;
    }

    /** The first cell under a key, or null: the loop of stop_session and of query_by_id. */
    method Find(key: Key) returns (c: Entry?, ghost k: nat)
      requires Valid()
      ensures k <= |cells| && forall i :: 0 <= i < k ==> !Matches(log[i], key)
      ensures if c == null then k == |cells| else k < |cells| && c == cells[k] && Matches(log[k], key)
    {
      c, k := first, 0;
      while c != null
        invariant k <= |cells| && c == At(cells, k)
        invariant forall i :: 0 <= i < k ==> !Matches(log[i], key)
        decreases |cells| - k
      {
        assert log[k] == c.Value();
        var found := match key case Sid(s) => c.sid == s case Id(s) => c.id == s;
        if found { return; }
        assert c.next == At(cells, k + 1);
        c, k := c.next, k + 1;
      }
    }

    method MarkUsed(key: Key)
      requires Valid()
      modifies this`log, cells
      ensures Valid() && log == Mark(old(log), key)
      ensures forall c :: c in cells ==> c.next == old(c.next)
    {
      hide Query, Mark, Sorted, Matches;
      MarkSorted(log, key);
      ghost var marked := Mark(log, key);
      assert |marked| == |log| && forall i :: 0 <= i < |log| ==> marked[i].expus == log[i].expus;
      var c, k := Find(key);
      if c == null {
        MarkPast(log, key, k);
        forall i | 0 <= i < |cells| ensures marked[i] == log[i] {
          assert marked[..k][i] == log[..k][i];
        }
      } else {
        MarkAt(log, key, k);
        c.used := true;
        forall i | 0 <= i < |cells| ensures marked[i] == cells[i].Value() {
          assert old(cells[i].Value()) == log[i];
        }
      }
      log := marked;
    }

    method StopSession(sid: string)
      requires Valid()
      modifies this`log, cells
      ensures Valid() && log == Mark(old(log), Sid(sid))
    {
      MarkUsed(Sid(sid));
    }

    method ResetStore()
      requires Valid()
      modifies this
      ensures Valid() && log == [] && clock == old(clock)
    {
      first, last, size := null, null, 0;
      cells, log := [], [];
    }

    method QuerySession(sid: string, now: int) returns (c: Entry?)
      requires Valid() && clock <= now
      modifies this, cells
      ensures Valid() && log == old(log) && clock == now && cells <= old(cells)
      ensures
        var r := Query(log, sid, now);
        if r.None? then c == null else c != null && c in cells && c.Value() == r.value
    {
      hide Query, Sorted, Distinct, Linked, Mirrors;
      Ends();
      var count := 0;
      var lastLive: Entry? := null;
      var fn := first;
      while fn != null
        invariant Valid() && count <= |cells| <= |log| && fn == At(cells, count)
        invariant lastLive == if count == 0 then null else cells[count - 1]
        invariant forall i :: 0 <= i < count ==> log[i].sid != sid
        modifies {}
        decreases |cells| - count
      {
        CellAt(count);
        if fn.expus <= now { break; }
        if fn.sid == sid { break; }
        count := count + 1;
        lastLive := fn;
        fn := fn.next;
      }
      if fn != null && fn.expus > now {
        QueryMeets(log, sid, now, count);
        clock := now;
        SameButClock();
        return if fn.used then null else fn;
      }
      QueryStops(log, sid, now, count, |cells|, clock);
      clock := now;
      SameButClock();
      if lastLive == last {
        return null;
      }
      Truncate(lastLive, count);
      StillMirrors(now);
      return null;
    }

    /** A cell of the list and its session in the log. */
    lemma CellAt(k: nat)
      requires Valid() && k < |cells|
      ensures |cells| <= |log| && log[k] == cells[k].Value() && cells[k].next == At(cells, k + 1)
    {
    }

    lemma Ends()
      requires Valid()
      ensures first == At(cells, 0) && last == (if cells == [] then null else cells[|cells| - 1])
      ensures |cells| <= |log| && (forall i :: |cells| <= i < |log| ==> log[i].expus <= clock)
      ensures forall i, j :: 0 <= i < j < |cells| ==> cells[i] != cells[j]
    {
    }

    twostate lemma SameButClock()
      requires unchanged(`first) && unchanged(`last) && unchanged(`size) && unchanged(`cells) && unchanged(`log)
      requires old(Valid()) && old(clock) <= clock && unchanged(cells)
      ensures Valid()
    {
    }

    /** Cuts the list off after its first `count` cells. */
    method Truncate(lastLive: Entry?, count: nat)
      requires Linked() && count < |cells| && lastLive == if count == 0 then null else cells[count - 1]
      modifies this`first, this`last, this`size, this`cells, cells
      ensures Linked() && cells == old(cells)[..count]
      ensures forall c :: c in old(cells) ==> c.Value() == old(c.Value())
    {
      size := count;
      if lastLive != null { lastLive.next := null; }
      last := lastLive;
      if count == 0 { first := null; }
      cells := cells[..count];
    }

    /** flu_list_unshift. */
    method Unshift(sid: string, user: string, id: string, expus: int) returns (c: Entry)
      requires Linked()
      modifies this`first, this`last, this`size, this`cells
      ensures fresh(c) && c.Value() == Session(sid, user, id, expus, false)
      ensures Linked() && cells == [c] + old(cells)
    {
      c := new Entry(sid, user, id, expus, first);
      first := c;
      if last == null { last := c; }
      size := size + 1;
      cells := [c] + cells;
      assert forall i :: 1 <= i < |cells| ==> cells[i] == old(cells)[i - 1];
    }

    method StartSession(sid: string, user: string, id: string, expus: int) returns (c: Entry)
      requires Valid() && forall e :: e in log ==> e.expus <= expus
      modifies this, cells
      ensures Valid() && log == Start(old(log), sid, user, id, expus) && clock == old(clock)
      ensures c in cells && c.Value() == log[0]
    {
      hide Query, Mark, Sorted, Distinct, Linked;
      StartSorted(log, sid, user, id, expus);
      MarkUsed(Id(id));
      ghost var was, marked := cells, log;
      c := Unshift(sid, user, id, expus);
      log := [c.Value()] + log;
      assert Linked();
      assert forall i :: 0 <= i < |was| ==> marked[i] == was[i].Value();
      Prepended(was, marked, c);
      assert log == Start(old(log), sid, user, id, expus);
    }

    lemma Prepended(was: seq<Entry>, marked: seq<Session>, c: Entry)
      requires cells == [c] + was && log == [c.Value()] + marked && |was| <= |marked|
      requires forall i :: 0 <= i < |was| ==> marked[i] == was[i].Value()
      requires forall i :: |was| <= i < |marked| ==> marked[i].expus <= clock
      ensures Mirrors()
    {
    }

    method SessionAuth(sid: string, newSid: string, now: int) returns (ok: bool)
      requires Valid() && clock <= now && forall e :: e in log ==> e.expus <= now + EXPIRY
      modifies this, cells
      ensures Valid() && (ok, log) == Auth(old(log), sid, newSid, now)
    {
      hide Query, Mark, Linked, Mirrors, Sorted, Distinct;
      var s := QuerySession(sid, now);
      if s == null { return false; }
      var _ := StartSession(newSid, s.user, s.id, now + EXPIRY);
      return true;
    }
  }
}
