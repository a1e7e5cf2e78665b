/**
 The two rate limiters of jm_client.c: heartbeats and login attempts.  The
 clock readings are inputs; a run is a list of calls in time order.
 */
module Limiter {
  import opened Wire

  const INTERVAL := 30000

  // uint64_t subtraction
  function Minus(a: u64, b: u64): (d: u64)
    ensures a >= b ==> d == a - b
    ensures (b as int + d) % 0x1_0000_0000_0000_0000 == a
  {
    if a >= b then (a as int) - b else (a as int) - b + 0x1_0000_0000_0000_0000
  }

  // A heartbeat call reads the clock a second time when it sends.  loggedIn is
  // what client_isLogin answers.
  datatype Event =
    | Beat(now: u64, sent: u64)
    | Message(now: u64)
    | Login(now: u64, loggedIn: bool)

  datatype State = State(lastSend: u64, lastActive: u64, lastLogin: u64)

  const INIT := State(0, 0, 0)

  predicate Beats(s: State, e: Event) {
    && e.Beat?
    && Minus(e.now, s.lastSend) >= INTERVAL
    && Minus(e.now, s.lastActive) >= INTERVAL
  }

  predicate Attempts(s: State, e: Event) {
    && e.Login?
    && !e.loggedIn
    && !(s.lastLogin != 0 && Minus(e.now, s.lastLogin) < INTERVAL)
  }

  function Next(s: State, e: Event): State {
    match e
    case Beat(_, sent) => if Beats(s, e) then s.(lastSend := sent) else s
    case Message(now) => s.(lastActive := now)
    case Login(now, _) => if Attempts(s, e) then s.(lastLogin := now) else s
  }

  datatype LoginResult = Already | Busy | InvalidAccount | InvalidDevice | Passed

  class Client {
    var lastSend: u64
    var lastActive: u64
    var lastLogin: u64

    ghost function View(): State
      reads this
    {
      State(lastSend, lastActive, lastLogin)
    }

    constructor ()
      ensures View() == INIT
    {
      lastSend, lastActive, lastLogin := 0, 0, 0;
    }

    // _c_sendHearbeet; the second reading is the one kept.
    method SendHeartbeat(now: u64, again: u64) returns (sent: bool)
      modifies this
      ensures View() == Next(old(View()), Beat(now, again)) && sent == Beats(old(View()), Beat(now, again))
    {
      if Minus(now, lastSend) < INTERVAL {
        return false;
      }
      if Minus(now, lastActive) < INTERVAL {
        return false;
      }
      lastSend := again;
      sent := true;
    }

    // The first statement of client_onMessage.
    method OnMessage(now: u64)
      modifies this
      ensures View() == Next(old(View()), Message(now))
    {
      lastActive := now;
    }

    // client_login up to where the request would be built.
    method TryLogin(now: u64, loggedIn: bool, aid: int, did: string) returns (r: LoginResult)
      modifies this
      ensures View() == Next(old(View()), Login(now, loggedIn))
      ensures r == Already <==> loggedIn
      ensures r == Busy <==> !loggedIn && !Attempts(old(View()), Login(now, loggedIn))
      ensures r == InvalidAccount <==> Attempts(old(View()), Login(now, loggedIn)) && aid <= 0
      ensures r == InvalidDevice <==> Attempts(old(View()), Login(now, loggedIn)) && aid > 0 && did == ""
    {
      if loggedIn {
        return Already;
      }
      if lastLogin != 0 && Minus(now, lastLogin) < INTERVAL {
        return Busy;
      }
      lastLogin := now;
      if aid <= 0 {
        return InvalidAccount;
      }
      if |did| == 0 {
        return InvalidDevice;
      }
      r := Passed;
    }
  }

  /** Runs **/

  function Run(es: seq<Event>): State {
    if es == [] then INIT else Next(Run(es[..|es| - 1]), es[|es| - 1])
  }

  function End(e: Event): u64 {
    if e.Beat? then e.sent else e.now
  }

  // The clock never goes back.
  predicate InOrder(es: seq<Event>) {
    && (forall i :: 0 <= i < |es| ==> es[i].now <= End(es[i]))
    && (forall i, j :: 0 <= i < j < |es| ==> End(es[i]) <= es[j].now)
  }

  // When the heartbeats of a run were sent.
  function BeatTimes(es: seq<Event>): (ts: seq<int>) {
    if es == [] then
      []
    else
      (
        var front, e := es[..|es| - 1], es[|es| - 1];
        BeatTimes(front) + if Beats(Run(front), e) then [e.sent as int] else []
      )
  }

  // When the login attempts of a run were let through.
  function LoginTimes(es: seq<Event>): (ts: seq<int>) {
    if es == [] then
      []
    else
      (
        var front, e := es[..|es| - 1], es[|es| - 1];
        LoginTimes(front) + if Attempts(Run(front), e) then [e.now as int] else []
      )
  }

  predicate Spaced(ts: seq<int>) {
    forall i :: 0 < i < |ts| ==> ts[i] - ts[i - 1] >= INTERVAL
  }

  function LastOr(ts: seq<int>, d: int): int {
    if ts == [] then d else ts[|ts| - 1]
  }

  lemma InOrderFront(es: seq<Event>)
    requires InOrder(es) && es != []
    ensures var front, e := es[..|es| - 1], es[|es| - 1];
            InOrder(front) && e.now <= End(e) && (front != [] ==> End(front[|front| - 1]) <= e.now)
  {
  }

  lemma {:induction false} LastSent(es: seq<Event>)
    ensures Run(es).lastSend == LastOr(BeatTimes(es), 0)
  {
    if es == [] {
    } else {
      LastSent(es[..|es| - 1]);
    }
  }

  // What a record is after an event no earlier than it.
  lemma NextRecords(s: State, e: Event, t: u64)
    requires s.lastSend <= t && s.lastActive <= t && s.lastLogin <= t && t <= e.now <= End(e)
    ensures var n := Next(s, e);
            && n.lastSend <= End(e) && n.lastLogin <= End(e)
            && s.lastActive <= n.lastActive <= End(e) && (e.Message? ==> n.lastActive == e.now)
  {
    hide Minus;
  }

  // No recorded time lies behind the clock, and the records are the last
  // times of each kind.
  lemma {:induction false} Recorded(es: seq<Event>)
    requires InOrder(es)
    ensures var s := Run(es);
            && s.lastSend == LastOr(BeatTimes(es), 0)
            && (forall i :: 0 <= i < |es| && es[i].Message? ==> es[i].now <= s.lastActive)
            && (es != [] ==> s.lastSend <= End(es[|es| - 1]) && s.lastActive <= End(es[|es| - 1])
                             && s.lastLogin <= End(es[|es| - 1]))
            && (es == [] ==> s == INIT)
  {
    hide InOrder, Next, End, BeatTimes;
    LastSent(es);
    if es == [] {
    } else {
      var front, e := es[..|es| - 1], es[|es| - 1];
      InOrderFront(es);
      Recorded(front);
      NextRecords(Run(front), e, if front == [] then 0 else End(front[|front| - 1]));
    }
  }

  lemma {:induction false} BeatsApart(es: seq<Event>)
    requires InOrder(es)
    ensures Spaced(BeatTimes(es))
  {
    if es == [] {
    } else {
      var front, e := es[..|es| - 1], es[|es| - 1];
      BeatsApart(front);
      Recorded(front);
      assert front != [] ==> End(front[|front| - 1]) <= e.now;
    }
  }

  // The last active time is that of some message, or 0.
  lemma {:induction false} ActiveIsMessage(es: seq<Event>)
    ensures var a := Run(es).lastActive;
            a == 0 || exists i :: 0 <= i < |es| && es[i].Message? && es[i].now == a
  {
    if es == [] {
    } else {
      var front, e := es[..|es| - 1], es[|es| - 1];
      ActiveIsMessage(front);
      var a := Run(front).lastActive;
      if e.Message? {
        assert es[|es| - 1].now == Run(es).lastActive;
      } else if a != 0 {
        var i :| 0 <= i < |front| && front[i].Message? && front[i].now == a;
        assert es[i].Message? && es[i].now == a;
      }
    }
  }

  // Times at least an interval apart keep any later time apart exactly when the
  // last one does.
  lemma LastDecides(ts: seq<int>, now: int)
    requires Spaced(ts)
    ensures (forall i :: 0 <= i < |ts| ==> now - ts[i] >= INTERVAL) <==> ts == [] || now - LastOr(ts, 0) >= INTERVAL
  {
    forall i | 0 <= i < |ts| - 1
      ensures ts[i] <= ts[|ts| - 1]
    {
      SpacedBelow(ts, i);
    }
  }

  // A heartbeat call sends exactly when the clock, every heartbeat before and
  // every message before are 30 seconds past.
  lemma BeatsIff(es: seq<Event>, now: u64, sent: u64)
    requires InOrder(es + [Beat(now, sent)])
    ensures Beats(Run(es), Beat(now, sent)) <==>
            && now >= 30000
            && (forall i :: 0 <= i < |BeatTimes(es)| ==> now - BeatTimes(es)[i] >= 30000)
            && (forall i :: 0 <= i < |es| && es[i].Message? ==> now - es[i].now >= 30000)
  {
    var all := es + [Beat(now, sent)];
    InOrderFront(all);
    assert all[..|all| - 1] == es && all[|all| - 1] == Beat(now, sent);
    hide InOrder;
    Recorded(es);
    BeatsApart(es);
    LastDecides(BeatTimes(es), now);
    ActiveIsMessage(es);
    LastIsFirst(es);
    hide Run, BeatTimes, Spaced;
  }

  lemma LastIsFirst(es: seq<Event>)
    ensures BeatTimes(es) == [] ==> Run(es).lastSend == 0
  {
    LastSent(es);
  }

  // A login call gets through exactly when nobody is logged in and the last
  // attempt, if it was not at time 0, is 30 seconds past.
  lemma AttemptsIff(es: seq<Event>, now: u64, loggedIn: bool)
    requires InOrder(es + [Login(now, loggedIn)])
    ensures var ts := LoginTimes(es);
            Attempts(Run(es), Login(now, loggedIn)) <==>
            !loggedIn && (ts == [] || ts[|ts| - 1] == 0 || now - ts[|ts| - 1] >= 30000)
  {
    var all := es + [Login(now, loggedIn)];
    InOrderFront(all);
    assert all[..|all| - 1] == es && all[|all| - 1] == Login(now, loggedIn);
    hide InOrder;
    Recorded(es);
    LastAttempt(es);
    hide Run, LoginTimes;
  }

  // A heartbeat is sent only after an interval without a message.
  lemma BeatAfterSilence(es: seq<Event>, i: nat, j: nat)
    requires InOrder(es) && i < j < |es| && es[i].Message? && Beats(Run(es[..j]), es[j])
    ensures es[j].sent - es[i].now >= INTERVAL
  {
    var front := es[..j];
    Recorded(front);
    assert front[i].Message? && End(front[|front| - 1]) <= es[j].now;
  }

  // A login call that gets as far as the limiter.
  predicate Tries(e: Event) {
    e.Login? && !e.loggedIn
  }

  predicate TriesAtZero(es: seq<Event>) {
    exists i :: 0 <= i < |es| && Tries(es[i]) && es[i].now == 0
  }

  // A login call at time 0, and another one within the interval.
  predicate Forgotten(es: seq<Event>) {
    exists i, j :: 0 <= i < j < |es| && Tries(es[i]) && es[i].now == 0 && Tries(es[j]) && es[j].now < INTERVAL
  }

  lemma {:induction false} SpacedBelow(ts: seq<int>, i: nat)
    requires Spaced(ts) && i < |ts| - 1
    ensures ts[i] <= ts[|ts| - 1] - INTERVAL
    decreases |ts| - i
  {
    if i >= |ts| - 2 {
    } else {
      assert ts[i + 1] - ts[i] >= INTERVAL;
      SpacedBelow(ts, i + 1);
    }
  }

  lemma TriesAtZeroStep(es: seq<Event>)
    requires es != []
    ensures var front, e := es[..|es| - 1], es[|es| - 1];
            TriesAtZero(es) <==> TriesAtZero(front) || (Tries(e) && e.now == 0)
  {
    var front, e := es[..|es| - 1], es[|es| - 1];
    hide Tries;
    if TriesAtZero(front) {
      var i :| 0 <= i < |front| && Tries(front[i]) && front[i].now == 0;
      assert Tries(es[i]);
    }
  }

  lemma ForgottenStep(es: seq<Event>)
    requires es != []
    ensures var front, e := es[..|es| - 1], es[|es| - 1];
            Forgotten(es) <==> Forgotten(front) || (TriesAtZero(front) && Tries(e) && e.now < INTERVAL)
  {
    var front, e := es[..|es| - 1], es[|es| - 1];
    hide Tries;
    if Forgotten(front) {
      var i, j :| 0 <= i < j < |front| && Tries(front[i]) && front[i].now == 0 && Tries(front[j]) && front[j].now < INTERVAL;
      assert Tries(es[i]) && Tries(es[j]);
    }
    if TriesAtZero(front) && Tries(e) && e.now < INTERVAL {
      var i :| 0 <= i < |front| && Tries(front[i]) && front[i].now == 0;
      assert Tries(es[i]) && Tries(es[|es| - 1]);
    }
    if Forgotten(es) {
      var i, j :| 0 <= i < j < |es| && Tries(es[i]) && es[i].now == 0 && Tries(es[j]) && es[j].now < INTERVAL;
      assert Tries(front[i]) && (j < |front| ==> Tries(front[j]));
    }
  }

  // No attempt lies behind the clock.
  lemma {:induction false} AttemptsInThePast(es: seq<Event>)
    requires InOrder(es)
    ensures forall i :: 0 <= i < |LoginTimes(es)| ==> es != [] && 0 <= LoginTimes(es)[i] <= End(es[|es| - 1])
  {
    if es == [] {
    } else {
      var front := es[..|es| - 1];
      assert front != [] ==> End(front[|front| - 1]) <= es[|es| - 1].now;
      AttemptsInThePast(front);
      hide Attempts, Run;
    }
  }

  lemma {:induction false} LastAttempt(es: seq<Event>)
    ensures Run(es).lastLogin == LastOr(LoginTimes(es), 0)
  {
    if es == [] {
    } else {
      LastAttempt(es[..|es| - 1]);
    }
  }

  lemma FirstStep(s: State, e: Event, was: seq<int>, zero: bool)
    requires s.lastLogin == LastOr(was, 0) && s.lastLogin <= e.now
    requires forall i :: 0 <= i < |was| ==> 0 <= was[i] <= e.now
    requires was != [] && was[0] == 0 <==> zero
    ensures var ts := was + if Attempts(s, e) then [e.now as int] else [];
            ts != [] && ts[0] == 0 <==> zero || (Tries(e) && e.now == 0)
  {
  }

  // The limiter remembers the last attempt, and the first attempt was at 0
  // exactly when some login call was.
  lemma {:induction false} FirstAttempt(es: seq<Event>)
    requires InOrder(es)
    ensures var ts := LoginTimes(es);
            && Run(es).lastLogin == LastOr(ts, 0)
            && (ts != [] && ts[0] == 0 <==> TriesAtZero(es))
  {
    hide InOrder, Run, Attempts, TriesAtZero;
    LastAttempt(es);
    if es == [] {
      assert !TriesAtZero([]) by { NeverAtZero(); }
    } else {
      var front, e := es[..|es| - 1], es[|es| - 1];
      InOrderFront(es);
      FirstAttempt(front);
      Recorded(front);
      TriesAtZeroStep(es);
      AttemptsInThePast(front);
      FirstStep(Run(front), e, LoginTimes(front), TriesAtZero(front));
    }
  }

  lemma NeverAtZero()
    ensures !TriesAtZero([])
  {
  }

  // One more event, behind the attempts in was; zero says whether a login call
  // was made at time 0.
  lemma SpacedStep(s: State, e: Event, was: seq<int>, zero: bool)
    requires s.lastLogin == LastOr(was, 0) && s.lastLogin <= e.now
    requires forall i :: 0 <= i < |was| ==> was[i] >= 0
    requires was != [] && was[0] == 0 <==> zero
    ensures Spaced(was + if Attempts(s, e) then [e.now as int] else [])
            <==> Spaced(was) && !(zero && Tries(e) && e.now < INTERVAL)
  {
    if |was| > 1 && Spaced(was) {
      SpacedBelow(was, 0);
    }
    if Attempts(s, e) {
      SpacedMore(was, e.now);
    } else {
      assert was + [] == was;
    }
  }

  lemma SpacedMore(was: seq<int>, t: int)
    ensures Spaced(was + [t]) <==> Spaced(was) && (was == [] || t - was[|was| - 1] >= INTERVAL)
  {
    var now := was + [t];
    if Spaced(now) {
      forall i | 0 < i < |was|
        ensures was[i] - was[i - 1] >= INTERVAL
      {
        assert now[i] - now[i - 1] >= INTERVAL;
      }
      assert was != [] ==> now[|was|] - now[|was| - 1] >= INTERVAL;
    }
  }

  // Attempts are an interval apart exactly when no login call at time 0 is
  // followed by another one within the interval.
  lemma {:induction false} LoginsApartIff(es: seq<Event>)
    requires InOrder(es)
    ensures Spaced(LoginTimes(es)) <==> !Forgotten(es)
  {
    if es == [] {
    } else {
      var front, e := es[..|es| - 1], es[|es| - 1];
      LoginsApartIff(front);
      Recorded(front);
      InOrderFront(es);
      FirstAttempt(front);
      AttemptsInThePast(front);
      ForgottenStep(es);
      SpacedStep(Run(front), e, LoginTimes(front), TriesAtZero(front));
      hide Attempts, Run, Spaced, Forgotten, TriesAtZero, Tries, LastOr, InOrder;
    }
  }

  // It happens: an attempt at time 0 does not count as one.
  lemma LoginAtZero()
    ensures var es := [Login(0, false), Login(1, false)];
            InOrder(es) && LoginTimes(es) == [0, 1] && !Spaced(LoginTimes(es))
  {
    var es := [Login(0, false), Login(1, false)];
    assert es[..1] == [Login(0, false)] && es[..1][..0] == [];
    assert Run(es[..1]) == State(0, 0, 0);
    assert LoginTimes(es[..1]) == [0];
    var ts := LoginTimes(es);
    assert ts == [0] + [1];
    assert ts[1] - ts[1 - 1] < INTERVAL;
  }

  /** Any window **/

  function Count(ts: seq<int>, lo: int, hi: int): nat {
    if ts == [] then 0
    else Count(ts[..|ts| - 1], lo, hi) + if lo <= ts[|ts| - 1] <= hi then 1 else 0
  }

  // The places of the times in the window.
  ghost function Within(ts: seq<int>, lo: int, hi: int): set<int> {
    set i | 0 <= i < |ts| && lo <= ts[i] <= hi
  }

  lemma WithinLast(ts: seq<int>, lo: int, hi: int)
    requires ts != []
    ensures var n := |ts| - 1;
            && n !in Within(ts[..n], lo, hi)
            && Within(ts, lo, hi) == Within(ts[..n], lo, hi) + if lo <= ts[n] <= hi then {n} else {}
  {
    var n := |ts| - 1;
    assert forall i :: 0 <= i < n ==> ts[..n][i] == ts[i];
  }

  // There are as many of them as counted.
  lemma {:induction false} CountIs(ts: seq<int>, lo: int, hi: int)
    ensures Count(ts, lo, hi) == |Within(ts, lo, hi)|
  {
    if ts == [] {
    } else {
      WithinLast(ts, lo, hi);
      CountIs(ts[..|ts| - 1], lo, hi);
      hide Within;
    }
  }

  lemma {:induction false} CountBelow(ts: seq<int>, lo: int, hi: int, top: int)
    requires top <= hi && forall i :: 0 <= i < |ts| ==> ts[i] <= top
    ensures Count(ts, lo, hi) == Count(ts, lo, top)
    ensures top < lo ==> Count(ts, lo, hi) == 0
  {
    if ts == [] {
    } else {
      CountBelow(ts[..|ts| - 1], lo, hi, top);
    }
  }

  lemma {:induction false} WindowBound(ts: seq<int>, lo: int, span: nat)
    requires Spaced(ts)
    ensures Count(ts, lo, lo + span) <= span / INTERVAL + 1
    decreases |ts|
  {
    if ts == [] {
    } else {
      var front, x := ts[..|ts| - 1], ts[|ts| - 1];
      assert Spaced(front) by {
        assert forall i :: 0 < i < |front| ==> ts[i] - ts[i - 1] >= INTERVAL;
      }
      if lo <= x <= lo + span {
        forall i | 0 <= i < |front|
          ensures front[i] <= x - INTERVAL
        {
          SpacedBelow(ts, i);
        }
        CountBelow(front, lo, lo + span, x - INTERVAL);
        if x - INTERVAL >= lo {
          WindowBound(front, lo, x - INTERVAL - lo);
        }
      } else {
        WindowBound(front, lo, span);
      }
    }
  }

  // At most span / 30000 + 1 of each kind in any window.
  lemma RateBound(es: seq<Event>, lo: int, span: nat)
    requires InOrder(es)
    ensures Count(BeatTimes(es), lo, lo + span) <= span / 30000 + 1
    ensures !Forgotten(es) ==> Count(LoginTimes(es), lo, lo + span) <= span / 30000 + 1
  {
    BeatsApart(es);
    WindowBound(BeatTimes(es), lo, span);
    LoginsApartIff(es);
    if !Forgotten(es) {
      WindowBound(LoginTimes(es), lo, span);
    }
  }
}
