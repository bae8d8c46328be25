/** Runs of the bootstrap gate: concurrent requests in small steps, and the delays
    an address meets when requests come one after the other. */
module BootstrapRuns {
  import opened BootstrapGate

  // ---- concurrent requests -----------------------------------------------------------

  /** A request past the completed/paused snapshot; `checked` once blockedFor let it by. */
  datatype Flight = Flight(ip: string, good: bool, checked: bool)

  datatype World = World(gate: Gate, clock: nat, flights: map<nat, Flight>, served: set<nat>)

  datatype Action =
    | Tick(d: nat)
    | Enter(id: nat, ip: string, good: bool)
    | Check(id: nat)
    | Finish(id: nat, lag: nat)
    | CompleteWizard

  const START := World(Gate(false, false, 0, map[]), 0, map[], {})

  /** One atomic section of one request, at most `k` of them past the snapshot at a
      time; an action that is not enabled changes nothing. */
  function Next(k: nat, w: World, a: Action): World {
    match a
    case Tick(d) => w.(clock := w.clock + d)
    case CompleteWizard => w.(gate := w.gate.(completed := true))
    case Enter(id, ip, good) =>
      if w.gate.completed || w.gate.paused || id in w.flights || id in w.served || |w.flights| >= k then w
      else w.(flights := w.flights[id := Flight(ip, good, false)])
    case Check(id) =>
      if id !in w.flights || w.flights[id].checked then w
      else if BlockedFor(w.gate, w.flights[id].ip, w.clock) > 0 then w.(flights := w.flights - {id})
      else w.(flights := w.flights[id := w.flights[id].(checked := true)])
    case Finish(id, lag) =>
      if id !in w.flights || !w.flights[id].checked then w
      else
        var f := w.flights[id];
        var landed := w.(flights := w.flights - {id});
        if f.good then landed.(gate := Succeeded(w.gate, f.ip), served := w.served + {id})
        else landed.(gate := Failed(w.gate, f.ip, w.clock, w.clock + lag), clock := w.clock + lag)
  }

  function Run(k: nat, w: World, actions: seq<Action>): World
    decreases |actions|
  {
    if actions == [] then w else Run(k, Next(k, w, actions[0]), actions[1..])
  }

  ghost predicate Counted(k: nat, w: World) {
    && |w.flights| <= k
    && w.gate.globalFailures + |w.flights| <= FAILURES_BEFORE_GLOBAL_PAUSE - 1 + k
    && (w.gate.globalFailures >= FAILURES_BEFORE_GLOBAL_PAUSE ==> w.gate.paused)
    && SumFailures(w.gate.attempts) <= w.gate.globalFailures
  }

  /** What is recorded about an address never lies further ahead than one delay. */
  ghost predicate Timely(clock: int, a: Attempt) {
    && a.failures >= 1
    && a.nextAllowed <= clock + Backoff(a.failures)
    && (a.failures < FAILURES_BEFORE_IP_BLOCK ==> a.blockedUntil == 0)
    && (a.failures >= FAILURES_BEFORE_IP_BLOCK ==>
          a.blockedUntil <= clock + HOUR && a.nextAllowed <= a.blockedUntil - HOUR + Backoff(a.failures))
  }

  ghost predicate AllTimely(w: World) {
    forall ip | ip in w.gate.attempts :: Timely(w.clock, w.gate.attempts[ip])
  }

  lemma FlightLands(w: World, id: nat, f: Flight)
    requires id in w.flights
    ensures |w.flights - {id}| == |w.flights| - 1
    ensures |w.flights[id := f]| == |w.flights|
  {
    assert w.flights.Keys == (w.flights - {id}).Keys + {id};
    assert w.flights[id := f].Keys == w.flights.Keys;
  }

  lemma NextKeepsCounted(k: nat, w: World, a: Action)
    requires Counted(k, w)
    ensures Counted(k, Next(k, w, a))
  {
    match a
    case Check(id) =>
      if id in w.flights { FlightLands(w, id, w.flights[id].(checked := true)); }
    case Finish(id, lag) =>
      if id in w.flights {
        var f := w.flights[id];
        FlightLands(w, id, f);
        if f.good {
          SumAfterSuccess(w.gate, f.ip);
        } else {
          SumAfterFailure(w.gate, f.ip, w.clock, w.clock + lag);
        }
      }
    case _ =>
  }

  lemma NextKeepsTimely(k: nat, w: World, a: Action)
    requires AllTimely(w)
    ensures AllTimely(Next(k, w, a))
  {
    var v := Next(k, w, a);
    forall ip | ip in v.gate.attempts ensures Timely(v.clock, v.gate.attempts[ip]) {
      if ip in w.gate.attempts { assert Timely(w.clock, w.gate.attempts[ip]); }
    }
  }

  lemma {:induction false} RunKeepsInvariants(k: nat, w: World, actions: seq<Action>)
    requires Counted(k, w) && AllTimely(w)
    ensures Counted(k, Run(k, w, actions)) && AllTimely(Run(k, w, actions))
    decreases |actions|
  {
    if actions != [] {
      NextKeepsCounted(k, w, actions[0]);
      NextKeepsTimely(k, w, actions[0]);
      RunKeepsInvariants(k, Next(k, w, actions[0]), actions[1..]);
    }
  }

  /** However requests interleave, with at most k of them in flight: failures counted
      plus requests past the snapshot stay within 9 + k, no address has more failures
      than were counted in all, and up to k = 25 every delay is computed without
      leaving int64. */
  lemma PauseBound(k: nat, actions: seq<Action>)
    ensures var w := Run(k, START, actions);
            && w.gate.globalFailures + |w.flights| <= 9 + k
            && (w.gate.globalFailures >= 10 ==> w.gate.paused)
            && SumFailures(w.gate.attempts) <= w.gate.globalFailures
            && (forall ip | ip in w.gate.attempts ::
                  1 <= w.gate.attempts[ip].failures <= 9 + k
                  && (k <= 25 ==> Backoff(w.gate.attempts[ip].failures)
                                  == Pow2(w.gate.attempts[ip].failures - 1) * SECOND))
  {
    RunKeepsInvariants(k, START, actions);
    var w := Run(k, START, actions);
    forall ip | ip in w.gate.attempts
      ensures 1 <= w.gate.attempts[ip].failures <= 9 + k
      ensures k <= 25 ==> Backoff(w.gate.attempts[ip].failures)
                          == Pow2(w.gate.attempts[ip].failures - 1) * SECOND
    {
      FailuresOf(k, w, ip);
    }
  }

  lemma FailuresOf(k: nat, w: World, ip: string)
    requires Counted(k, w) && AllTimely(w) && ip in w.gate.attempts
    ensures var f := w.gate.attempts[ip].failures;
            1 <= f <= 9 + k && (k <= 25 ==> Backoff(f) == Pow2(f - 1) * SECOND)
  {
    assert Timely(w.clock, w.gate.attempts[ip]);
    OneOfSum(w.gate.attempts, ip);
    BackoffExactIff(w.gate.attempts[ip].failures);
  }

  lemma BackoffUpTo(f: nat)
    requires 1 <= f <= 13
    ensures Backoff(f) <= 4096 * SECOND
    ensures f < FAILURES_BEFORE_IP_BLOCK ==> Backoff(f) <= 8 * SECOND
  {
    BackoffExactIff(f);
    assert Pow2(3) == 8;
    assert Pow2(12) == 4096 by { assert Pow2(6) == 64; }
    Pow2Grows(f - 1, 12);
    if f <= 4 { Pow2Grows(f - 1, 3); }
  }

  /** With at most four requests in flight an address never waits more than the
      announced hour. */
  lemma WaitAtMostAnHour(k: nat, actions: seq<Action>, ip: string, now: int)
    requires k <= 4 && now >= Run(k, START, actions).clock
    ensures BlockedFor(Run(k, START, actions).gate, ip, now) <= HOUR
  {
    RunKeepsInvariants(k, START, actions);
    var w := Run(k, START, actions);
    if ip in w.gate.attempts {
      OneOfSum(w.gate.attempts, ip);
      assert Timely(w.clock, w.gate.attempts[ip]);
      BackoffUpTo(w.gate.attempts[ip].failures);
    }
  }

  /** A recorded failure keeps every later wait within the hour exactly if the delay lasts
      at most two hours: while the delay is computed exactly, up to thirteen failures. */
  lemma WaitAtMostAnHourIff(g: Gate, ip: string, now: int)
    requires now >= 0
    ensures var h := Failed(g, ip, now, now);
            var f := h.attempts[ip].failures;
            && (f >= FAILURES_BEFORE_IP_BLOCK ==>
                  ((forall t | t >= now :: BlockedFor(h, ip, t) <= HOUR) <==> Backoff(f) <= 2 * HOUR))
            && (f <= 34 ==> (Backoff(f) <= 2 * HOUR <==> f <= 13))
  {
    var h := Failed(g, ip, now, now);
    if Backoff(h.attempts[ip].failures) > 2 * HOUR {
      assert h.attempts[ip].failures >= FAILURES_BEFORE_IP_BLOCK ==> BlockedFor(h, ip, now + HOUR) > HOUR;
    }
    TwoHoursIff(h.attempts[ip].failures);
  }

  lemma TwoHoursIff(f: nat)
    requires f >= 1
    ensures f <= 34 ==> (Backoff(f) <= 2 * HOUR <==> f <= 13)
  {
    if f <= 13 {
      BackoffUpTo(f);
    } else if f <= 34 {
      BackoffExactIff(f);
      assert Pow2(13) == 8192 by { assert Pow2(7) == 128; }
      Pow2Grows(13, f - 1);
    }
  }

  // ---- a fifth request in flight ------------------------------------------------------------------

  lemma {:induction false} RunSnoc(k: nat, w: World, actions: seq<Action>, a: Action)
    ensures Run(k, w, actions + [a]) == Next(k, Run(k, w, actions), a)
    decreases |actions|
  {
    if actions == [] {
      assert Run(k, Next(k, w, a), []) == Next(k, w, a);
    } else {
      RunSnoc(k, Next(k, w, actions[0]), actions[1..], a);
      assert (actions + [a])[1..] == actions[1..] + [a];
    }
  }

  /** `n` failures of one address on record, nothing in flight; ids up to n are used up. */
  ghost predicate Failures(w: World, ip: string, n: nat) {
    && w.flights == map[] && w.served == {} && !w.gate.completed
    && w.gate.globalFailures == n && !w.gate.paused
    && AttemptOf(w.gate, ip).failures == n
    && (if n == 0 then ip !in w.gate.attempts
        else ip in w.gate.attempts && Timely(w.clock, w.gate.attempts[ip]))
  }

  /** Long enough for the delay and the block of up to nine failures. */
  const PATIENCE: nat := 3600 * SECOND

  lemma PatienceSuffices(w: World, ip: string, n: nat)
    requires n <= 9 && Failures(w, ip, n)
    ensures BlockedFor(w.gate, ip, w.clock + PATIENCE) == 0
  {
    if n > 0 { TenFailures(n); }
  }

  ghost predicate InFlight(w: World, ip: string, n: nat, checked: bool) {
    && w.flights == map[n := Flight(ip, false, checked)] && w.served == {} && !w.gate.completed
    && w.gate.globalFailures == n && !w.gate.paused
    && AttemptOf(w.gate, ip).failures == n && BlockedFor(w.gate, ip, w.clock) == 0
    && (if n == 0 then ip !in w.gate.attempts
        else ip in w.gate.attempts && Timely(w.clock, w.gate.attempts[ip]))
  }

  lemma Enters(k: nat, w: World, ip: string, n: nat)
    requires k >= 1 && n < 9 && Failures(w, ip, n)
    ensures InFlight(Next(k, Next(k, w, Tick(PATIENCE)), Enter(n, ip, false)), ip, n, false)
  {
    PatienceSuffices(w, ip, n);
  }

  lemma Lands(k: nat, w: World, ip: string, n: nat)
    requires n < 9 && InFlight(w, ip, n, false)
    ensures Failures(Next(k, Next(k, w, Check(n)), Finish(n, 0)), ip, n + 1)
  {
    var c := Next(k, w, Check(n));
    assert InFlight(c, ip, n, true);
    assert c.flights - {n} == map[];
  }

  lemma {:induction false} FailuresReached(k: nat, ip: string, n: nat) returns (actions: seq<Action>)
    requires k >= 1 && n <= 9
    ensures Failures(Run(k, START, actions), ip, n)
  {
    actions := [];
    if n > 0 {
      var before := FailuresReached(k, ip, n - 1);
      var w := Run(k, START, before);
      Enters(k, w, ip, n - 1);
      Lands(k, Next(k, Next(k, w, Tick(PATIENCE)), Enter(n - 1, ip, false)), ip, n - 1);
      RunSnoc(k, START, before, Tick(PATIENCE));
      RunSnoc(k, START, before + [Tick(PATIENCE)], Enter(n - 1, ip, false));
      RunSnoc(k, START, before + [Tick(PATIENCE)] + [Enter(n - 1, ip, false)], Check(n - 1));
      RunSnoc(k, START, before + [Tick(PATIENCE)] + [Enter(n - 1, ip, false)] + [Check(n - 1)], Finish(n - 1, 0));
      actions := before + [Tick(PATIENCE)] + [Enter(n - 1, ip, false)] + [Check(n - 1)] + [Finish(n - 1, 0)];
    }
  }

  /** Nine failures on record and requests `10..10 + m` checked, all with a wrong token. */
  ghost predicate Checked(w: World, ip: string, m: nat) {
    && w.served == {} && !w.gate.completed && !w.gate.paused
    && AttemptOf(w.gate, ip).failures == 9 && BlockedFor(w.gate, ip, w.clock) == 0
    && |w.flights| == m
    && (forall id :: id in w.flights <==> 10 <= id < 10 + m)
    && (forall id | id in w.flights :: w.flights[id] == Flight(ip, false, true))
  }

  lemma OneMoreChecked(k: nat, w: World, ip: string, m: nat)
    requires k >= 5 && m < 5 && Checked(w, ip, m)
    ensures Checked(Next(k, Next(k, w, Enter(10 + m, ip, false)), Check(10 + m)), ip, m + 1)
  {
    var a := Next(k, w, Enter(10 + m, ip, false));
    assert a.flights.Keys == w.flights.Keys + {10 + m};
    var b := Next(k, a, Check(10 + m));
    assert b.flights.Keys == a.flights.Keys;
  }

  lemma {:induction false} CheckedReached(k: nat, ip: string, m: nat) returns (actions: seq<Action>)
    requires k >= 5 && m <= 5
    ensures Checked(Run(k, START, actions), ip, m)
  {
    if m == 0 {
      var before := FailuresReached(k, ip, 9);
      PatienceSuffices(Run(k, START, before), ip, 9);
      RunSnoc(k, START, before, Tick(PATIENCE));
      actions := before + [Tick(PATIENCE)];
    } else {
      var before := CheckedReached(k, ip, m - 1);
      OneMoreChecked(k, Run(k, START, before), ip, m - 1);
      RunSnoc(k, START, before, Enter(9 + m, ip, false));
      RunSnoc(k, START, before + [Enter(9 + m, ip, false)], Check(9 + m));
      actions := before + [Enter(9 + m, ip, false)] + [Check(9 + m)];
    }
  }

  /** Of the five checked requests `m` have failed. */
  ghost predicate Landed(w: World, ip: string, m: nat) {
    && (forall id :: id in w.flights <==> 10 + m <= id < 15)
    && (forall id | id in w.flights :: w.flights[id] == Flight(ip, false, true))
    && AttemptOf(w.gate, ip).failures == 9 + m
    && (m > 0 ==> ip in w.gate.attempts
                  && w.gate.attempts[ip].nextAllowed == w.clock + Backoff(9 + m)
                  && w.gate.attempts[ip].blockedUntil == w.clock + HOUR)
  }

  lemma OneMoreLanded(k: nat, w: World, ip: string, m: nat)
    requires m < 5 && Landed(w, ip, m)
    ensures Landed(Next(k, w, Finish(10 + m, 0)), ip, m + 1)
  {
  }

  lemma {:induction false} LandedReached(k: nat, ip: string, m: nat) returns (actions: seq<Action>)
    requires k >= 5 && m <= 5
    ensures Landed(Run(k, START, actions), ip, m)
  {
    if m == 0 {
      actions := CheckedReached(k, ip, 5);
    } else {
      var before := LandedReached(k, ip, m - 1);
      OneMoreLanded(k, Run(k, START, before), ip, m - 1);
      RunSnoc(k, START, before, Finish(9 + m, 0));
      actions := before + [Finish(9 + m, 0)];
    }
  }

  /** With five in flight, one address gets past the check for its tenth to fourteenth
      failure at once, and waits more than an hour when the block is over. */
  lemma FiveInFlightWaitLonger(k: nat, ip: string) returns (actions: seq<Action>)
    requires k >= 5
    ensures var w := Run(k, START, actions); BlockedFor(w.gate, ip, w.clock + HOUR) > HOUR
  {
    actions := LandedReached(k, ip, 5);
    TwoHoursIff(14);
  }

  ghost predicate WithinTheHour(k: nat) {
    forall actions: seq<Action>, ip: string, now: int | now >= Run(k, START, actions).clock ::
      BlockedFor(Run(k, START, actions).gate, ip, now) <= HOUR
  }

  /** Every wait in every run stays within the announced hour if and only if at most four
      requests can be in flight at a time. */
  lemma WithinTheHourIff(k: nat)
    ensures WithinTheHour(k) <==> k <= 4
  {
    if k <= 4 {
      forall actions: seq<Action>, ip: string, now: int | now >= Run(k, START, actions).clock
        ensures BlockedFor(Run(k, START, actions).gate, ip, now) <= HOUR
      {
        WaitAtMostAnHour(k, actions, ip, now);
      }
    } else {
      var actions := FiveInFlightWaitLonger(k, "");
      assert BlockedFor(Run(k, START, actions).gate, "", Run(k, START, actions).clock + HOUR) > HOUR;
    }
  }

  /** Once the gate is completed or paused it stays so, nobody gets past the snapshot
      any more, and the only handlers still reached are those of requests that were
      already past it with the right token. */
  lemma {:induction false} ClosedStaysClosed(k: nat, w: World, actions: seq<Action>)
    requires w.gate.completed || w.gate.paused
    ensures var v := Run(k, w, actions);
            && (w.gate.completed ==> v.gate.completed) && (w.gate.paused ==> v.gate.paused)
            && v.flights.Keys <= w.flights.Keys
            && v.served <= w.served + (set id | id in w.flights && w.flights[id].good)
            && (forall id | id in v.flights :: v.flights[id].good == w.flights[id].good)
    decreases |actions|
  {
    if actions != [] {
      ClosedStaysClosed(k, Next(k, w, actions[0]), actions[1..]);
    }
  }

  /** A request whose steps are not interleaved does what Serve says. */
  lemma SmallStepsAreServe(k: nat, w: World, id: nat, ip: string, good: bool, wait: nat, lag: nat)
    requires k >= 1 && w.flights == map[] && id !in w.served
    ensures var v := Run(k, w, [Enter(id, ip, good), Check(id), Tick(wait), Finish(id, lag)]);
            var (g, response) := Serve(w.gate, ip, good, w.clock, w.clock + wait, w.clock + wait + lag);
            && v.gate == g && v.flights == map[]
            && (id in v.served <==> response == Served)
  {
    RunOfFour(k, w, Enter(id, ip, good), Check(id), Tick(wait), Finish(id, lag));
    EnterAndCheck(k, w, id, ip, good);
    var w2 := Next(k, Next(k, w, Enter(id, ip, good)), Check(id));
    if id in w2.flights {
      assert w2.flights - {id} == map[];
    }
  }

  lemma EnterAndCheck(k: nat, w: World, id: nat, ip: string, good: bool)
    requires k >= 1 && w.flights == map[] && id !in w.served
    ensures var passes := !w.gate.completed && !w.gate.paused && BlockedFor(w.gate, ip, w.clock) <= 0;
            Next(k, Next(k, w, Enter(id, ip, good)), Check(id))
            == w.(flights := if passes then map[id := Flight(ip, good, true)] else map[])
  {
    var w1 := Next(k, w, Enter(id, ip, good));
    if id in w1.flights {
      assert w1.flights == map[id := Flight(ip, good, false)];
      assert w1.flights - {id} == map[];
      assert w1.flights[id := Flight(ip, good, true)] == map[id := Flight(ip, good, true)];
    }
  }

  lemma RunOfFour(k: nat, w: World, a: Action, b: Action, c: Action, d: Action)
    ensures Run(k, w, [a, b, c, d]) == Next(k, Next(k, Next(k, Next(k, w, a), b), c), d)
  {
    RunSnoc(k, w, [], a);
    RunSnoc(k, w, [a], b);
    RunSnoc(k, w, [a, b], c);
    RunSnoc(k, w, [a, b, c], d);
    assert [] + [a] == [a] && [a] + [b] == [a, b];
    assert [a, b] + [c] == [a, b, c] && [a, b, c] + [d] == [a, b, c, d];
  }

  // ---- one request after the other --------------------------------------------------

  /** A request `gap` after the previous one; `wait` and `lag` separate its clock readings. */
  datatype Request = Request(ip: string, good: bool, gap: nat, wait: nat, lag: nat)

  /** `history[ip]`: the instants of the address's failures since its last success. */
  datatype Log = Log(gate: Gate, clock: nat, history: map<string, seq<int>>)

  const FIRST := Log(Gate(false, false, 0, map[]), 0, map[])

  function HistoryOf(l: Log, ip: string): seq<int> {
    if ip in l.history then l.history[ip] else []
  }

  function Handle(l: Log, r: Request): Log {
    var seen := l.clock + r.gap;
    var now := seen + r.wait;
    var later := now + r.lag;
    var (g, response) := Serve(l.gate, r.ip, r.good, seen, now, later);
    var history :=
      match response
      case Served => l.history - {r.ip}
      case Rejected(_) => l.history[r.ip := HistoryOf(l, r.ip) + [now]]
      case NowBlocked => l.history[r.ip := HistoryOf(l, r.ip) + [now]]
      case _ => l.history;
    Log(g, later, history)
  }

  function HandleAll(l: Log, requests: seq<Request>): Log {
    if requests == [] then l
    else Handle(HandleAll(l, requests[..|requests| - 1]), requests[|requests| - 1])
  }

  /** The least time between failure n and failure n + 1. */
  function Pause(n: nat): nat
    requires n >= 1
  {
    if n < FAILURES_BEFORE_IP_BLOCK then Pow2(n - 1) * SECOND else HOUR
  }

  ghost predicate Spaced(times: seq<int>) {
    forall i | 1 <= i < |times| :: times[i] >= times[i - 1] + Pause(i)
  }

  ghost predicate Throttled(l: Log, ip: string)
    requires ip in l.gate.attempts
  {
    var a, times := l.gate.attempts[ip], HistoryOf(l, ip);
    && a.failures == |times| && times != [] && Spaced(times)
    && a.nextAllowed == times[|times| - 1] + Backoff(|times|)
    && (|times| >= FAILURES_BEFORE_IP_BLOCK ==> a.blockedUntil >= times[|times| - 1] + HOUR)
  }

  ghost predicate LogInv(l: Log) {
    && l.gate.globalFailures <= FAILURES_BEFORE_GLOBAL_PAUSE
    && (l.gate.globalFailures >= FAILURES_BEFORE_GLOBAL_PAUSE ==> l.gate.paused)
    && SumFailures(l.gate.attempts) <= l.gate.globalFailures
    && l.gate.attempts.Keys == l.history.Keys
    && (forall ip | ip in l.gate.attempts :: Throttled(l, ip) && Timely(l.clock, l.gate.attempts[ip]))
  }

  ghost predicate Ignored(l: Log, m: Log) {
    m.gate == l.gate && m.history == l.history
  }

  ghost predicate Reset(l: Log, ip: string, m: Log) {
    m.gate == Succeeded(l.gate, ip) && m.history == l.history - {ip}
  }

  ghost predicate Recorded(l: Log, ip: string, m: Log, now: int) {
    && !l.gate.paused
    && m.gate.globalFailures == l.gate.globalFailures + 1
    && (m.gate.globalFailures >= FAILURES_BEFORE_GLOBAL_PAUSE ==> m.gate.paused)
    && SumFailures(m.gate.attempts) == SumFailures(l.gate.attempts) + 1
    && m.history == l.history[ip := HistoryOf(l, ip) + [now]]
    && ip in m.gate.attempts
    && m.gate.attempts == l.gate.attempts[ip := m.gate.attempts[ip]]
    && var a, b := AttemptOf(l.gate, ip), m.gate.attempts[ip];
       && now >= a.nextAllowed && now >= a.blockedUntil
       && b.failures == a.failures + 1 && b.nextAllowed == now + Backoff(b.failures)
       && (b.failures >= FAILURES_BEFORE_IP_BLOCK ==> now + HOUR <= b.blockedUntil <= m.clock + HOUR)
       && (b.failures < FAILURES_BEFORE_IP_BLOCK ==> b.blockedUntil == a.blockedUntil)
       && now <= m.clock
  }

  /** A request changes nothing, forgets the address, or records one more failure of an
      address that was not blocked. */
  lemma HandleCases(l: Log, r: Request)
    ensures var m := Handle(l, r);
            Ignored(l, m) || Reset(l, r.ip, m) || Recorded(l, r.ip, m, l.clock + r.gap + r.wait)
  {
    var now := l.clock + r.gap + r.wait;
    SumAfterFailure(l.gate, r.ip, now, now + r.lag);
  }

  lemma HandleKeepsCounts(l: Log, r: Request)
    requires LogInv(l)
    ensures var m := Handle(l, r);
            && m.gate.globalFailures <= FAILURES_BEFORE_GLOBAL_PAUSE
            && (m.gate.globalFailures >= FAILURES_BEFORE_GLOBAL_PAUSE ==> m.gate.paused)
            && SumFailures(m.gate.attempts) <= m.gate.globalFailures
            && m.gate.attempts.Keys == m.history.Keys
  {
    HandleCases(l, r);
    SumAfterSuccess(l.gate, r.ip);
  }

  /** An address whose delay and block are over has paused long enough. */
  lemma PauseIsOver(l: Log, ip: string, now: int)
    requires ip in l.gate.attempts && Throttled(l, ip) && l.gate.attempts[ip].failures <= 34
    requires now >= l.gate.attempts[ip].nextAllowed && now >= l.gate.attempts[ip].blockedUntil
    ensures var times := HistoryOf(l, ip);
            now >= times[|times| - 1] + Pause(|times|)
  {
    BackoffExactIff(l.gate.attempts[ip].failures);
  }

  lemma SpacedSnoc(times: seq<int>, now: int)
    requires Spaced(times) && (times != [] ==> now >= times[|times| - 1] + Pause(|times|))
    ensures Spaced(times + [now])
  {
  }

  /** A failure that is recorded comes late enough after the address's last one. */
  lemma RecordedIsThrottled(l: Log, ip: string, m: Log, now: int)
    requires Recorded(l, ip, m, now)
    requires ip in l.gate.attempts <==> ip in l.history
    requires ip in l.gate.attempts ==> Throttled(l, ip) && l.gate.attempts[ip].failures <= 34
    ensures Throttled(m, ip)
  {
    if ip in l.gate.attempts { PauseIsOver(l, ip, now); }
    SpacedSnoc(HistoryOf(l, ip), now);
  }

  lemma OthersStayThrottled(l: Log, m: Log, ip: string)
    requires ip in l.gate.attempts && Throttled(l, ip)
    requires ip in m.gate.attempts && m.gate.attempts[ip] == l.gate.attempts[ip]
    requires HistoryOf(m, ip) == HistoryOf(l, ip)
    ensures Throttled(m, ip)
  {
  }

  lemma HandleKeepsThrottled(l: Log, r: Request, ip: string)
    requires LogInv(l) && ip in Handle(l, r).gate.attempts
    ensures Throttled(Handle(l, r), ip)
  {
    HandleCases(l, r);
    var m, now := Handle(l, r), l.clock + r.gap + r.wait;
    if ip in l.gate.attempts {
      assert Throttled(l, ip);
      OneOfSum(l.gate.attempts, ip);
    }
    if ip == r.ip && Recorded(l, ip, m, now) {
      RecordedIsThrottled(l, ip, m, now);
    } else {
      OthersStayThrottled(l, m, ip);
    }
  }

  lemma HandleKeepsTimely(l: Log, r: Request, ip: string)
    requires LogInv(l) && ip in Handle(l, r).gate.attempts
    ensures Timely(Handle(l, r).clock, Handle(l, r).gate.attempts[ip])
  {
    HandleCases(l, r);
    if ip in l.gate.attempts { assert Timely(l.clock, l.gate.attempts[ip]); }
  }

  lemma HandleKeepsInv(l: Log, r: Request)
    requires LogInv(l)
    ensures LogInv(Handle(l, r))
  {
    HandleKeepsCounts(l, r);
    var m := Handle(l, r);
    forall ip | ip in m.gate.attempts ensures Throttled(m, ip) && Timely(m.clock, m.gate.attempts[ip]) {
      HandleKeepsThrottled(l, r, ip);
      HandleKeepsTimely(l, r, ip);
    }
  }

  lemma {:induction false} HandleAllKeepsInv(requests: seq<Request>)
    ensures LogInv(HandleAll(FIRST, requests))
  {
    if requests != [] {
      HandleAllKeepsInv(requests[..|requests| - 1]);
      HandleKeepsInv(HandleAll(FIRST, requests[..|requests| - 1]), requests[|requests| - 1]);
    }
  }

  lemma {:induction false} SpacedFromFirst(times: seq<int>, n: nat)
    requires Spaced(times) && 1 <= n <= |times|
    ensures n <= 5 ==> times[n - 1] >= times[0] + (Pow2(n - 1) - 1) * SECOND
    ensures n >= 5 ==> times[n - 1] >= times[0] + 15 * SECOND + (n - 5) * HOUR
  {
    assert Pow2(4) == 16;
    if n > 1 {
      SpacedFromFirst(times, n - 1);
      assert times[n - 1] >= times[n - 2] + Pause(n - 1);
      assert Pow2(n - 1) == 2 * Pow2(n - 2);
    }
  }

  lemma TenFailures(f: nat)
    requires 1 <= f <= 10
    ensures Backoff(f) <= 512 * SECOND
  {
    BackoffExactIff(f);
    assert Pow2(9) == 512 by { assert Pow2(5) == 32; }
    Pow2Grows(f - 1, 9);
  }

  lemma TimelyWait(l: Log, ip: string, now: int)
    requires ip in l.gate.attempts && Timely(l.clock, l.gate.attempts[ip])
    requires l.gate.attempts[ip].failures <= 10 && now >= l.clock
    ensures BlockedFor(l.gate, ip, now) <= HOUR
  {
    TenFailures(l.gate.attempts[ip].failures);
  }

  /** Requests one after the other: the n-th failure of an address since its last
      success comes at least 2^(n-1) - 1 seconds after the first one, and from the
      fifth on at least 15 seconds and n - 5 hours; there are at most ten failures in
      all, the delay never exceeds 512 seconds and no wait ever exceeds an hour. */
  lemma ThrottleSchedule(requests: seq<Request>, ip: string, n: nat, now: int)
    requires ip in HandleAll(FIRST, requests).gate.attempts
    requires 1 <= n <= HandleAll(FIRST, requests).gate.attempts[ip].failures
    requires now >= HandleAll(FIRST, requests).clock
    ensures var l := HandleAll(FIRST, requests);
            var times := HistoryOf(l, ip);
            && |times| == l.gate.attempts[ip].failures <= l.gate.globalFailures <= 10
            && (n <= 5 ==> times[n - 1] >= times[0] + (Pow2(n - 1) - 1) * SECOND)
            && (n >= 5 ==> times[n - 1] >= times[0] + 15 * SECOND + (n - 5) * HOUR)
            && Backoff(|times|) <= 512 * SECOND
            && BlockedFor(l.gate, ip, now) <= HOUR
  {
    HandleAllKeepsInv(requests);
    var l := HandleAll(FIRST, requests);
    assert Throttled(l, ip) && Timely(l.clock, l.gate.attempts[ip]);
    OneOfSum(l.gate.attempts, ip);
    SpacedFromFirst(HistoryOf(l, ip), n);
    TenFailures(l.gate.attempts[ip].failures);
    TimelyWait(l, ip, now);
  }
}
