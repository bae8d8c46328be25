/** The anomaly checks inside the running system: whatever everybody else does meanwhile,
    the reports about one session depend on that session's own requests. */
module AnomalyRuns {
  import opened Wrappers
  import opened SessionStore
  import opened SessionFacts
  import opened Accounts
  import opened AccountRuns
  import opened Anomaly

  /** What a check looks at. */
  datatype Signal = Country | Device

  function Keys(st: Store, k: Signal): map<Sid, Entry<string>> {
    match k
    case Country => st.countries
    case Device => st.devices
  }

  function LoginValue(s: Session, k: Signal): string {
    match k
    case Country => s.country
    case Device => s.userAgent
  }

  function Current(c: Client, k: Signal): string {
    match k
    case Country => c.country
    case Device => c.userAgent
  }

  function Key(st: Store, k: Signal, sid: Sid): Option<Entry<string>> {
    if sid in Keys(st, k) then Some(Keys(st, k)[sid]) else None
  }

  // ---- the requests of one session and their reports ------------------------------------------

  predicate IsVisit(sys: System, a: Action, sid: Sid) {
    VisitorOf(sys, a) == sid && Validates(sys.store, sid)
  }

  function SeenBy(sys: System, a: Action, sid: Sid, k: Signal): (seen: seq<Seen>)
    ensures |seen| <= 1 && (seen != [] ==> seen[0].at == sys.store.now)
  {
    if IsVisit(sys, a, sid) then [Seen(sys.store.now, Current(a.c, k))] else []
  }

  /** The session's requests among all actions of a run. */
  function Visits(sys: System, actions: seq<Action>, sid: Sid, k: Signal): seq<Seen>
    decreases |actions|
  {
    if actions == [] then []
    else SeenBy(sys, actions[0], sid, k) + Visits(Step(sys, actions[0]), actions[1..], sid, k)
  }

  /** What each of them is reported against. */
  function CheckReports(sys: System, actions: seq<Action>, sid: Sid, login: string, k: Signal): seq<Option<string>>
    decreases |actions|
  {
    if actions == [] then []
    else
      (if IsVisit(sys, actions[0], sid)
       then [Report(Baseline(Keys(sys.store, k), sid, login), Current(actions[0].c, k))]
       else [])
      + CheckReports(Step(sys, actions[0]), actions[1..], sid, login, k)
  }

  // ---- what one action does to the session's key ------------------------------------------------

  lemma VisitOnKey(st: Store, sid: Sid, c: Client, k: Signal)
    requires sid in Validated(st, sid, c).sessions && sid != ""
    ensures Validates(st, sid)
    ensures Keys(Validated(st, sid, c), k)
         == Observed(Keys(st, k), sid, LoginValue(st.sessions[sid].value, k), Current(c, k), st.now)
  {
  }

  lemma VisitOnOtherKey(st: Store, w: Sid, c: Client, sid: Sid, k: Signal)
    requires w != sid
    ensures Key(Validated(st, w, c), k, sid) == Key(st, k, sid)
  {
    if w in st.sessions { UnindexedIs(Killed(st, {w}), Owner(st, w), {w}); }
  }

  /** Once the visit is done, no handler touches the key of a session that survives it, nor
      adds a key. */
  lemma FinishOnKey(sys: System, v: System, a: Action)
    requires Inv(v) && !a.Elapse?
    ensures Finished(sys, v, a).store.now == v.store.now
    ensures KeysReduced(v.store, Finished(sys, v, a).store)
  {
    if a.Login? {
      LoginOnKey(v, a.sid, a.claims, a.c);
    } else if a.Approve? {
      if a.u in v.users { RoleUpdatedIs(v.store, a.u, v.users[a.u].role, false); }
    } else {
      FinishReduces(sys, v, a);
    }
  }

  lemma LoginOnKey(v: System, sid: Sid, claims: Claims, c: Client)
    ensures var t := LoggedIn(v, sid, claims, c); t.store.now == v.store.now && KeysReduced(v.store, t.store)
  {
  }

  /** The key agrees with the last known value, as long as the session is kept. */
  ghost predicate Tracked(st: Store, sid: Sid, login: string, last: Seen, k: Signal) {
    && Tracks(Keys(st, k), sid, login, last, st.now)
    && (sid in Keys(st, k) ==> st.now < Keys(st, k)[sid].expiry)
  }

  lemma ElapseTracks(st: Store, d: nat, sid: Sid, login: string, last: Seen, k: Signal)
    requires Tracked(st, sid, login, last, k)
    ensures Tracked(Tick(st, d), sid, login, last, k)
  {
  }

  lemma SameKeyTracks(st: Store, later: Store, sid: Sid, login: string, last: Seen, k: Signal)
    requires Tracked(st, sid, login, last, k) && later.now == st.now && Key(later, k, sid) == Key(st, k, sid)
    ensures Tracked(later, sid, login, last, k)
  {
  }

  lemma ObservedTracks(st: Store, c: Client, sid: Sid, last: Seen, k: Signal)
    requires sid in Validated(st, sid, c).sessions && sid != ""
    requires Tracked(st, sid, LoginValue(st.sessions[sid].value, k), last, k)
    ensures Tracked(Validated(st, sid, c), sid, LoginValue(st.sessions[sid].value, k),
                    Latest(last, Seen(st.now, Current(c, k))), k)
  {
    VisitOnKey(st, sid, c, k);
  }

  function LatestSeen(sys: System, a: Action, sid: Sid, last: Seen, k: Signal): Seen {
    if IsVisit(sys, a, sid) then Latest(last, Seen(sys.store.now, Current(a.c, k))) else last
  }

  lemma VisitedTracks(sys: System, a: Action, sid: Sid, last: Seen, k: Signal)
    requires sid in sys.store.sessions && sid in Visited(sys, a).store.sessions && sid != ""
    requires Tracked(sys.store, sid, LoginValue(sys.store.sessions[sid].value, k), last, k)
    requires Visited(sys, a).store.now == sys.store.now
    ensures Tracked(Visited(sys, a).store, sid, LoginValue(sys.store.sessions[sid].value, k),
                    LatestSeen(sys, a, sid, last, k), k)
  {
    var w := VisitorOf(sys, a);
    if w == sid {
      VisitOnKey(sys.store, sid, a.c, k);
      ObservedTracks(sys.store, a.c, sid, last, k);
    } else if w != "" {
      VisitOnOtherKey(sys.store, w, a.c, sid, k);
      SameKeyTracks(sys.store, Visited(sys, a).store, sid, LoginValue(sys.store.sessions[sid].value, k), last, k);
    }
  }

  lemma FinishTracks(sys: System, v: System, a: Action, sid: Sid, login: string, last: Seen, k: Signal)
    requires Inv(v) && sid in v.store.sessions && sid in Finished(sys, v, a).store.sessions
    requires Tracked(v.store, sid, login, last, k)
    ensures Tracked(Finished(sys, v, a).store, sid, login, last, k)
  {
    if a.Elapse? {
      ElapseTracks(v.store, a.d, sid, login, last, k);
    } else {
      FinishOnKey(sys, v, a);
      SameKeyTracks(v.store, Finished(sys, v, a).store, sid, login, last, k);
    }
  }

  lemma StepTracks(sys: System, a: Action, sid: Sid, last: Seen, k: Signal)
    requires Inv(sys) && sid in sys.store.sessions && sid in Step(sys, a).store.sessions
    requires Tracked(sys.store, sid, LoginValue(sys.store.sessions[sid].value, k), last, k)
    ensures Tracked(Step(sys, a).store, sid, LoginValue(sys.store.sessions[sid].value, k),
                    LatestSeen(sys, a, sid, last, k), k)
  {
    var v := Visited(sys, a);
    VisitedKeeps(sys, a);
    if sid !in v.store.sessions { FinishSessions(sys, v, a, sid); }
    VisitedTracks(sys, a, sid, last, k);
    FinishTracks(sys, v, a, sid, LoginValue(sys.store.sessions[sid].value, k), LatestSeen(sys, a, sid, last, k), k);
  }

  // ---- runs -----------------------------------------------------------------------------------------

  /** However the actions of others are mixed in: the reports are those of a tracker fed
      with the session's own requests. */
  lemma {:induction false} ChecksFollowVisits(sys: System, actions: seq<Action>, sid: Sid, last: Seen, k: Signal)
    requires Inv(sys) && sid in sys.store.sessions && sid in Run(sys, actions).store.sessions
    requires Tracked(sys.store, sid, LoginValue(sys.store.sessions[sid].value, k), last, k)
    ensures var login := LoginValue(sys.store.sessions[sid].value, k);
            CheckReports(sys, actions, sid, login, k) == Forgetful(login, last, Visits(sys, actions, sid, k))
    decreases |actions|
  {
    if actions != [] {
      var a, t := actions[0], Step(sys, actions[0]);
      var login := LoginValue(sys.store.sessions[sid].value, k);
      StepKeepsInv(sys, a);
      if sid !in t.store.sessions { DeadStaysDead(t, actions[1..], sid); }
      StepSessions(sys, a, sid);
      StepTracks(sys, a, sid, last, k);
      var seen := SeenBy(sys, a, sid, k);
      ChecksFollowVisits(t, actions[1..], sid, if seen == [] then last else Latest(last, seen[0]), k);
      ForgetfulNext(login, last, seen, Visits(t, actions[1..], sid, k));
    }
  }

  lemma ForgetfulNext(login: string, last: Seen, seen: seq<Seen>, rest: seq<Seen>)
    requires |seen| <= 1
    ensures Forgetful(login, last, seen + rest)
         == if seen == [] then Forgetful(login, last, rest)
            else [Report(Remembered(login, last, seen[0].at), seen[0].value)]
                 + Forgetful(login, Latest(last, seen[0]), rest)
  {
    if seen == [] {
      assert seen + rest == rest;
    } else {
      assert (seen + rest)[1..] == rest;
    }
  }

  lemma StepTime(sys: System, a: Action)
    requires Inv(sys)
    ensures Step(sys, a).store.now >= sys.store.now
  {
    VisitedKeeps(sys, a);
    if !a.Elapse? { FinishOnKey(sys, Visited(sys, a), a); }
  }

  lemma OrderedBefore(now: nat, seen: seq<Seen>, later: nat, rest: seq<Seen>)
    requires |seen| <= 1 && (seen != [] ==> seen[0].at == now) && later >= now && Ordered(later, rest)
    ensures Ordered(now, seen + rest)
  {
  }

  lemma {:induction false} VisitsInOrder(sys: System, actions: seq<Action>, sid: Sid, k: Signal)
    requires Inv(sys)
    ensures Ordered(sys.store.now, Visits(sys, actions, sid, k))
    decreases |actions|
  {
    if actions != [] {
      var t := Step(sys, actions[0]);
      StepTime(sys, actions[0]);
      StepKeepsInv(sys, actions[0]);
      VisitsInOrder(t, actions[1..], sid, k);
      OrderedBefore(sys.store.now, SeenBy(sys, actions[0], sid, k), t.store.now, Visits(t, actions[1..], sid, k));
    }
  }

  // ---- sessions from their login on -------------------------------------------------------------------

  /** Every key belongs to an id that was handed out. */
  ghost predicate NoStrayKeys(sys: System) {
    sys.store.countries.Keys + sys.store.devices.Keys <= sys.history.issued
  }

  lemma VisitAddsNoStray(sys: System, a: Action)
    requires Inv(sys) && NoStrayKeys(sys)
    ensures NoStrayKeys(Visited(sys, a))
  {
    var w := VisitorOf(sys, a);
    if w in sys.store.sessions { UnindexedIs(Killed(sys.store, {w}), Owner(sys.store, w), {w}); }
  }

  lemma {:induction false} RunAddsNoStray(sys: System, actions: seq<Action>)
    requires Inv(sys) && NoStrayKeys(sys)
    ensures NoStrayKeys(Run(sys, actions))
    decreases |actions|
  {
    if actions != [] {
      VisitAddsNoStray(sys, actions[0]);
      VisitedKeeps(sys, actions[0]);
      FinishKeepsInv(sys, Visited(sys, actions[0]), actions[0]);
      if !actions[0].Elapse? { FinishOnKey(sys, Visited(sys, actions[0]), actions[0]); }
      RunAddsNoStray(Step(sys, actions[0]), actions[1..]);
    }
  }

  /** The state right after the login of `sid` in some run from the empty system. */
  function AfterLogin(before: seq<Action>, sid: Sid, claims: Claims, c: Client): System {
    Step(Run(START, before), Login(sid, claims, c))
  }

  lemma LoginIsTracked(before: seq<Action>, sid: Sid, claims: Claims, c: Client, k: Signal)
    requires LoginPasses(Run(START, before), sid, claims)
    ensures var t := AfterLogin(before, sid, claims, c);
            && Inv(t) && sid in t.store.sessions && LoginValue(t.store.sessions[sid].value, k) == Current(c, k)
            && Tracked(t.store, sid, Current(c, k), Seen(t.store.now, Current(c, k)), k)
  {
    var s := Run(START, before);
    StartIsFine();
    RunKeepsInv(START, before);
    RunAddsNoStray(START, before);
    LoginKeeps(s, sid, claims, c);
    assert sid !in Keys(s.store, k);
  }

  lemma ReportsFromLogin(before: seq<Action>, sid: Sid, claims: Claims, c: Client, actions: seq<Action>, k: Signal)
    requires LoginPasses(Run(START, before), sid, claims)
    requires sid in Run(AfterLogin(before, sid, claims, c), actions).store.sessions
    ensures var t, login := AfterLogin(before, sid, claims, c), Current(c, k);
            CheckReports(t, actions, sid, login, k) == Reports(map[], sid, login, Visits(t, actions, sid, k))
  {
    var t, login := AfterLogin(before, sid, claims, c), Current(c, k);
    LoginIsTracked(before, sid, claims, c, k);
    ChecksFollowVisits(t, actions, sid, Seen(t.store.now, login), k);
    VisitsInOrder(t, actions, sid, k);
    ReportsAreForgetful(map[], sid, login, Seen(t.store.now, login), Visits(t, actions, sid, k), t.store.now);
  }

  /** A session that is opened in any reachable state and lives on, with anything else going
      on: its reports are those of the tracker that never forgets if and only if every
      request that finds the baseline expired is harmless. */
  lemma SessionIsTrackerIff(before: seq<Action>, sid: Sid, claims: Claims, c: Client, actions: seq<Action>, k: Signal)
    requires LoginPasses(Run(START, before), sid, claims)
    requires sid in Run(AfterLogin(before, sid, claims, c), actions).store.sessions
    ensures var t, login := AfterLogin(before, sid, claims, c), Current(c, k);
            var visits := Visits(t, actions, sid, k);
            CheckReports(t, actions, sid, login, k) == Tracker(login, visits)
            <==> forall i | 0 <= i < |visits| :: Harmless(login, Seen(t.store.now, login), visits, i)
  {
    var t, login := AfterLogin(before, sid, claims, c), Current(c, k);
    ReportsFromLogin(before, sid, claims, c, actions, k);
    LoginIsTracked(before, sid, claims, c, k);
    VisitsInOrder(t, actions, sid, k);
    StoreIsTrackerIff(map[], sid, login, t.store.now, Visits(t, actions, sid, k));
  }

  /** And if its requests name a country (a device) often enough, exactly the changes are
      raised, each one once. */
  lemma SessionAnomaliesAreChanges(before: seq<Action>, sid: Sid, claims: Claims, c: Client,
                                   actions: seq<Action>, k: Signal)
    requires LoginPasses(Run(START, before), sid, claims)
    requires sid in Run(AfterLogin(before, sid, claims, c), actions).store.sessions
    requires var t := AfterLogin(before, sid, claims, c);
             Steady(Seen(t.store.now, Current(c, k)), Visits(t, actions, sid, k))
    ensures var t, login := AfterLogin(before, sid, claims, c), Current(c, k);
            Raised(CheckReports(t, actions, sid, login, k))
            == Changes(Known([login] + Values(Visits(t, actions, sid, k))))
  {
    var t, login := AfterLogin(before, sid, claims, c), Current(c, k);
    ReportsFromLogin(before, sid, claims, c, actions, k);
    LoginIsTracked(before, sid, claims, c, k);
    VisitsInOrder(t, actions, sid, k);
    SteadyRunRaisesChanges(map[], sid, login, t.store.now, Visits(t, actions, sid, k));
  }
}
