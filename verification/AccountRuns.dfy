/** Properties of every run of logins, requests, admin actions and clock steps. */
module AccountRuns {
  import opened Wrappers
  import opened SessionStore
  import opened SessionFacts
  import opened Accounts

  const SESSION_KEY_MAX_AGE: nat := 31 * 86400

  // ---- the invariant -----------------------------------------------------------------------

  ghost predicate Timed(st: Store, h: History) {
    forall sid | sid in st.sessions ::
      && sid in h.touched && st.sessions[sid].expiry == h.touched[sid] + SESSION_TTL
      && (sid !in h.reroled ==> st.sessions[sid].expiry <= st.sessions[sid].value.createdAt + SESSION_KEY_MAX_AGE)
  }

  ghost predicate Inv(sys: System) {
    && Sound(sys.store, sys.history.issued)
    && Timed(sys.store, sys.history)
    && (forall u | u in sys.users :: sys.users[u].role != ROLE_PENDING)
  }

  /** Whoever holds a session with a real role is an approved, unlocked user. */
  ghost predicate Privileged(st: Store, users: map<Subject, User>) {
    forall sid | sid in st.sessions && st.sessions[sid].value.role != ROLE_PENDING ::
      GoodStanding(users, Owner(st, sid))
  }

  predicate GoodStanding(users: map<Subject, User>, u: Subject) {
    u in users && users[u].approved && !users[u].locked
  }

  lemma CalmKeepsPrivileged(st: Store, later: Store, users: map<Subject, User>)
    requires Calm(st, later) && Privileged(st, users)
    ensures Privileged(later, users)
  {
  }

  lemma ReductionKeepsTimed(st: Store, later: Store, h: History)
    requires Timed(st, h) && Reduced(st, later)
    ensures Timed(later, h)
  {
  }

  lemma VisitKeeps(sys: System, sid: Sid, c: Client)
    requires Inv(sys)
    ensures var v := Visit(sys, sid, c);
            && Inv(v) && Keeps(sys.store, sys.history.issued, v.store) && v.users == sys.users
            && v.history.issued == sys.history.issued && v.history.reroled == sys.history.reroled
            && v.store.now == sys.store.now
  {
    ValidateKeeps(sys.store, sys.history.issued, sid, c);
    if !Validates(sys.store, sid) {
      if sid in sys.store.sessions { KillReduces(sys.store, {sid}, Owner(sys.store, sid)); }
      ReductionKeepsTimed(sys.store, Validated(sys.store, sid, c), sys.history);
    }
  }

  lemma VisitedKeeps(sys: System, a: Action)
    requires Inv(sys)
    ensures var v := Visited(sys, a);
            && Inv(v) && Keeps(sys.store, sys.history.issued, v.store) && v.users == sys.users
            && v.history.issued == sys.history.issued && v.history.reroled == sys.history.reroled
            && v.store.now == sys.store.now
  {
    if VisitorOf(sys, a) != "" { VisitKeeps(sys, VisitorOf(sys, a), a.c); }
  }

  /** The actions after which a session can be new, of another role or expired. */
  predicate Growing(a: Action) {
    a.Elapse? || a.Login? || a.Approve?
  }

  /** The actions that revoke a user and take the row out of good standing. */
  predicate Removing(a: Action) {
    a.Lock? || a.Delete? || a.DeleteSelf?
  }

  /** The actions that end sessions of the caller's choice or of a whole user. */
  predicate Revoking(a: Action) {
    Removing(a) || a.EndSession? || a.EndOwn?
  }

  lemma RevokingReduces(sys: System, v: System, a: Action)
    requires Revoking(a)
    ensures Reduced(v.store, Finished(sys, v, a).store) && Finished(sys, v, a).history == v.history
  {
    match a {
      case Lock(_, _, u) => RevokeUserReduces(v.store, u);
      case Delete(_, _, u) => RevokeUserReduces(v.store, u);
      case DeleteSelf(who, _) =>
        if MayDeleteSelf(sys, who) { RevokeUserReduces(v.store, Caller(sys, who).value.userId); }
      case EndSession(_, _, id) => RevokeByIdReduces(v.store, id);
      case EndOwn(who, _, id) =>
        if Caller(sys, who).Some? { OwnRevokeReduces(v.store, Caller(sys, who).value.userId, id); }
    }
  }

  /** All other actions only take sessions and index members away, after the visit. */
  lemma FinishReduces(sys: System, v: System, a: Action)
    requires Inv(v) && !Growing(a)
    ensures Reduced(v.store, Finished(sys, v, a).store) && Finished(sys, v, a).history == v.history
  {
    if Revoking(a) {
      RevokingReduces(sys, v, a);
    } else {
      match a {
        case Logout(who, _) => LogoutReduces(v.store, who);
        case ListOwn(who, _) =>
          if Caller(sys, who).Some? { CleanReduces(v.store, Caller(sys, who).value.userId); }
        case Revalidate(sid, verdict) => RevalidateReduces(v.store, v.history.issued, sid, verdict);
        case Mint(who, _, token, name) => MintReduces(v.store, token, name, who);
        case _ =>
      }
    }
  }

  lemma FinishKeepsRoles(sys: System, v: System, a: Action)
    requires Inv(v) && !Growing(a)
    ensures var t := Finished(sys, v, a); forall u | u in t.users :: t.users[u].role != ROLE_PENDING
  {
  }

  // ---- login, approval, locking -----------------------------------------------------------

  lemma LoginSessions(v: System, sid: Sid, claims: Claims, c: Client)
    ensures var t := LoggedIn(v, sid, claims, c);
            && t.store.sessions == v.store.sessions[sid := Entry(LoginSession(v, claims, c), v.store.now + SESSION_TTL)]
            && t.history.issued == v.history.issued + {sid} && t.history.reroled == v.history.reroled
            && sid in t.history.touched && t.history.touched[sid] == v.store.now
            && (forall m | m != sid && m in v.history.touched ::
                  m in t.history.touched && t.history.touched[m] == v.history.touched[m])
  {
    if v.store.now == 0 { assert LoginSession(v, claims, c).(createdAt := v.store.now) == LoginSession(v, claims, c); }
  }

  lemma LoginIsTimed(v: System, sid: Sid, claims: Claims, c: Client)
    requires Timed(v.store, v.history)
    ensures Timed(LoggedIn(v, sid, claims, c).store, LoggedIn(v, sid, claims, c).history)
  {
    LoginSessions(v, sid, claims, c);
  }

  lemma LoginStore(v: System, sid: Sid, claims: Claims, c: Client)
    requires Sound(v.store, v.history.issued) && LoginPasses(v, sid, claims)
    ensures var t := LoggedIn(v, sid, claims, c);
            && Sound(t.store, t.history.issued) && (forall u | Covered(v.store, u) :: Covered(t.store, u))
  {
    CreateKeeps(v.store, v.history.issued, sid, LoginSession(v, claims, c));
  }

  lemma LoginKeeps(v: System, sid: Sid, claims: Claims, c: Client)
    requires Inv(v) && LoginPasses(v, sid, claims)
    ensures var t := LoggedIn(v, sid, claims, c);
            && Inv(t) && (forall u | Covered(v.store, u) :: Covered(t.store, u))
            && t.store.sessions == v.store.sessions[sid := Entry(LoginSession(v, claims, c), v.store.now + SESSION_TTL)]
  {
    LoginStore(v, sid, claims, c);
    LoginSessions(v, sid, claims, c);
    LoginIsTimed(v, sid, claims, c);
  }

  lemma ApproveKeepsInv(v: System, u: Subject)
    requires Inv(v) && u in v.users
    ensures var t := Approved(v, u);
            && Inv(t)
            && (forall w | w != u && Covered(v.store, w) :: Covered(t.store, w))
            && (Indexed(v.store, u) ==> Indexed(t.store, u))
            && (LiveMembers(v.store, u) == {} && Covered(v.store, u) ==> Covered(t.store, u))
  {
    UpdateRoleKeeps(v.store, v.history.issued, u, v.users[u].role, false);
    RoleUpdatedIs(v.store, u, v.users[u].role, false);
    var t := Approved(v, u);
    if LiveMembers(v.store, u) == {} && Covered(v.store, u) {
      assert forall sid | sid in v.store.sessions && Owner(v.store, sid) == u :: sid in LiveMembers(v.store, u);
    }
  }

  lemma FinishKeepsInv(sys: System, v: System, a: Action)
    requires Inv(v)
    ensures Inv(Finished(sys, v, a)) && v.history.issued <= Finished(sys, v, a).history.issued
  {
    if Growing(a) {
      match a {
        case Elapse(d) => TickKeepsInv(v, d);
        case Login(sid, claims, c) => if LoginPasses(v, sid, claims) { LoginKeeps(v, sid, claims, c); }
        case Approve(_, _, u) => if u in v.users { ApproveKeepsInv(v, u); }
      }
    } else {
      FinishReduces(sys, v, a);
      FinishKeepsRoles(sys, v, a);
      ReducedIsInv(v, Finished(sys, v, a));
    }
  }

  lemma ReducedIsInv(v: System, t: System)
    requires Inv(v) && Reduced(v.store, t.store) && t.history == v.history
    requires forall u | u in t.users :: t.users[u].role != ROLE_PENDING
    ensures Inv(t)
  {
    ReductionKeeps(v.store, v.history.issued, t.store);
    ReductionKeepsTimed(v.store, t.store, v.history);
  }

  lemma TickKeepsInv(v: System, d: nat)
    requires Inv(v)
    ensures Inv(v.(store := Tick(v.store, d)))
  {
    TickKeeps(v.store, v.history.issued, d);
  }

  lemma StepKeepsInv(sys: System, a: Action)
    requires Inv(sys)
    ensures Inv(Step(sys, a))
    ensures sys.history.issued <= Step(sys, a).history.issued
  {
    VisitedKeeps(sys, a);
    FinishKeepsInv(sys, Visited(sys, a), a);
  }

  lemma {:induction false} RunKeepsInv(sys: System, actions: seq<Action>)
    requires Inv(sys)
    ensures Inv(Run(sys, actions))
    decreases |actions|
  {
    if actions != [] {
      StepKeepsInv(sys, actions[0]);
      RunKeepsInv(Step(sys, actions[0]), actions[1..]);
    }
  }

  // ---- privilege implies approval -----------------------------------------------------------

  /** The user's sessions with a real role are all in the index. */
  ghost predicate RolesIndexed(st: Store, u: Subject) {
    forall sid | sid in st.sessions && Owner(st, sid) == u && st.sessions[sid].value.role != ROLE_PENDING ::
      sid in Members(st, u)
  }

  /** What has to hold when the request arrives (after its visit) for privilege to stay
      tied to approval. Only a login, an approval, a lock and a deletion can break it. */
  ghost predicate Careful(sys: System, a: Action) {
    CarefulAt(sys, Visited(sys, a), a)
  }

  ghost predicate CarefulAt(sys: System, v: System, a: Action) {
    match a
    case Login(sid, claims, _) =>
      LoginPasses(v, sid, claims) ==>
        WizardComplete(v.users) || claims.subject !in v.users || GoodStanding(v.users, claims.subject)
    case Approve(who, _, u) =>
      ManagesUsers(sys, who) && u != "" && u in v.users ==> !v.users[u].locked || LiveMembers(v.store, u) == {}
    case Lock(who, _, u) => MayRemove(sys, who, u) ==> RolesIndexed(v.store, u)
    case Delete(who, _, u) => MayRemove(sys, who, u) ==> RolesIndexed(v.store, u)
    case DeleteSelf(who, _) => MayDeleteSelf(sys, who) ==> RolesIndexed(v.store, Caller(sys, who).value.userId)
    case _ => true
  }

  lemma LoginPrivilegedIff(v: System, sid: Sid, claims: Claims, c: Client)
    requires Inv(v) && LoginPasses(v, sid, claims) && Privileged(v.store, v.users)
    ensures var t := LoggedIn(v, sid, claims, c);
            Privileged(t.store, t.users) <==>
            WizardComplete(v.users) || claims.subject !in v.users || GoodStanding(v.users, claims.subject)
  {
    LoginKeeps(v, sid, claims, c);
    var t := LoggedIn(v, sid, claims, c);
    var s := LoginSession(v, claims, c);
    assert t.store.sessions[sid].value == s && sid !in v.store.sessions;
    assert forall u | u != claims.subject :: GoodStanding(t.users, u) == GoodStanding(v.users, u);
    assert claims.subject in v.users ==> GoodStanding(t.users, claims.subject) == GoodStanding(v.users, claims.subject);
    if s.role == ROLE_PENDING || GoodStanding(t.users, claims.subject) {
      forall m | m in t.store.sessions && t.store.sessions[m].value.role != ROLE_PENDING
        ensures GoodStanding(t.users, Owner(t.store, m))
      {
        if m != sid { assert t.store.sessions[m] == v.store.sessions[m]; }
      }
      assert Privileged(t.store, t.users);
    } else {
      assert !GoodStanding(t.users, Owner(t.store, sid));
      assert !Privileged(t.store, t.users);
    }
  }

  lemma ApprovePrivilegedIff(v: System, u: Subject)
    requires Inv(v) && u in v.users && Privileged(v.store, v.users)
    ensures var t := Approved(v, u);
            Privileged(t.store, t.users) <==> !v.users[u].locked || LiveMembers(v.store, u) == {}
  {
    var t := Approved(v, u);
    RoleUpdatedIs(v.store, u, v.users[u].role, false);
    if v.users[u].locked && LiveMembers(v.store, u) != {} {
      var sid :| sid in LiveMembers(v.store, u);
      assert sid in Members(v.store, u) && Owner(v.store, sid) == u;
      assert t.store.sessions[sid].value.role == v.users[u].role && Owner(t.store, sid) == u;
    } else {
      forall m | m in t.store.sessions && t.store.sessions[m].value.role != ROLE_PENDING
        ensures GoodStanding(t.users, Owner(t.store, m))
      {
        if m in Members(v.store, u) {
          assert m in LiveMembers(v.store, u) && Owner(t.store, m) == u;
        }
      }
    }
  }

  /** Locking or deleting a row is safe exactly when revocation finds every session of it
      that has a real role. */
  lemma RemovePrivilegedIff(v: System, u: Subject, users: map<Subject, User>)
    requires Inv(v) && Privileged(v.store, v.users)
    requires !GoodStanding(users, u) && forall w | w != u :: GoodStanding(users, w) == GoodStanding(v.users, w)
    ensures Privileged(UserRevoked(v.store, u), users) <==> RolesIndexed(v.store, u)
  {
    var later := UserRevoked(v.store, u);
    KilledIs(v.store, Members(v.store, u));
    if Privileged(later, users) {
      forall sid | sid in v.store.sessions && Owner(v.store, sid) == u
                   && v.store.sessions[sid].value.role != ROLE_PENDING
        ensures sid in Members(v.store, u)
      {
        assert sid in later.sessions ==> Owner(later, sid) == u;
      }
    }
    if RolesIndexed(v.store, u) {
      forall sid | sid in later.sessions && later.sessions[sid].value.role != ROLE_PENDING
        ensures GoodStanding(users, Owner(later, sid))
      {
        assert sid in v.store.sessions && sid !in Members(v.store, u);
        assert Owner(later, sid) != u;
      }
    }
  }

  lemma FinishPrivilegedIff(sys: System, v: System, a: Action)
    requires Inv(v) && Privileged(v.store, v.users) && v.users == sys.users
    ensures var t := Finished(sys, v, a); Privileged(t.store, t.users) <==> CarefulAt(sys, v, a)
  {
    if Growing(a) {
      match a {
        case Elapse(d) =>
          TickKeeps(v.store, v.history.issued, d);
          CalmKeepsPrivileged(v.store, Tick(v.store, d), v.users);
        case Login(sid, claims, c) => if LoginPasses(v, sid, claims) { LoginPrivilegedIff(v, sid, claims, c); }
        case Approve(who, _, u) =>
          if ManagesUsers(sys, who) && u != "" && u in v.users { ApprovePrivilegedIff(v, u); }
      }
    } else if Removing(a) {
      FinishRemoves(sys, v, a);
    } else {
      FinishReduces(sys, v, a);
      FinishKeepsStanding(sys, v, a);
      StandingKeepsPrivileged(v.store, v.users, Finished(sys, v, a).store, Finished(sys, v, a).users);
    }
  }

  lemma FinishRemoves(sys: System, v: System, a: Action)
    requires Inv(v) && Privileged(v.store, v.users) && v.users == sys.users && Removing(a)
    ensures var t := Finished(sys, v, a); Privileged(t.store, t.users) <==> CarefulAt(sys, v, a)
  {
    var users := Finished(sys, v, a).users;
    match a {
      case Lock(who, _, u) => if MayRemove(sys, who, u) { RemovePrivilegedIff(v, u, users); }
      case Delete(who, _, u) => if MayRemove(sys, who, u) { RemovePrivilegedIff(v, u, users); }
      case DeleteSelf(who, _) =>
        if MayDeleteSelf(sys, who) { RemovePrivilegedIff(v, Caller(sys, who).value.userId, users); }
    }
  }

  lemma FinishKeepsStanding(sys: System, v: System, a: Action)
    requires !Growing(a) && !Removing(a)
    ensures forall u | GoodStanding(v.users, u) :: GoodStanding(Finished(sys, v, a).users, u)
  {
  }

  lemma StandingKeepsPrivileged(st: Store, users: map<Subject, User>, later: Store, after: map<Subject, User>)
    requires Privileged(st, users) && Reduced(st, later)
    requires forall u | GoodStanding(users, u) :: GoodStanding(after, u)
    ensures Privileged(later, after)
  {
  }

  /** One request keeps privilege tied to approval exactly when it is careful. */
  lemma StepPrivilegedIff(sys: System, a: Action)
    requires Inv(sys) && Privileged(sys.store, sys.users)
    ensures Privileged(Step(sys, a).store, Step(sys, a).users) <==> Careful(sys, a)
  {
    var v := Visited(sys, a);
    VisitedKeeps(sys, a);
    CalmKeepsPrivileged(sys.store, v.store, sys.users);
    FinishPrivilegedIff(sys, v, a);
  }

  ghost predicate CarefulRun(sys: System, actions: seq<Action>)
    decreases |actions|
  {
    actions == [] || (Careful(sys, actions[0]) && CarefulRun(Step(sys, actions[0]), actions[1..]))
  }

  /** Privilege is tied to approval in the state after every prefix of the run. */
  ghost predicate AlwaysPrivileged(sys: System, actions: seq<Action>)
    decreases |actions|
  {
    && Privileged(sys.store, sys.users)
    && (actions == [] || AlwaysPrivileged(Step(sys, actions[0]), actions[1..]))
  }

  /** In every run from the empty system, all live sessions with a real role belong to
      approved, unlocked users throughout, if and only if every request was careful. */
  lemma {:induction false} RunPrivilegedIff(sys: System, actions: seq<Action>)
    requires Inv(sys) && Privileged(sys.store, sys.users)
    ensures AlwaysPrivileged(sys, actions) <==> CarefulRun(sys, actions)
    decreases |actions|
  {
    if actions != [] {
      var t := Step(sys, actions[0]);
      StepPrivilegedIff(sys, actions[0]);
      StepKeepsInv(sys, actions[0]);
      if Privileged(t.store, t.users) {
        RunPrivilegedIff(t, actions[1..]);
      }
    }
  }

  lemma StartIsFine()
    ensures Inv(START) && Privileged(START.store, START.users)
    ensures forall u :: Covered(START.store, u)
  {
  }

  // ---- full coverage --------------------------------------------------------------------------

  ghost predicate AllCovered(sys: System) {
    forall u :: Covered(sys.store, u)
  }

  lemma FinishKeepsCoverage(sys: System, v: System, a: Action)
    requires Inv(v) && forall u :: Covered(v.store, u)
    requires a.Approve? ==> LiveMembers(v.store, a.u) == {}
    ensures forall u :: Covered(Finished(sys, v, a).store, u)
  {
    if Growing(a) {
      match a {
        case Elapse(d) => TickKeeps(v.store, v.history.issued, d);
        case Login(sid, claims, c) => if LoginPasses(v, sid, claims) { LoginStore(v, sid, claims, c); }
        case Approve(_, _, u) => if u in v.users { ApproveKeepsInv(v, u); }
      }
    } else {
      FinishReduces(sys, v, a);
      ReductionKeeps(v.store, v.history.issued, Finished(sys, v, a).store);
    }
  }

  /** Only the approval of a live session can let an index end before a session. */
  lemma StepKeepsCoverage(sys: System, a: Action)
    requires Inv(sys) && AllCovered(sys)
    requires a.Approve? ==> LiveMembers(Visited(sys, a).store, a.u) == {}
    ensures AllCovered(Step(sys, a))
  {
    VisitedKeeps(sys, a);
    FinishKeepsCoverage(sys, Visited(sys, a), a);
  }

  // ---- dead stays dead ------------------------------------------------------------------------

  ghost predicate SameOrigin(st: Store, later: Store, sid: Sid)
    requires sid in st.sessions && sid in later.sessions
  {
    var s, t := st.sessions[sid].value, later.sessions[sid].value;
    s.userId == t.userId && s.createdAt == t.createdAt && s.country == t.country && s.userAgent == t.userAgent
  }

  lemma FinishSessions(sys: System, v: System, a: Action, sid: Sid)
    requires Inv(v) && sid in Finished(sys, v, a).store.sessions
    ensures sid in v.store.sessions ==> SameOrigin(v.store, Finished(sys, v, a).store, sid)
    ensures sid !in v.store.sessions ==> sid !in v.history.issued
  {
    if Growing(a) {
      match a {
        case Login(id, claims, c) => if LoginPasses(v, id, claims) { LoginSessions(v, id, claims, c); }
        case Approve(_, _, u) => if u in v.users { RoleUpdatedIs(v.store, u, v.users[u].role, false); }
        case Elapse(_) =>
      }
    } else {
      FinishReduces(sys, v, a);
    }
  }

  /** A request adds at most the one session it issues, and no session ever changes its
      owner, its creation time or where it was opened. */
  lemma StepSessions(sys: System, a: Action, sid: Sid)
    requires Inv(sys) && sid in Step(sys, a).store.sessions
    ensures sid in sys.store.sessions ==> SameOrigin(sys.store, Step(sys, a).store, sid)
    ensures sid !in sys.store.sessions ==> sid !in sys.history.issued
  {
    VisitedKeeps(sys, a);
    FinishSessions(sys, Visited(sys, a), a, sid);
  }

  /** Once the key of an issued session is gone, for whatever reason, the id never
      validates again: not directly and not through any module token. */
  lemma {:induction false} DeadStaysDead(sys: System, actions: seq<Action>, sid: Sid)
    requires Inv(sys) && sid in sys.history.issued && sid !in sys.store.sessions
    ensures var t := Run(sys, actions);
            && sid !in t.store.sessions && !Validates(t.store, sid)
            && forall token, name :: ModuleSid(t.store, token, name) == sid ==>
                 !Validates(t.store, ModuleSid(t.store, token, name))
    decreases |actions|
  {
    if actions != [] {
      var t := Step(sys, actions[0]);
      StepKeepsInv(sys, actions[0]);
      if sid in t.store.sessions { StepSessions(sys, actions[0], sid); }
      DeadStaysDead(t, actions[1..], sid);
    }
  }

  // ---- lifetimes --------------------------------------------------------------------------------

  /** The creation time of a session that survives a run is the one it started with. */
  lemma {:induction false} CreationTimeIsFixed(sys: System, actions: seq<Action>, sid: Sid)
    requires Inv(sys) && sid in sys.store.sessions && sid in Run(sys, actions).store.sessions
    ensures Run(sys, actions).store.sessions[sid].value.createdAt == sys.store.sessions[sid].value.createdAt
    decreases |actions|
  {
    if actions != [] {
      var t := Step(sys, actions[0]);
      StepKeepsInv(sys, actions[0]);
      if sid !in t.store.sessions { DeadStaysDead(t, actions[1..], sid); }
      StepSessions(sys, actions[0], sid);
      CreationTimeIsFixed(t, actions[1..], sid);
    }
  }

  /** In every reachable state: a session validates only within 30 days of its creation;
      the age shown as last activity is the time since the session was last created,
      validated or given a role; and without a role update its key is gone 31 days
      after its creation. */
  lemma Lifetimes(actions: seq<Action>, sid: Sid)
    requires sid in Run(START, actions).store.sessions
    ensures var t := Run(START, actions);
            var s := t.store.sessions[sid].value;
            && (Validates(t.store, sid) <==> t.store.now - s.createdAt <= SESSION_ABSOLUTE_MAX_AGE)
            && sid in t.history.touched
            && Shown(t.store, sid).lastActiveAgo == t.store.now - t.history.touched[sid]
            && (sid !in t.history.reroled ==> t.store.now < s.createdAt + SESSION_KEY_MAX_AGE)
  {
    StartIsFine();
    RunKeepsInv(START, actions);
  }
}
