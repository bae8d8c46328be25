/** What each request does, told from the stored keys and rows alone: who may, what is
    there afterwards, and that nothing else changes. */
module AccountEffects {
  import opened Wrappers
  import opened SessionStore
  import opened SessionFacts
  import opened Accounts
  import opened AccountRuns

  // ---- reading the state ------------------------------------------------------------------

  function Find<K, V>(m: map<K, V>, k: K): Option<V> {
    if k in m then Some(m[k]) else None
  }

  ghost predicate SameAt(st: Store, later: Store, sid: Sid) {
    && Find(later.sessions, sid) == Find(st.sessions, sid)
    && Find(later.countries, sid) == Find(st.countries, sid)
    && Find(later.devices, sid) == Find(st.devices, sid)
  }

  /** The keys of all other sessions are as they were. */
  ghost predicate OnlyTouched(st: Store, later: Store, sids: set<Sid>) {
    forall sid | sid !in sids :: SameAt(st, later, sid)
  }

  /** Neither session key nor baselines, and in nobody's index. */
  ghost predicate Gone(st: Store, sid: Sid) {
    && sid !in st.sessions && sid !in st.countries && sid !in st.devices
    && forall u | u in st.index :: sid !in st.index[u].value
  }

  ghost predicate SameIndex(st: Store, later: Store, u: Subject) {
    Find(later.index, u) == Find(st.index, u)
  }

  /** A session that a request with it finds in order: 30 days old at most. */
  predicate Good(sys: System, who: Sid) {
    && who in sys.store.sessions
    && sys.store.now <= sys.store.sessions[who].value.createdAt + 2592000
  }

  /** An administrator whose login is at most 15 minutes ago. */
  predicate RecentAdmin(sys: System, who: Sid) {
    && who in sys.store.sessions
    && sys.store.sessions[who].value.role == "admin"
    && sys.store.now <= sys.store.sessions[who].value.createdAt + 900
  }

  /** Another row than `u` has the admin role. */
  predicate OtherAdmin(users: map<Subject, User>, u: Subject) {
    exists w :: w in users && w != u && users[w].role == "admin"
  }

  predicate SomeAdmin(users: map<Subject, User>) {
    exists w :: w in users && users[w].role == "admin"
  }

  // ---- the visit ------------------------------------------------------------------------------

  /** What the visit of `who` leaves: a good session and its owner's index live another
      day, one that is over age is gone; nobody else is touched. */
  ghost predicate VisitDone(sys: System, who: Sid, v: System) {
    && v.users == sys.users && v.store.now == sys.store.now
    && v.store.moduleTokens == sys.store.moduleTokens
    && OnlyTouched(sys.store, v.store, {who})
    && (who !in sys.store.sessions ==> v.store == sys.store)
    && (who in sys.store.sessions ==>
          var s := sys.store.sessions[who].value;
          && (forall u | u != s.userId :: SameIndex(sys.store, v.store, u))
          && (Good(sys, who) ==>
                && Find(v.store.sessions, who) == Some(Entry(s, sys.store.now + 86400))
                && Find(v.store.index, s.userId)
                   == (if s.userId in sys.store.index
                       then Some(Entry(sys.store.index[s.userId].value, sys.store.now + 86400)) else None))
          && (!Good(sys, who) ==> Gone(v.store, who)))
  }

  lemma VisitIs(sys: System, who: Sid, c: Client)
    requires Inv(sys)
    ensures VisitDone(sys, who, Visit(sys, who, c))
  {
    if who in sys.store.sessions {
      if Good(sys, who) {
        SlideIs(sys, who, c);
      } else {
        KillIs(sys.store, sys.history.issued, who);
      }
    }
  }

  lemma SlideIs(sys: System, who: Sid, c: Client)
    requires Inv(sys) && Good(sys, who)
    ensures VisitDone(sys, who, Visit(sys, who, c))
  {
  }

  /** Killing a session and taking it out of its owner's index. */
  lemma KillIs(st: Store, issued: set<Sid>, sid: Sid)
    requires Sound(st, issued) && sid in st.sessions
    ensures var later := Unindexed(Killed(st, {sid}), Owner(st, sid), {sid});
            && Gone(later, sid) && OnlyTouched(st, later, {sid})
            && later.now == st.now && later.moduleTokens == st.moduleTokens
            && (forall u | u != Owner(st, sid) :: SameIndex(st, later, u))
  {
    var killed, owner := Killed(st, {sid}), Owner(st, sid);
    var later := Unindexed(killed, owner, {sid});
    UnindexedIs(killed, owner, {sid});
    forall u | u in later.index ensures sid !in later.index[u].value {
      assert sid in Members(later, u) ==> sid in Members(st, u);
    }
  }

  /** The visitor of an action that names one. */
  lemma VisitedIs(sys: System, a: Action)
    requires Inv(sys) && VisitorOf(sys, a) != ""
    ensures VisitDone(sys, VisitorOf(sys, a), Visited(sys, a)) && Inv(Visited(sys, a))
  {
    VisitIs(sys, VisitorOf(sys, a), a.c);
    VisitedKeeps(sys, a);
  }

  /** A request without a session or of no special kind is its visit. */
  lemma RequestDoes(sys: System, who: Sid, c: Client)
    requires Inv(sys)
    ensures VisitDone(sys, who, Step(sys, Request(who, c)))
  {
    if who != "" { VisitedIs(sys, Request(who, c)); }
  }

  lemma OnlyTouchedBoth(st: Store, mid: Store, later: Store, a: set<Sid>, b: set<Sid>)
    requires OnlyTouched(st, mid, a) && OnlyTouched(mid, later, b)
    ensures OnlyTouched(st, later, a + b)
  {
    forall sid | sid !in a + b ensures SameAt(st, later, sid) {
      assert SameAt(st, mid, sid) && SameAt(mid, later, sid);
    }
  }

  // ---- logout and revalidation ----------------------------------------------------------------------

  /** A logout removes the session's key and both baselines; nobody else's session and no
      row changes. */
  lemma LogoutDoes(sys: System, who: Sid, c: Client)
    requires Inv(sys)
    ensures var t := Step(sys, Logout(who, c));
            && t.users == sys.users && t.store.moduleTokens == sys.store.moduleTokens
            && OnlyTouched(sys.store, t.store, {who})
            && (who == "" ==> t == sys)
            && (who != "" ==> who !in t.store.sessions && who !in t.store.countries && who !in t.store.devices)
  {
    if who != "" { VisitedIs(sys, Logout(who, c)); }
  }

  /** And whatever comes afterwards, a session that was logged out never validates again. */
  lemma LoggedOutForGood(sys: System, who: Sid, c: Client, actions: seq<Action>)
    requires Inv(sys) && who in sys.store.sessions
    ensures var t := Run(Step(sys, Logout(who, c)), actions);
            who !in t.store.sessions && !Validates(t.store, who)
  {
    LogoutDoes(sys, who, c);
    StepKeepsInv(sys, Logout(who, c));
    DeadStaysDead(Step(sys, Logout(who, c)), actions, who);
  }

  /** The IdP rejects the refresh token or knows it as somebody else's. */
  predicate Disowned(s: Session, v: Verdict) {
    match v
    case Refused => true
    case Honoured(subject, _, _) => subject != "" && subject != s.userId
  }

  /** A session with a refresh token that the IdP disowns is gone, with its baselines and
      its place in the index; one that it honours carries the new claims and lives exactly
      as long as before. Nobody else is touched, and without a refresh token nothing is. */
  lemma RevalidateDoes(sys: System, sid: Sid, v: Verdict)
    requires Inv(sys)
    ensures var t := Step(sys, Revalidate(sid, v));
            && t.users == sys.users && t.store.moduleTokens == sys.store.moduleTokens
            && OnlyTouched(sys.store, t.store, {sid})
            && (sid !in sys.store.sessions || sys.store.sessions[sid].value.refreshToken == "" ==> t == sys)
            && (sid in sys.store.sessions && sys.store.sessions[sid].value.refreshToken != "" ==>
                  var e := sys.store.sessions[sid];
                  && (forall u | u != e.value.userId :: SameIndex(sys.store, t.store, u))
                  && (Disowned(e.value, v) ==> Gone(t.store, sid))
                  && (!Disowned(e.value, v) ==>
                        && t.store.index == sys.store.index
                        && t.store.countries == sys.store.countries && t.store.devices == sys.store.devices
                        && Find(t.store.sessions, sid)
                           == Some(Entry(e.value.(profile := v.profile, refreshToken := v.refreshToken), e.expiry))))
  {
    if sid in sys.store.sessions { KillIs(sys.store, sys.history.issued, sid); }
  }

  lemma DisownedForGood(sys: System, sid: Sid, v: Verdict, actions: seq<Action>)
    requires Inv(sys) && sid in sys.store.sessions && sys.store.sessions[sid].value.refreshToken != ""
    requires Disowned(sys.store.sessions[sid].value, v)
    ensures var t := Run(Step(sys, Revalidate(sid, v)), actions);
            sid !in t.store.sessions && !Validates(t.store, sid)
  {
    RevalidateDoes(sys, sid, v);
    StepKeepsInv(sys, Revalidate(sid, v));
    DeadStaysDead(Step(sys, Revalidate(sid, v)), actions, sid);
  }

  // ---- managing users ---------------------------------------------------------------------------------

  predicate Managing(a: Action) {
    a.Approve? || a.Lock? || a.Unlock? || a.Delete?
  }

  lemma LastAdminIs(users: map<Subject, User>, u: Subject)
    ensures LastAdmin(users, u) <==> u in users && users[u].role == "admin" && !OtherAdmin(users, u)
  {
    if u in users && users[u].role == "admin" {
      var admins := Admins(users);
      if OtherAdmin(users, u) {
        var w :| w in users && w != u && users[w].role == "admin";
        assert {u, w} <= admins;
        SubsetSize({u, w}, admins);
      } else {
        assert admins == {u};
      }
    }
  }

  lemma {:induction false} SubsetSize<T>(a: set<T>, b: set<T>)
    requires a <= b
    ensures |a| <= |b|
  {
    if a != {} {
      var x :| x in a;
      SubsetSize(a - {x}, b - {x});
    }
  }

  /** Whoever is not an administrator with a recent login cannot manage users: the request
      is no more than its visit. */
  lemma ManagingNeedsAdmin(sys: System, a: Action)
    requires Inv(sys) && Managing(a) && !RecentAdmin(sys, a.who)
    ensures VisitDone(sys, a.who, Step(sys, a))
  {
    if a.who != "" { VisitedIs(sys, a); }
  }

  lemma ManagingNobody(sys: System, a: Action)
    requires Inv(sys) && Managing(a) && (a.u == "" || a.u !in sys.users)
    ensures VisitDone(sys, a.who, Step(sys, a))
  {
    if a.who != "" { VisitedIs(sys, a); }
  }

  /** The own account and the last admin row cannot be locked or deleted. */
  lemma RemovalRefused(sys: System, a: Action)
    requires Inv(sys) && (a.Lock? || a.Delete?) && RecentAdmin(sys, a.who)
    requires a.u == sys.store.sessions[a.who].value.userId
          || (a.u in sys.users && sys.users[a.u].role == "admin" && !OtherAdmin(sys.users, a.u))
    ensures VisitDone(sys, a.who, Step(sys, a))
  {
    VisitedIs(sys, a);
    LastAdminIs(sys.users, a.u);
  }

  /** All sessions in the index of `u` are gone, and so is the index; the visitor, if not
      among them, lives another day, and nobody else is touched. */
  ghost predicate AllRevoked(sys: System, who: Sid, u: Subject, t: System) {
    && t.store.moduleTokens == sys.store.moduleTokens
    && OnlyTouched(sys.store, t.store, {who} + Members(sys.store, u))
    && u !in t.store.index
    && (forall sid | sid in Members(sys.store, u) && sid in sys.store.sessions :: Gone(t.store, sid))
    && (forall sid | sid in Members(sys.store, u) ::
          sid !in t.store.sessions && sid !in t.store.countries && sid !in t.store.devices)
    && (who in sys.store.sessions && who !in Members(sys.store, u) ==>
          Find(t.store.sessions, who) == Some(Entry(sys.store.sessions[who].value, sys.store.now + 86400)))
  }

  lemma RevokeIs(st: Store, issued: set<Sid>, u: Subject)
    requires Sound(st, issued)
    ensures var later := UserRevoked(st, u);
            && OnlyTouched(st, later, Members(st, u)) && u !in later.index
            && later.moduleTokens == st.moduleTokens
            && (forall sid | sid in Members(st, u) ::
                  sid !in later.sessions && sid !in later.countries && sid !in later.devices)
            && (forall sid | sid in Members(st, u) && sid in st.sessions :: Gone(later, sid))
  {
    var later := UserRevoked(st, u);
    forall sid, w | sid in Members(st, u) && sid in st.sessions && w in later.index
      ensures sid !in later.index[w].value
    {
      if w != u { AloneInIndex(st, issued, u, w, sid); }
    }
  }

  lemma AloneInIndex(st: Store, issued: set<Sid>, u: Subject, w: Subject, sid: Sid)
    requires Sound(st, issued) && sid in Members(st, u) && sid in st.sessions && w != u
    ensures sid !in Members(st, w)
  {
  }

  lemma VisitedMembers(sys: System, who: Sid, v: System, u: Subject)
    requires Inv(sys) && VisitDone(sys, who, v) && Good(sys, who)
    ensures Members(v.store, u) == Members(sys.store, u)
  {
    assert u != sys.store.sessions[who].value.userId ==> SameIndex(sys.store, v.store, u);
  }

  lemma RevokedAfterVisit(sys: System, who: Sid, v: System, u: Subject, t: System)
    requires Inv(sys) && Inv(v) && VisitDone(sys, who, v) && Good(sys, who)
    requires t.store == UserRevoked(v.store, u)
    ensures AllRevoked(sys, who, u, t)
  {
    VisitedMembers(sys, who, v, u);
    RevokeIs(v.store, v.history.issued, u);
    OnlyTouchedBoth(sys.store, v.store, t.store, {who}, Members(sys.store, u));
    forall sid | sid in Members(sys.store, u) && sid in sys.store.sessions ensures Gone(t.store, sid) {
      assert sid != who ==> SameAt(sys.store, v.store, sid);
    }
    if who !in Members(sys.store, u) { assert SameAt(v.store, t.store, who); }
  }

  predicate Removable(sys: System, who: Sid, u: Subject) {
    && u != "" && u in sys.users
    && (sys.users[u].role == "admin" ==> OtherAdmin(sys.users, u))
  }

  lemma AdminFinishes(sys: System, v: System, who: Sid, c: Client, u: Subject)
    requires Inv(sys) && RecentAdmin(sys, who) && v.users == sys.users && u != "" && u in sys.users
    ensures Finished(sys, v, Approve(who, c, u)) == Approved(v, u)
    ensures !LastAdmin(sys.users, u) && u != sys.store.sessions[who].value.userId ==>
              && Finished(sys, v, Lock(who, c, u)) == Locked(v, u)
              && Finished(sys, v, Delete(who, c, u)) == Deleted(v, u)
  {
  }

  /** For a recent administrator, another account and not the last admin row: the row is
      locked and the sessions in its index end. */
  lemma LockDoes(sys: System, who: Sid, c: Client, u: Subject)
    requires Inv(sys) && RecentAdmin(sys, who) && Removable(sys, who, u)
    requires u != sys.store.sessions[who].value.userId
    ensures var t := Step(sys, Lock(who, c, u));
            t.users == sys.users[u := sys.users[u].(locked := true)] && AllRevoked(sys, who, u, t)
  {
    var a := Lock(who, c, u);
    VisitedIs(sys, a);
    LastAdminIs(sys.users, u);
    var v := Visited(sys, a);
    AdminFinishes(sys, v, who, c, u);
    RevokedAfterVisit(sys, who, v, u, Locked(v, u));
  }

  lemma DeleteDoes(sys: System, who: Sid, c: Client, u: Subject)
    requires Inv(sys) && RecentAdmin(sys, who) && Removable(sys, who, u)
    requires u != sys.store.sessions[who].value.userId
    ensures var t := Step(sys, Delete(who, c, u)); t.users == sys.users - {u} && AllRevoked(sys, who, u, t)
  {
    var a := Delete(who, c, u);
    VisitedIs(sys, a);
    LastAdminIs(sys.users, u);
    var v := Visited(sys, a);
    AdminFinishes(sys, v, who, c, u);
    RevokedAfterVisit(sys, who, v, u, Deleted(v, u));
  }

  /** Unlocking touches nothing but the lock. */
  lemma UnlockDoes(sys: System, who: Sid, c: Client, u: Subject)
    requires Inv(sys) && RecentAdmin(sys, who) && u != "" && u in sys.users
    ensures var t := Step(sys, Unlock(who, c, u));
            && t.users == sys.users[u := sys.users[u].(locked := false)]
            && VisitDone(sys, who, t.(users := sys.users))
  {
    VisitedIs(sys, Unlock(who, c, u));
  }

  /** The indexed live sessions of `u` have the role, unlocked, for another day; dead members
      are out of the index, and only sessions in `touched` or the index change. */
  ghost predicate RoleGiven(st: Store, u: Subject, role: string, touched: set<Sid>, later: Store) {
    && later.moduleTokens == st.moduleTokens
    && OnlyTouched(st, later, touched + Members(st, u))
    && Members(later, u) == Members(st, u) * st.sessions.Keys
    && (forall sid | sid in Members(st, u) && sid in st.sessions ::
          Find(later.sessions, sid)
          == Some(Entry(st.sessions[sid].value.(role := role, locked := false), st.now + 86400)))
  }

  lemma RoleUpdateGives(st: Store, u: Subject, role: string)
    ensures RoleGiven(st, u, role, {}, RoleUpdated(st, u, role, false))
  {
    RoleUpdatedIs(st, u, role, false);
  }

  lemma GivenAfterVisit(sys: System, who: Sid, v: System, u: Subject, role: string, later: Store)
    requires Inv(sys) && VisitDone(sys, who, v) && Good(sys, who) && RoleGiven(v.store, u, role, {}, later)
    ensures RoleGiven(sys.store, u, role, {who}, later)
  {
    VisitedMembers(sys, who, v, u);
    VisitedValues(sys, who, v);
    assert {} + Members(v.store, u) == Members(sys.store, u);
    OnlyTouchedBoth(sys.store, v.store, later, {who}, Members(sys.store, u));
  }

  /** An approval sets the row approved and gives each indexed live session the row's role,
      unlocked, for another day. */
  lemma ApproveDoes(sys: System, who: Sid, c: Client, u: Subject)
    requires Inv(sys) && RecentAdmin(sys, who) && u != "" && u in sys.users
    ensures var t := Step(sys, Approve(who, c, u));
            && t.users == sys.users[u := sys.users[u].(approved := true)]
            && RoleGiven(sys.store, u, sys.users[u].role, {who}, t.store)
  {
    var v := Visited(sys, Approve(who, c, u));
    VisitedIs(sys, Approve(who, c, u));
    AdminFinishes(sys, v, who, c, u);
    RoleUpdateGives(v.store, u, sys.users[u].role);
    GivenAfterVisit(sys, who, v, u, sys.users[u].role, Approved(v, u).store);
  }

  lemma VisitedValues(sys: System, who: Sid, v: System)
    requires VisitDone(sys, who, v) && Good(sys, who)
    ensures v.store.sessions.Keys == sys.store.sessions.Keys
    ensures forall sid | sid in v.store.sessions :: v.store.sessions[sid].value == sys.store.sessions[sid].value
  {
    forall sid
      ensures sid in v.store.sessions <==> sid in sys.store.sessions
      ensures sid in v.store.sessions ==> v.store.sessions[sid].value == sys.store.sessions[sid].value
    {
      assert sid != who ==> SameAt(sys.store, v.store, sid);
    }
  }

  /** Deleting the own account needs a recent login, pending or not, and another admin row
      if it is one itself. */
  lemma DeleteSelfDoes(sys: System, who: Sid, c: Client)
    requires Inv(sys) && who in sys.store.sessions
    ensures var s, t := sys.store.sessions[who].value, Step(sys, DeleteSelf(who, c));
            if sys.store.now <= s.createdAt + 900 && s.userId in sys.users
               && (sys.users[s.userId].role == "admin" ==> OtherAdmin(sys.users, s.userId))
            then t.users == sys.users - {s.userId} && AllRevoked(sys, who, s.userId, t)
            else VisitDone(sys, who, t)
  {
    var a := DeleteSelf(who, c);
    var u := sys.store.sessions[who].value.userId;
    VisitedIs(sys, a);
    LastAdminIs(sys.users, u);
    if MayDeleteSelf(sys, who) {
      RevokedAfterVisit(sys, who, Visited(sys, a), u, Step(sys, a));
    }
  }

  // ---- login ---------------------------------------------------------------------------------------------

  /** Without a group nobody gets in. */
  lemma LoginRefused(sys: System, sid: Sid, claims: Claims, c: Client)
    requires claims.role == "pending"
    ensures Step(sys, Login(sid, claims, c)) == sys
  {
  }

  /** A known row keeps approval and lock; a new one is approved only while there is no
      admin row. The session has the claimed role exactly if there is no admin row, or the
      row is approved and not locked; everybody else's session is as before. */
  lemma LoginDoes(sys: System, sid: Sid, claims: Claims, c: Client)
    requires Inv(sys) && sid != "" && sid !in sys.history.issued && claims.role != "pending"
    ensures var t, u, open := Step(sys, Login(sid, claims, c)), claims.subject, !SomeAdmin(sys.users);
            var approved := open || (u in sys.users && sys.users[u].approved);
            var locked := !open && u in sys.users && sys.users[u].locked;
            var row := if u in sys.users
                       then User(claims.profile, claims.role, sys.users[u].approved, sys.users[u].locked)
                       else User(claims.profile, claims.role, open, false);
            && t.users == sys.users[u := row]
            && t.store.now == sys.store.now
            && t.store.sessions == sys.store.sessions[sid := Entry(
                 Session(u, if approved && !locked then claims.role else "pending", locked, sys.store.now,
                         c.country, c.userAgent, claims.profile, claims.refreshToken), sys.store.now + 86400)]
            && t.store.index == sys.store.index[u := Entry(Members(sys.store, u) + {sid}, sys.store.now + 86400)]
            && t.store.countries == sys.store.countries && t.store.devices == sys.store.devices
            && t.store.moduleTokens == sys.store.moduleTokens
  {
    assert SomeAdmin(sys.users) <==> WizardComplete(sys.users) by {
      if SomeAdmin(sys.users) {
        var w :| w in sys.users && sys.users[w].role == "admin";
        assert w in Admins(sys.users);
      }
    }
  }

  // ---- sessions and module tokens ---------------------------------------------------------------------------

  /** A good session that is neither pending nor locked. */
  predicate InUse(sys: System, who: Sid) {
    && Good(sys, who)
    && sys.store.sessions[who].value.role != "pending" && !sys.store.sessions[who].value.locked
  }

  /** The session `id` is ended, besides the visit. */
  ghost predicate Ended(sys: System, who: Sid, id: Sid, t: System) {
    && t.users == sys.users && t.store.moduleTokens == sys.store.moduleTokens
    && OnlyTouched(sys.store, t.store, {who, id}) && Gone(t.store, id)
    && (who in sys.store.sessions && who != id ==>
          Find(t.store.sessions, who) == Some(Entry(sys.store.sessions[who].value, sys.store.now + 86400)))
  }

  lemma EndAfterVisit(sys: System, who: Sid, v: System, id: Sid, t: System)
    requires Inv(sys) && Inv(v) && VisitDone(sys, who, v) && Good(sys, who) && id in v.store.sessions
    requires t.users == v.users && t.store == Unindexed(Killed(v.store, {id}), Owner(v.store, id), {id})
    ensures Ended(sys, who, id, t)
  {
    KillIs(v.store, v.history.issued, id);
    OnlyTouchedBoth(sys.store, v.store, t.store, {who}, {id});
    assert {who} + {id} == {who, id};
    if who != id { assert SameAt(v.store, t.store, who); }
  }

  /** An administrator ends any live session, everybody else none. */
  lemma EndSessionDoes(sys: System, who: Sid, c: Client, id: Sid)
    requires Inv(sys)
    ensures var t := Step(sys, EndSession(who, c, id));
            if Good(sys, who) && sys.store.sessions[who].value.role == "admin" && id in sys.store.sessions
            then Ended(sys, who, id, t)
            else VisitDone(sys, who, t)
  {
    var a := EndSession(who, c, id);
    if who != "" {
      VisitedIs(sys, a);
      var v := Visited(sys, a);
      assert id != who ==> SameAt(sys.store, v.store, id);
      if Good(sys, who) && sys.store.sessions[who].value.role == "admin" && id in sys.store.sessions {
        EndAfterVisit(sys, who, v, id, Step(sys, a));
      }
    }
  }

  /** One ends exactly the own sessions that are in the own index. */
  lemma EndOwnDoes(sys: System, who: Sid, c: Client, id: Sid)
    requires Inv(sys)
    ensures var t := Step(sys, EndOwn(who, c, id));
            if InUse(sys, who) && id in sys.store.sessions
               && Owner(sys.store, id) == Owner(sys.store, who) && id in Members(sys.store, Owner(sys.store, id))
            then Ended(sys, who, id, t)
            else VisitDone(sys, who, t)
  {
    var a := EndOwn(who, c, id);
    if who != "" {
      VisitedIs(sys, a);
      var v := Visited(sys, a);
      assert id != who ==> SameAt(sys.store, v.store, id);
      if InUse(sys, who) {
        VisitedMembers(sys, who, v, Owner(sys.store, who));
        if OwnRevocable(v.store, Owner(sys.store, who), id) {
          EndAfterVisit(sys, who, v, id, Step(sys, a));
        }
      }
    }
  }

  /** Whatever the index says, ending own sessions never touches somebody else's. */
  lemma EndOwnSparesOthers(st: Store, u: Subject, id: Sid, sid: Sid)
    requires sid in st.sessions && st.sessions[sid].value.userId != u
    ensures SameAt(st, OwnRevoked(st, u, id), sid)
  {
    if OwnRevocable(st, u, id) { UnindexedIs(Killed(st, {id}), u, {id}); }
  }

  /** Listing the own sessions drops the dead ones from the own index and does no more. */
  lemma ListOwnDoes(sys: System, who: Sid, c: Client)
    requires Inv(sys)
    ensures var t := Step(sys, ListOwn(who, c));
            if InUse(sys, who) then
              var u := Owner(sys.store, who);
              && t.users == sys.users && t.store.moduleTokens == sys.store.moduleTokens
              && OnlyTouched(sys.store, t.store, {who})
              && Find(t.store.sessions, who) == Some(Entry(sys.store.sessions[who].value, sys.store.now + 86400))
              && Members(t.store, u) == Members(sys.store, u) * sys.store.sessions.Keys
              && (forall w | w != u :: Members(t.store, w) == Members(sys.store, w))
            else VisitDone(sys, who, t)
  {
    var a := ListOwn(who, c);
    if who != "" {
      VisitedIs(sys, a);
      if InUse(sys, who) {
        var v, u := Visited(sys, a), Owner(sys.store, who);
        VisitedMembers(sys, who, v, u);
        UnindexedIs(v.store, u, Dead(v.store, u));
        VisitedValues(sys, who, v);
        forall w | w != u ensures Members(v.store, w) == Members(sys.store, w) {
          assert SameIndex(sys.store, v.store, w);
        }
      }
    }
  }

  /** A token stands for the caller's session and the one module, for twenty minutes. */
  lemma MintDoes(sys: System, who: Sid, c: Client, token: string, name: string)
    requires Inv(sys)
    ensures var t := Step(sys, Mint(who, c, token, name));
            var minted := sys.store.moduleTokens[token := Entry(ModuleToken(name, who), sys.store.now + 1200)];
            && VisitDone(sys, who, t.(store := t.store.(moduleTokens := sys.store.moduleTokens)))
            && t.store.moduleTokens == (if InUse(sys, who) then minted else sys.store.moduleTokens)
  {
    var a := Mint(who, c, token, name);
    var v := Visited(sys, a);
    if who != "" { VisitedIs(sys, a); }
    MintFinishes(sys, v, who, c, token, name);
    var t := Step(sys, a);
    assert t.(store := t.store.(moduleTokens := sys.store.moduleTokens)) == v;
  }

  lemma MintFinishes(sys: System, v: System, who: Sid, c: Client, token: string, name: string)
    requires Inv(sys)
    ensures Finished(sys, v, Mint(who, c, token, name))
         == if InUse(sys, who)
            then v.(store := v.store.(moduleTokens :=
                   v.store.moduleTokens[token := Entry(ModuleToken(name, who), v.store.now + 1200)]))
            else v
  {
  }

  /** As time passes exactly what has reached its end disappears. */
  lemma ElapseDoes(sys: System, d: nat)
    ensures var t := Step(sys, Elapse(d));
            var now := sys.store.now + d;
            && t.users == sys.users && t.store.now == now
            && (forall sid :: Find(t.store.sessions, sid)
                  == (if sid in sys.store.sessions && now < sys.store.sessions[sid].expiry
                      then Some(sys.store.sessions[sid]) else None))
            && (forall u :: Find(t.store.index, u)
                  == (if u in sys.store.index && now < sys.store.index[u].expiry
                      then Some(sys.store.index[u]) else None))
            && (forall token :: Find(t.store.moduleTokens, token)
                  == (if token in sys.store.moduleTokens && now < sys.store.moduleTokens[token].expiry
                      then Some(sys.store.moduleTokens[token]) else None))
  {
  }

  /** What a listing tells of a session: its id and data, the seconds left of its day and the
      seconds used up. */
  ghost predicate Tells(st: Store, a: ActiveSession, sid: Sid)
    requires sid in st.sessions
  {
    && a.sid == sid && a.session == st.sessions[sid].value
    && st.now + a.expiresIn == st.sessions[sid].expiry
    && a.lastActiveAgo + a.expiresIn == 86400
  }

  /** Both listings: one entry for each live session, of the whole store or of the index. */
  lemma ListingsTell(sys: System, u: Subject)
    requires Inv(sys)
    ensures forall a :: a in FullListing(sys.store) <==>
              exists sid :: sid in sys.store.sessions && Tells(sys.store, a, sid)
    ensures forall a :: a in UserListing(sys.store, u) <==>
              exists sid :: sid in Members(sys.store, u) && sid in sys.store.sessions && Tells(sys.store, a, sid)
  {
    forall a, sid | sid in sys.store.sessions ensures a == Shown(sys.store, sid) <==> Tells(sys.store, a, sid) {
      assert SoundSession(sys.store.now, sys.store.sessions[sid]);
    }
  }

  // ---- a module token over its life ----------------------------------------------------------------------------

  lemma FinishOnTokens(sys: System, v: System, a: Action)
    requires Inv(v) && !a.Elapse? && !a.Mint?
    ensures Finished(sys, v, a).store.moduleTokens == v.store.moduleTokens
  {
    if a.Approve? {
      if a.u in v.users { RoleUpdatedIs(v.store, a.u, v.users[a.u].role, false); }
    } else if a.EndSession? {
      if Revocable(v.store, a.id) { UnindexedIs(Killed(v.store, {a.id}), Owner(v.store, a.id), {a.id}); }
    } else if a.EndOwn? {
      if Caller(sys, a.who).Some? { UnindexedIs(Killed(v.store, {a.id}), Caller(sys, a.who).value.userId, {a.id}); }
    } else if a.ListOwn? {
      if Caller(sys, a.who).Some? {
        UnindexedIs(v.store, Caller(sys, a.who).value.userId, Dead(v.store, Caller(sys, a.who).value.userId));
      }
    } else if a.Revalidate? {
      if a.sid in v.store.sessions { UnindexedIs(Killed(v.store, {a.sid}), Owner(v.store, a.sid), {a.sid}); }
    }
  }

  predicate Mints(a: Action, token: string) {
    a.Mint? && a.token == token
  }

  ghost predicate Unexpired(st: Store, token: string) {
    token in st.moduleTokens ==> st.now < st.moduleTokens[token].expiry
  }

  /** What is left of the token's key at the instant `now`. */
  function Left(st: Store, token: string, now: nat): Option<Entry<ModuleToken>> {
    if token in st.moduleTokens && now < st.moduleTokens[token].expiry then Some(st.moduleTokens[token]) else None
  }

  lemma StepOnToken(sys: System, a: Action, token: string)
    requires Inv(sys) && !Mints(a, token) && Unexpired(sys.store, token)
    ensures var t := Step(sys, a);
            && t.store.now >= sys.store.now && Unexpired(t.store, token)
            && Find(t.store.moduleTokens, token) == Left(sys.store, token, t.store.now)
  {
    var v := Visited(sys, a);
    VisitedKeeps(sys, a);
    if VisitorOf(sys, a) != "" { VisitedIs(sys, a); }
    if a.Mint? {
      MintDoes(sys, a.who, a.c, a.token, a.name);
    } else if !a.Elapse? {
      FinishOnTokens(sys, v, a);
      StepNow(sys, v, a);
    }
  }

  lemma StepNow(sys: System, v: System, a: Action)
    requires Inv(v) && !a.Elapse?
    ensures Finished(sys, v, a).store.now == v.store.now
  {
    if a.Approve? {
      if a.u in v.users { RoleUpdatedIs(v.store, a.u, v.users[a.u].role, false); }
    } else if !a.Login? {
      FinishReduces(sys, v, a);
    }
  }

  ghost predicate NotMinted(actions: seq<Action>, token: string) {
    forall i | 0 <= i < |actions| :: !Mints(actions[i], token)
  }

  /** Until its end a token stays what it is, and afterwards it is gone. */
  lemma {:induction false} TokenStays(sys: System, actions: seq<Action>, token: string)
    requires Inv(sys) && NotMinted(actions, token) && Unexpired(sys.store, token)
    ensures var t := Run(sys, actions); Find(t.store.moduleTokens, token) == Left(sys.store, token, t.store.now)
    decreases |actions|
  {
    if actions != [] {
      var s := Step(sys, actions[0]);
      StepOnToken(sys, actions[0], token);
      StepKeepsInv(sys, actions[0]);
      TokenStays(s, actions[1..], token);
      TimeRises(s, actions[1..]);
      LeftOfLeft(sys.store, s.store, token, Run(s, actions[1..]).store.now);
    }
  }

  lemma LeftOfLeft(st: Store, mid: Store, token: string, now: nat)
    requires st.now <= mid.now <= now && Find(mid.moduleTokens, token) == Left(st, token, mid.now)
    ensures Left(mid, token, now) == Left(st, token, now)
  {
  }

  lemma {:induction false} TimeRises(sys: System, actions: seq<Action>)
    requires Inv(sys)
    ensures Run(sys, actions).store.now >= sys.store.now
    decreases |actions|
  {
    if actions != [] {
      StepKeepsInv(sys, actions[0]);
      VisitedKeeps(sys, actions[0]);
      if !actions[0].Elapse? { StepNow(sys, Visited(sys, actions[0]), actions[0]); }
      TimeRises(Step(sys, actions[0]), actions[1..]);
    }
  }

  /** A token minted for one module, after any run that does not mint the same text again:
      another module refuses it, and nothing changes; its own module takes it exactly for
      twenty minutes while the session itself is good, and treats it exactly as a request
      of that session. */
  lemma TokenDoes(sys: System, who: Sid, c: Client, token: string, name: string, actions: seq<Action>,
                  other: string, d: Client)
    requires Inv(sys) && InUse(sys, who) && token != "" && NotMinted(actions, token)
    ensures var t := Run(Step(sys, Mint(who, c, token, name)), actions);
            && (other != name ==> !Opens(t, token, other) && Step(t, ModuleRequest(token, other, d)) == t)
            && (Opens(t, token, name) <==> t.store.now < sys.store.now + 1200 && Good(t, who))
            && (Opens(t, token, name) ==> SessionBehind(t, token, name) == t.store.sessions[who].value)
            && Step(t, ModuleRequest(token, name, d))
               == if t.store.now < sys.store.now + 1200 then Step(t, Request(who, d)) else t
  {
    var s := Step(sys, Mint(who, c, token, name));
    MintDoes(sys, who, c, token, name);
    StepKeepsInv(sys, Mint(who, c, token, name));
    TokenStays(s, actions, token);
    RunKeepsInv(s, actions);
    TokenLeadsTo(Run(s, actions), token, name, other, who, d);
  }

  lemma TokenLeadsTo(t: System, token: string, name: string, other: string, who: Sid, d: Client)
    requires Inv(t) && token != "" && who != ""
    requires token in t.store.moduleTokens ==> t.store.moduleTokens[token].value == ModuleToken(name, who)
    ensures other != name ==> !Opens(t, token, other) && Step(t, ModuleRequest(token, other, d)) == t
    ensures Opens(t, token, name) <==> token in t.store.moduleTokens && Good(t, who)
    ensures Opens(t, token, name) ==> SessionBehind(t, token, name) == t.store.sessions[who].value
    ensures Step(t, ModuleRequest(token, name, d))
         == if token in t.store.moduleTokens then Step(t, Request(who, d)) else t
  {
  }

  /** A token that nobody minted opens nothing. */
  lemma UnknownToken(actions: seq<Action>, token: string, name: string, d: Client)
    requires NotMinted(actions, token)
    ensures var t := Run(START, actions);
            !Opens(t, token, name) && Step(t, ModuleRequest(token, name, d)) == t
  {
    StartIsFine();
    TokenStays(START, actions, token);
  }

  // ---- what can happen to a row --------------------------------------------------------------------------------

  /** `a` approves `u`: an approval by a recent administrator, or a login while there is no
      admin row. */
  predicate ApprovesNow(sys: System, a: Action, u: Subject) {
    match a
    case Approve(who, _, w) => w == u && RecentAdmin(sys, who)
    case Login(_, claims, _) => claims.subject == u && !SomeAdmin(sys.users)
    case _ => false
  }

  predicate IsApproved(users: map<Subject, User>, u: Subject) {
    u in users && users[u].approved
  }

  /** The rows after a step: only a recent administrator's action, a login or deleting the
      own account changes any. */
  lemma UsersChange(sys: System, a: Action)
    requires Inv(sys)
    ensures var t := Step(sys, a);
            t.users != sys.users ==>
              a.Login? || a.DeleteSelf? || (Managing(a) && RecentAdmin(sys, a.who))
  {
    if Managing(a) && !RecentAdmin(sys, a.who) { ManagingNeedsAdmin(sys, a); }
    VisitedKeeps(sys, a);
  }

  lemma StepApproves(sys: System, a: Action, u: Subject)
    requires Inv(sys) && !IsApproved(sys.users, u) && IsApproved(Step(sys, a).users, u)
    ensures ApprovesNow(sys, a, u)
  {
    UsersChange(sys, a);
    if a.Login? {
      if LoginPasses(sys, a.sid, a.claims) { LoginDoes(sys, a.sid, a.claims, a.c); }
    } else if a.Approve? {
      if a.u == "" || a.u !in sys.users { ManagingNobody(sys, a); } else { ApproveDoes(sys, a.who, a.c, a.u); }
    } else {
      VisitedKeeps(sys, a);
      OthersDoNotApprove(sys, Visited(sys, a), a, u);
    }
  }

  lemma OthersDoNotApprove(sys: System, v: System, a: Action, u: Subject)
    requires !a.Login? && !a.Approve?
    ensures IsApproved(Finished(sys, v, a).users, u) ==> IsApproved(v.users, u)
  {
  }

  /** A row comes to be approved in no other way, over any run. */
  lemma {:induction false} ApprovedBecause(sys: System, actions: seq<Action>, u: Subject) returns (i: nat)
    requires Inv(sys) && !IsApproved(sys.users, u) && IsApproved(Run(sys, actions).users, u)
    ensures i < |actions| && ApprovesNow(Run(sys, actions[..i]), actions[i], u)
    decreases |actions|
  {
    var t := Step(sys, actions[0]);
    if IsApproved(t.users, u) {
      StepApproves(sys, actions[0], u);
      i := 0;
      assert actions[..0] == [];
    } else {
      StepKeepsInv(sys, actions[0]);
      var j := ApprovedBecause(t, actions[1..], u);
      i := j + 1;
      assert actions[..i][1..] == actions[1..][..j] && actions[..i][0] == actions[0];
    }
  }

  lemma DeletionKeepsAnAdmin(users: map<Subject, User>, u: Subject)
    requires SomeAdmin(users) && !LastAdmin(users, u)
    ensures SomeAdmin(users - {u})
  {
    LastAdminIs(users, u);
    assert OtherAdmin(users, u);
    var w :| w in users && w != u && users[w].role == "admin";
    assert w in users - {u} && (users - {u})[w].role == "admin";
  }

  lemma UpdateKeepsAnAdmin(users: map<Subject, User>, after: map<Subject, User>)
    requires SomeAdmin(users) && forall u | u in users :: u in after && after[u].role == users[u].role
    ensures SomeAdmin(after)
  {
    var w :| w in users && users[w].role == "admin";
    assert w in after && after[w].role == "admin";
  }

  /** Without a login the instance never loses its last admin row. */
  lemma StepKeepsAnAdmin(sys: System, a: Action)
    requires Inv(sys) && SomeAdmin(sys.users) && !a.Login?
    ensures SomeAdmin(Step(sys, a).users)
  {
    VisitedKeeps(sys, a);
    if a.Delete? {
      if MayRemove(sys, a.who, a.u) { DeletionKeepsAnAdmin(sys.users, a.u); }
    } else if a.DeleteSelf? {
      if MayDeleteSelf(sys, a.who) { DeletionKeepsAnAdmin(sys.users, Caller(sys, a.who).value.userId); }
    } else {
      FinishKeepsRoleOf(sys, Visited(sys, a), a);
      UpdateKeepsAnAdmin(sys.users, Step(sys, a).users);
    }
  }

  lemma FinishKeepsRoleOf(sys: System, v: System, a: Action)
    requires !a.Login? && !a.Delete? && !a.DeleteSelf?
    ensures forall u | u in v.users ::
              u in Finished(sys, v, a).users && Finished(sys, v, a).users[u].role == v.users[u].role
  {
  }

  lemma {:induction false} AdminRemains(sys: System, actions: seq<Action>)
    requires Inv(sys) && SomeAdmin(sys.users) && forall i | 0 <= i < |actions| :: !actions[i].Login?
    ensures SomeAdmin(Run(sys, actions).users)
    decreases |actions|
  {
    if actions != [] {
      StepKeepsAnAdmin(sys, actions[0]);
      StepKeepsInv(sys, actions[0]);
      AdminRemains(Step(sys, actions[0]), actions[1..]);
    }
  }
}
