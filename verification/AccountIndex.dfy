/** The session index over whole runs: it can lose a session in one way only, and as long
    as that does not happen locking and deleting reach every session. */
module AccountIndex {
  import opened Wrappers
  import opened SessionStore
  import opened SessionFacts
  import opened Accounts
  import opened AccountRuns

  /** No session appears or changes hands, and what stays alive stays indexed. */
  ghost predicate MembersKept(st: Store, later: Store) {
    && (forall sid | sid in later.sessions :: sid in st.sessions && Owner(later, sid) == Owner(st, sid))
    && (forall u, sid | sid in Members(st, u) && sid in later.sessions :: sid in Members(later, u))
  }

  lemma MembersKeptIndexed(st: Store, later: Store, u: Subject)
    requires MembersKept(st, later) && Indexed(st, u)
    ensures Indexed(later, u)
  {
  }

  lemma ReductionKeepsMembers(st: Store, later: Store)
    requires Reduced(st, later)
    ensures MembersKept(st, later)
  {
  }

  lemma VisitKeepsMembers(st: Store, sid: Sid, c: Client)
    ensures MembersKept(st, Validated(st, sid, c))
  {
    if sid in st.sessions { KillReduces(st, {sid}, Owner(st, sid)); }
  }

  lemma VisitedKeepsMembers(sys: System, a: Action)
    ensures MembersKept(sys.store, Visited(sys, a).store)
  {
    if VisitorOf(sys, a) != "" { VisitKeepsMembers(sys.store, VisitorOf(sys, a), a.c); }
  }

  lemma ApproveKeepsMembers(v: System, u: Subject)
    requires u in v.users
    ensures MembersKept(v.store, Approved(v, u).store)
  {
    RoleUpdatedIs(v.store, u, v.users[u].role, false);
  }

  // ---- the one way to fall out of the index --------------------------------------------------

  /** Time passes the end of the user's index while a session of the user lives on. */
  ghost predicate Lapses(sys: System, a: Action, u: Subject) {
    && a.Elapse?
    && u in sys.store.index && sys.store.index[u].expiry <= sys.store.now + a.d
    && exists sid :: sid in sys.store.sessions && Owner(sys.store, sid) == u
                     && sys.store.now + a.d < sys.store.sessions[sid].expiry
  }

  lemma ElapseIndexedIff(sys: System, d: nat, u: Subject)
    requires Indexed(sys.store, u)
    ensures Indexed(Tick(sys.store, d), u) <==> !Lapses(sys, Elapse(d), u)
  {
    var st, later := sys.store, Tick(sys.store, d);
    if Lapses(sys, Elapse(d), u) {
      var sid :| sid in st.sessions && Owner(st, sid) == u && st.now + d < st.sessions[sid].expiry;
      assert sid in later.sessions && Owner(later, sid) == u && sid !in Members(later, u);
    } else {
      forall sid | sid in later.sessions && Owner(later, sid) == u ensures sid in Members(later, u) {
        assert sid in st.sessions && Owner(st, sid) == u && sid in Members(st, u);
      }
    }
  }

  lemma LoginKeepsIndexed(v: System, sid: Sid, claims: Claims, c: Client, u: Subject)
    requires Indexed(v.store, u) && LoginPasses(v, sid, claims)
    ensures Indexed(LoggedIn(v, sid, claims, c).store, u)
  {
    var t := LoggedIn(v, sid, claims, c);
    assert forall w :: Members(v.store, w) <= Members(t.store, w);
    assert sid in Members(t.store, claims.subject);
  }

  lemma FinishKeepsIndexed(sys: System, v: System, a: Action, u: Subject)
    requires Inv(v) && Indexed(v.store, u) && !a.Elapse?
    ensures Indexed(Finished(sys, v, a).store, u)
  {
    match a {
      case Login(sid, claims, c) => if LoginPasses(v, sid, claims) { LoginKeepsIndexed(v, sid, claims, c, u); }
      case Approve(_, _, w) =>
        if w in v.users {
          ApproveKeepsMembers(v, w);
          MembersKeptIndexed(v.store, Approved(v, w).store, u);
        }
      case _ =>
        FinishReduces(sys, v, a);
        ReductionKeepsMembers(v.store, Finished(sys, v, a).store);
        MembersKeptIndexed(v.store, Finished(sys, v, a).store, u);
    }
  }

  /** Whatever the request, whoever is approved with a session open: a user whose sessions
      are all indexed stays so, unless this is the lapse. */
  lemma StepIndexedIff(sys: System, a: Action, u: Subject)
    requires Inv(sys) && Indexed(sys.store, u)
    ensures Indexed(Step(sys, a).store, u) <==> !Lapses(sys, a, u)
  {
    if a.Elapse? {
      ElapseIndexedIff(sys, a.d, u);
    } else {
      VisitedKeeps(sys, a);
      VisitedKeepsMembers(sys, a);
      MembersKeptIndexed(sys.store, Visited(sys, a).store, u);
      FinishKeepsIndexed(sys, Visited(sys, a), a, u);
    }
  }

  ghost predicate AllIndexed(sys: System) {
    forall u :: Indexed(sys.store, u)
  }

  ghost predicate LapseFree(sys: System, actions: seq<Action>)
    decreases |actions|
  {
    actions == [] ||
      ((forall u :: !Lapses(sys, actions[0], u)) && LapseFree(Step(sys, actions[0]), actions[1..]))
  }

  /** Everybody's live sessions are indexed in the state after every prefix of the run. */
  ghost predicate AlwaysIndexed(sys: System, actions: seq<Action>)
    decreases |actions|
  {
    AllIndexed(sys) && (actions == [] || AlwaysIndexed(Step(sys, actions[0]), actions[1..]))
  }

  /** Over any run the index is complete for everybody throughout if and only if nobody's
      index lapses. */
  lemma {:induction false} RunIndexedIff(sys: System, actions: seq<Action>)
    requires Inv(sys) && AllIndexed(sys)
    ensures AlwaysIndexed(sys, actions) <==> LapseFree(sys, actions)
    decreases |actions|
  {
    if actions != [] {
      forall u ensures Indexed(Step(sys, actions[0]).store, u) <==> !Lapses(sys, actions[0], u) {
        StepIndexedIff(sys, actions[0], u);
      }
      if AllIndexed(Step(sys, actions[0])) {
        StepKeepsInv(sys, actions[0]);
        RunIndexedIff(Step(sys, actions[0]), actions[1..]);
      }
    }
  }

  lemma {:induction false} LapseFreeEnd(sys: System, actions: seq<Action>)
    requires Inv(sys) && AllIndexed(sys) && LapseFree(sys, actions)
    ensures AllIndexed(Run(sys, actions))
    decreases |actions|
  {
    if actions != [] {
      forall u ensures Indexed(Step(sys, actions[0]).store, u) { StepIndexedIff(sys, actions[0], u); }
      StepKeepsInv(sys, actions[0]);
      LapseFreeEnd(Step(sys, actions[0]), actions[1..]);
    }
  }

  // ---- when an index lapses ---------------------------------------------------------------------

  /** An index ends one session lifetime after its user last logged in or made a request. */
  ghost predicate Punctual(sys: System) {
    forall u | u in sys.store.index ::
      u in sys.history.seen && sys.store.index[u].expiry == sys.history.seen[u] + SESSION_TTL
  }

  lemma FinishIsPunctual(sys: System, v: System, a: Action)
    requires Inv(v) && Punctual(v)
    ensures Punctual(Finished(sys, v, a))
  {
    if Growing(a) {
      if a.Approve? && a.u in v.users { RoleUpdatedIs(v.store, a.u, v.users[a.u].role, false); }
    } else {
      FinishReduces(sys, v, a);
    }
  }

  lemma VisitIsPunctual(sys: System, sid: Sid, c: Client)
    requires Punctual(sys)
    ensures Punctual(Visit(sys, sid, c))
  {
    if sid in sys.store.sessions { KillReduces(sys.store, {sid}, Owner(sys.store, sid)); }
  }

  lemma StepIsPunctual(sys: System, a: Action)
    requires Inv(sys) && Punctual(sys)
    ensures Punctual(Step(sys, a))
  {
    if VisitorOf(sys, a) != "" { VisitIsPunctual(sys, VisitorOf(sys, a), a.c); }
    VisitedKeeps(sys, a);
    FinishIsPunctual(sys, Visited(sys, a), a);
  }

  lemma {:induction false} RunIsPunctual(sys: System, actions: seq<Action>)
    requires Inv(sys) && Punctual(sys)
    ensures Punctual(Run(sys, actions))
    decreases |actions|
  {
    if actions != [] {
      StepIsPunctual(sys, actions[0]);
      StepKeepsInv(sys, actions[0]);
      RunIsPunctual(Step(sys, actions[0]), actions[1..]);
    }
  }

  /** A lapse, told from outside: the user neither logged in nor made a request for a whole
      session lifetime, and within that time a session of the user was given its role. */
  ghost predicate SilentSinceApproval(sys: System, d: nat, u: Subject, sid: Sid) {
    && sid in sys.store.sessions && Owner(sys.store, sid) == u
    && u in sys.history.seen && sid in sys.history.touched
    && sys.history.seen[u] + SESSION_TTL <= sys.store.now + d < sys.history.touched[sid] + SESSION_TTL
  }

  lemma LapseIsSilence(sys: System, d: nat, u: Subject)
    requires Inv(sys) && Punctual(sys) && Indexed(sys.store, u)
    ensures Lapses(sys, Elapse(d), u) <==> exists sid :: SilentSinceApproval(sys, d, u, sid)
  {
    var st := sys.store;
    if Lapses(sys, Elapse(d), u) {
      var sid :| sid in st.sessions && Owner(st, sid) == u && st.now + d < st.sessions[sid].expiry;
      assert SilentSinceApproval(sys, d, u, sid);
    }
    if sid :| SilentSinceApproval(sys, d, u, sid) {
      assert sid in Members(st, u);
      assert st.now + d < st.sessions[sid].expiry;
    }
  }

  // ---- privilege without a look at the index -----------------------------------------------------

  /** What an operator can see to: known rows not in good standing log in only while the
      wizard is complete, and no locked row with live sessions is approved. */
  ghost predicate Prudent(sys: System, a: Action) {
    a.Login? || a.Approve? ==> Careful(sys, a)
  }

  ghost predicate PrudentRun(sys: System, actions: seq<Action>)
    decreases |actions|
  {
    actions == [] || (Prudent(sys, actions[0]) && PrudentRun(Step(sys, actions[0]), actions[1..]))
  }

  lemma IndexedIsCareful(sys: System, a: Action)
    requires Inv(sys) && AllIndexed(sys)
    ensures Careful(sys, a) <==> Prudent(sys, a)
  {
    var v := Visited(sys, a);
    VisitedKeepsMembers(sys, a);
    forall u ensures RolesIndexed(v.store, u) {
      MembersKeptIndexed(sys.store, v.store, u);
    }
  }

  /** Over every run in which no index lapses, whoever is approved, locked, deleted or
      revoked: live sessions with a real role belong to approved, unlocked users
      throughout if and only if every login and approval was prudent. */
  lemma {:induction false} LapseFreePrivilegedIff(sys: System, actions: seq<Action>)
    requires Inv(sys) && AllIndexed(sys) && Privileged(sys.store, sys.users) && LapseFree(sys, actions)
    ensures AlwaysPrivileged(sys, actions) <==> PrudentRun(sys, actions)
    decreases |actions|
  {
    if actions != [] {
      var t := Step(sys, actions[0]);
      IndexedIsCareful(sys, actions[0]);
      StepPrivilegedIff(sys, actions[0]);
      if Privileged(t.store, t.users) {
        StepKeepsInv(sys, actions[0]);
        forall u ensures Indexed(t.store, u) { StepIndexedIff(sys, actions[0], u); }
        LapseFreePrivilegedIff(t, actions[1..]);
      }
    }
  }

  /** The same from the empty system on. */
  lemma FromTheStart(actions: seq<Action>)
    ensures AlwaysIndexed(START, actions) <==> LapseFree(START, actions)
    ensures LapseFree(START, actions) ==> (AlwaysPrivileged(START, actions) <==> PrudentRun(START, actions))
  {
    StartIsFine();
    RunIndexedIff(START, actions);
    if LapseFree(START, actions) { LapseFreePrivilegedIff(START, actions); }
  }

  // ---- full coverage --------------------------------------------------------------------------------

  /** Approvals hit users without a live session. */
  ghost predicate NoLiveApprovals(sys: System, actions: seq<Action>)
    decreases |actions|
  {
    actions == [] ||
      ((actions[0].Approve? ==> LiveMembers(Visited(sys, actions[0]).store, actions[0].u) == {})
       && NoLiveApprovals(Step(sys, actions[0]), actions[1..]))
  }

  /** Nothing but an approval ever lets an index end before a session: without approvals of
      live sessions the indexes outlive all sessions, and none lapses. */
  lemma {:induction false} CoverageLasts(sys: System, actions: seq<Action>)
    requires Inv(sys) && AllCovered(sys) && NoLiveApprovals(sys, actions)
    ensures AllCovered(Run(sys, actions)) && LapseFree(sys, actions)
    decreases |actions|
  {
    if actions != [] {
      forall u ensures !Lapses(sys, actions[0], u) { assert Covered(sys.store, u); }
      StepKeepsCoverage(sys, actions[0]);
      StepKeepsInv(sys, actions[0]);
      CoverageLasts(Step(sys, actions[0]), actions[1..]);
    }
  }

  /** After an approval and any further run without a lapse, whatever others do meanwhile,
      the next request of any session of that user makes the index outlive all of them. */
  lemma RequestAfterApprovalRestoresCoverage(sys: System, who: Sid, c: Client, u: Subject,
                                             actions: seq<Action>, sid: Sid, d: Client)
    requires Inv(sys) && AllIndexed(sys)
    requires LapseFree(Step(sys, Approve(who, c, u)), actions)
    requires var t := Run(Step(sys, Approve(who, c, u)), actions);
             Validates(t.store, sid) && Owner(t.store, sid) == u
    ensures var t := Run(Step(sys, Approve(who, c, u)), actions);
            AllIndexed(t) && Covered(Step(t, Request(sid, d)).store, u)
  {
    var s := Step(sys, Approve(who, c, u));
    forall w ensures Indexed(s.store, w) { StepIndexedIff(sys, Approve(who, c, u), w); }
    StepKeepsInv(sys, Approve(who, c, u));
    RunKeepsInv(s, actions);
    LapseFreeEnd(s, actions);
    var t := Run(s, actions);
    ValidationRestoresCoverage(t.store, t.history.issued, u, sid, d);
  }
}
