/** What the session operations keep: the index covers the live sessions, sessions
    only appear by login, and what one operation leaves behind for the others. */
module SessionFacts {
  import opened Wrappers
  import opened SessionStore

  function Owner(st: Store, sid: Sid): Subject
    requires sid in st.sessions
  {
    st.sessions[sid].value.userId
  }

  ghost predicate SoundSession(now: nat, e: Entry<Session>) {
    && 1 <= e.value.createdAt <= now
    && now < e.expiry <= now + SESSION_TTL
  }

  /** `issued` are the ids ever handed out. An id stands in the index of its owner only. */
  ghost predicate Sound(st: Store, issued: set<Sid>) {
    && st.now >= 1
    && (forall sid | sid in st.sessions :: sid != "" && sid in issued && SoundSession(st.now, st.sessions[sid]))
    && (forall u | u in st.index :: st.now < st.index[u].expiry <= st.now + SESSION_TTL)
    && (forall u, sid | sid in Members(st, u) ::
          sid in issued && (sid in st.sessions ==> Owner(st, sid) == u))
  }

  /** A live session of `u` is a member of the user's index. */
  ghost predicate Indexed(st: Store, u: Subject) {
    forall sid | sid in st.sessions && Owner(st, sid) == u :: sid in Members(st, u)
  }

  /** ... and the index lives at least as long as the session. */
  ghost predicate Covered(st: Store, u: Subject) {
    forall sid | sid in st.sessions && Owner(st, sid) == u ::
      sid in Members(st, u) && st.index[u].expiry >= st.sessions[sid].expiry
  }

  predicate SameIdentity(a: Session, b: Session) {
    && a.userId == b.userId && a.role == b.role && a.locked == b.locked && a.createdAt == b.createdAt
    && a.country == b.country && a.userAgent == b.userAgent
  }

  /** No session appears, and none changes whom it belongs to, what it may do or where it
      was opened. */
  ghost predicate Calm(st: Store, later: Store) {
    forall sid | sid in later.sessions ::
      sid in st.sessions && SameIdentity(st.sessions[sid].value, later.sessions[sid].value)
  }

  /** Kept by every operation but a login and a role update. */
  ghost predicate Keeps(st: Store, issued: set<Sid>, later: Store) {
    && Sound(later, issued) && Calm(st, later)
    && (forall u | Covered(st, u) :: Covered(later, u))
  }

  lemma TickKeeps(st: Store, issued: set<Sid>, d: nat)
    requires Sound(st, issued)
    ensures Keeps(st, issued, Tick(st, d))
  {
    var later := Tick(st, d);
    forall u, sid | sid in Members(later, u)
      ensures sid in issued && (sid in later.sessions ==> Owner(later, sid) == u)
    {
      assert sid in Members(st, u);
    }
    forall u | Covered(st, u) ensures Covered(later, u) {
      forall sid | sid in later.sessions && Owner(later, sid) == u
        ensures sid in Members(later, u) && later.index[u].expiry >= later.sessions[sid].expiry
      {
        assert sid in Members(st, u);
      }
    }
  }

  /** Baselines go away with their sessions only. */
  ghost predicate KeysReduced(st: Store, later: Store) {
    && later.countries.Keys <= st.countries.Keys && later.devices.Keys <= st.devices.Keys
    && (forall sid | sid in later.sessions && sid in st.countries ::
          sid in later.countries && later.countries[sid] == st.countries[sid])
    && (forall sid | sid in later.sessions && sid in st.devices ::
          sid in later.devices && later.devices[sid] == st.devices[sid])
  }

  /** Sessions and index members only go away, and no live session is unindexed. */
  ghost predicate Reduced(st: Store, later: Store) {
    && later.now == st.now && KeysReduced(st, later)
    && (forall sid | sid in later.sessions ::
          && sid in st.sessions && SameIdentity(st.sessions[sid].value, later.sessions[sid].value)
          && later.sessions[sid].expiry == st.sessions[sid].expiry)
    && (forall u | u in later.index :: u in st.index && later.index[u].expiry == st.index[u].expiry)
    && (forall u, sid | sid in Members(later, u) :: sid in Members(st, u))
    && (forall u, sid | sid in Members(st, u) && sid in later.sessions :: sid in Members(later, u))
  }

  lemma ReductionKeeps(st: Store, issued: set<Sid>, later: Store)
    requires Sound(st, issued)
    requires Reduced(st, later)
    ensures Keeps(st, issued, later)
  {
    forall u | Covered(st, u) ensures Covered(later, u) {
      forall sid | sid in later.sessions && Owner(later, sid) == u
        ensures sid in Members(later, u) && later.index[u].expiry >= later.sessions[sid].expiry
      {
        assert sid in st.sessions && Owner(st, sid) == u;
      }
    }
  }

  lemma UnindexedIs(st: Store, u: Subject, sids: set<Sid>)
    ensures var later := Unindexed(st, u, sids);
            && later.sessions == st.sessions && later.now == st.now
            && later.countries == st.countries && later.devices == st.devices
            && later.moduleTokens == st.moduleTokens
            && Members(later, u) == Members(st, u) - sids
            && (forall v | v != u :: Members(later, v) == Members(st, v))
            && (forall v | v in later.index :: v in st.index && later.index[v].expiry == st.index[v].expiry)
  {
    assert Members(st, u) !! sids ==> Members(st, u) == Members(st, u) - sids;
  }

  lemma KilledIs(st: Store, sids: set<Sid>)
    ensures Killed(st, sids).now == st.now && Killed(st, sids).index == st.index
    ensures forall u :: Members(Killed(st, sids), u) == Members(st, u)
    ensures forall sid :: sid in Killed(st, sids).sessions <==> sid in st.sessions && sid !in sids
  {
  }

  /** Killing sessions and unindexing dead ones never uncovers a live one. */
  lemma KillReduces(st: Store, sids: set<Sid>, u: Subject)
    ensures Reduced(st, Killed(st, sids)) && Reduced(st, Unindexed(Killed(st, sids), u, sids))
  {
    KilledIs(st, sids);
    UnindexedIs(Killed(st, sids), u, sids);
  }

  lemma KillKeeps(st: Store, issued: set<Sid>, sids: set<Sid>, u: Subject)
    requires Sound(st, issued)
    ensures Keeps(st, issued, Killed(st, sids))
    ensures Keeps(st, issued, Unindexed(Killed(st, sids), u, sids))
  {
    KillReduces(st, sids, u);
    ReductionKeeps(st, issued, Killed(st, sids));
    ReductionKeeps(st, issued, Unindexed(Killed(st, sids), u, sids));
  }

  /** A validated session lives a full SessionTTL again and so does its owner's index,
      if the index still exists; nobody else's keys change. */
  lemma ValidateKeeps(st: Store, issued: set<Sid>, sid: Sid, c: Client)
    requires Sound(st, issued)
    ensures Keeps(st, issued, Validated(st, sid, c))
  {
    var later := Validated(st, sid, c);
    if sid in st.sessions && sid != "" {
      var owner := Owner(st, sid);
      if OverAge(st, st.sessions[sid].value) {
        KillKeeps(st, issued, {sid}, owner);
      } else {
        SlideKeeps(st, issued, sid, later);
      }
    }
  }

  lemma SlideKeeps(st: Store, issued: set<Sid>, sid: Sid, later: Store)
    requires Sound(st, issued) && sid in st.sessions
    requires later.now == st.now
    requires later.sessions == Rearm(st.sessions, sid, st.now + SESSION_TTL)
    requires later.index == Rearm(st.index, Owner(st, sid), st.now + SESSION_TTL)
    ensures Keeps(st, issued, later)
  {
    assert forall u :: Members(later, u) == Members(st, u);
    forall u | Covered(st, u) ensures Covered(later, u) {
      forall s | s in later.sessions && Owner(later, s) == u
        ensures s in Members(later, u) && later.index[u].expiry >= later.sessions[s].expiry
      {
        assert s in st.sessions && Owner(st, s) == u && s in Members(st, u);
      }
    }
  }

  lemma RevokeUserReduces(st: Store, u: Subject)
    ensures Reduced(st, UserRevoked(st, u))
  {
    KilledIs(st, Members(st, u));
  }

  lemma RevokeUserKeeps(st: Store, issued: set<Sid>, u: Subject)
    requires Sound(st, issued)
    ensures Keeps(st, issued, UserRevoked(st, u))
  {
    RevokeUserReduces(st, u);
    ReductionKeeps(st, issued, UserRevoked(st, u));
  }

  lemma RevokeByIdReduces(st: Store, id: Sid)
    ensures Reduced(st, RevokedById(st, id))
  {
    if Revocable(st, id) { KillReduces(st, {id}, Owner(st, id)); }
  }

  lemma RevokeByIdKeeps(st: Store, issued: set<Sid>, id: Sid)
    requires Sound(st, issued)
    ensures Keeps(st, issued, RevokedById(st, id))
  {
    RevokeByIdReduces(st, id);
    ReductionKeeps(st, issued, RevokedById(st, id));
  }

  lemma OwnRevokeReduces(st: Store, u: Subject, id: Sid)
    ensures Reduced(st, OwnRevoked(st, u, id))
  {
    if OwnRevocable(st, u, id) { KillReduces(st, {id}, u); }
  }

  lemma OwnRevokeKeeps(st: Store, issued: set<Sid>, u: Subject, id: Sid)
    requires Sound(st, issued)
    ensures Keeps(st, issued, OwnRevoked(st, u, id))
  {
    OwnRevokeReduces(st, u, id);
    ReductionKeeps(st, issued, OwnRevoked(st, u, id));
  }

  lemma LogoutReduces(st: Store, sid: Sid)
    ensures Reduced(st, LoggedOut(st, sid))
  {
    KillReduces(st, {sid}, "");
  }

  lemma LogoutKeeps(st: Store, issued: set<Sid>, sid: Sid)
    requires Sound(st, issued)
    ensures Keeps(st, issued, LoggedOut(st, sid))
  {
    LogoutReduces(st, sid);
    ReductionKeeps(st, issued, LoggedOut(st, sid));
  }

  lemma CleanReduces(st: Store, u: Subject)
    ensures Reduced(st, Cleaned(st, u))
  {
    UnindexedIs(st, u, Dead(st, u));
  }

  lemma CleanKeeps(st: Store, issued: set<Sid>, u: Subject)
    requires Sound(st, issued)
    ensures Keeps(st, issued, Cleaned(st, u))
  {
    CleanReduces(st, u);
    ReductionKeeps(st, issued, Cleaned(st, u));
  }

  lemma RevalidateReduces(st: Store, issued: set<Sid>, sid: Sid, v: Verdict)
    requires Sound(st, issued)
    ensures Reduced(st, Revalidated(st, sid, v))
  {
    if sid in st.sessions && st.sessions[sid].value.refreshToken != "" {
      if Rejects(st.sessions[sid].value, v) {
        KillReduces(st, {sid}, Owner(st, sid));
      } else {
        RefreshedIs(st, sid, v);
      }
    }
  }

  /** Revalidation keeps the remaining lifetime of a session it does not kill. */
  lemma RevalidateKeeps(st: Store, issued: set<Sid>, sid: Sid, v: Verdict)
    requires Sound(st, issued)
    ensures Keeps(st, issued, Revalidated(st, sid, v))
    ensures var later := Revalidated(st, sid, v);
            sid in later.sessions ==> later.sessions[sid].expiry == st.sessions[sid].expiry
  {
    RevalidateReduces(st, issued, sid, v);
    ReductionKeeps(st, issued, Revalidated(st, sid, v));
  }

  lemma RefreshedIs(st: Store, sid: Sid, v: Verdict)
    requires sid in st.sessions && st.sessions[sid].value.refreshToken != ""
    requires !Rejects(st.sessions[sid].value, v) && st.now < st.sessions[sid].expiry
    ensures var s := st.sessions[sid].value.(profile := v.profile, refreshToken := v.refreshToken);
            && Revalidated(st, sid, v) == st.(sessions := st.sessions[sid := Entry(s, st.sessions[sid].expiry)])
            && SameIdentity(st.sessions[sid].value, s)
    ensures Reduced(st, Revalidated(st, sid, v))
  {
  }

  lemma MintReduces(st: Store, token: string, name: string, sid: Sid)
    ensures Reduced(st, Minted(st, token, name, sid))
  {
  }

  /** A login with a fresh id adds that one session, indexed and covered. */
  lemma CreateKeeps(st: Store, issued: set<Sid>, sid: Sid, s: Session)
    requires Sound(st, issued) && sid != "" && sid !in issued && s.createdAt <= st.now
    ensures var later := Created(st, sid, s);
            && Sound(later, issued + {sid})
            && sid in later.sessions
            && (forall other | other in st.sessions ::
                  other in later.sessions && later.sessions[other] == st.sessions[other])
            && later.sessions.Keys == st.sessions.Keys + {sid}
            && (forall u | Covered(st, u) :: Covered(later, u))
  {
    var later := Created(st, sid, s);
    assert Members(later, s.userId) == Members(st, s.userId) + {sid};
    assert forall u | u != s.userId :: Members(later, u) == Members(st, u);
    forall u, m | m in Members(later, u)
      ensures m in issued + {sid} && (m in later.sessions ==> Owner(later, m) == u)
    {
      if m != sid { assert m in Members(st, u); }
    }
    forall u | Covered(st, u) ensures Covered(later, u) {
      forall m | m in later.sessions && Owner(later, m) == u
        ensures m in Members(later, u) && later.index[u].expiry >= later.sessions[m].expiry
      {
        if m != sid { assert m in st.sessions && m in Members(st, u); }
      }
    }
  }

  lemma RoleUpdatedIs(st: Store, u: Subject, role: string, locked: bool)
    ensures var later := RoleUpdated(st, u, role, locked);
            && later.now == st.now && later.sessions.Keys == st.sessions.Keys
            && later.countries == st.countries && later.devices == st.devices
            && later.moduleTokens == st.moduleTokens
            && (forall sid | sid in st.sessions ::
                  if sid in Members(st, u)
                  then later.sessions[sid] == Entry(st.sessions[sid].value.(role := role, locked := locked),
                                                    st.now + SESSION_TTL)
                  else later.sessions[sid] == st.sessions[sid])
            && Members(later, u) == Members(st, u) - Dead(st, u)
            && (forall v | v != u :: Members(later, v) == Members(st, v))
            && (forall v | v in later.index :: v in st.index && later.index[v].expiry == st.index[v].expiry)
  {
    var m := Reroled(st.sessions, Members(st, u), role, locked, st.now + SESSION_TTL);
    SameIndexSameMembers(st, m);
    UnindexedIs(st.(sessions := m), u, Dead(st, u));
    assert RoleUpdated(st, u, role, locked).sessions == m;
  }

  lemma SameIndexSameMembers(st: Store, m: map<Sid, Entry<Session>>)
    ensures forall v :: Members(st.(sessions := m), v) == Members(st, v)
  {
  }

  lemma UpdateRoleIsSound(st: Store, issued: set<Sid>, u: Subject, role: string, locked: bool)
    requires Sound(st, issued)
    ensures Sound(RoleUpdated(st, u, role, locked), issued)
  {
    RoleUpdatedIs(st, u, role, locked);
  }

  lemma UpdateRoleOthers(st: Store, issued: set<Sid>, u: Subject, role: string, locked: bool, v: Subject)
    requires Sound(st, issued) && v != u && Covered(st, v)
    ensures Covered(RoleUpdated(st, u, role, locked), v)
  {
    var later := RoleUpdated(st, u, role, locked);
    RoleUpdatedIs(st, u, role, locked);
    forall sid | sid in later.sessions && Owner(later, sid) == v
      ensures sid in Members(later, v) && later.index[v].expiry >= later.sessions[sid].expiry
    {
      assert sid in st.sessions && Owner(st, sid) == v && sid !in Members(st, u);
    }
  }

  /** A role update keeps every live session, its owner and its age, and keeps the
      members of the index that are alive; but it renews only the session keys, so
      the index may now end before them. */
  lemma UpdateRoleKeeps(st: Store, issued: set<Sid>, u: Subject, role: string, locked: bool)
    requires Sound(st, issued)
    ensures var later := RoleUpdated(st, u, role, locked);
            && Sound(later, issued)
            && (Indexed(st, u) ==> Indexed(later, u))
            && (forall v | v != u && Covered(st, v) :: Covered(later, v))
  {
    UpdateRoleIsSound(st, issued, u, role, locked);
    forall v | v != u && Covered(st, v) ensures Covered(RoleUpdated(st, u, role, locked), v) {
      UpdateRoleOthers(st, issued, u, role, locked, v);
    }
    RoleUpdatedIs(st, u, role, locked);
  }

  // ---- what follows about the operations ------------------------------------------------

  /** While the index is alive, validating any one session of the user makes the index
      cover all of them again, whatever role updates did before. */
  lemma ValidationRestoresCoverage(st: Store, issued: set<Sid>, u: Subject, sid: Sid, c: Client)
    requires Sound(st, issued) && Indexed(st, u)
    requires Validates(st, sid) && Owner(st, sid) == u
    ensures Covered(Validated(st, sid, c), u)
  {
    var later := Validated(st, sid, c);
    forall s | s in later.sessions && Owner(later, s) == u
      ensures s in Members(later, u) && later.index[u].expiry >= later.sessions[s].expiry
    {
      assert s in st.sessions && Owner(st, s) == u && s in Members(st, u);
    }
  }

  /** The index still holds the user's sessions as long as it has not expired. */
  lemma IndexedUntilExpiry(st: Store, issued: set<Sid>, u: Subject, d: nat)
    requires Sound(st, issued) && Indexed(st, u)
    requires u in st.index && st.now + d < st.index[u].expiry
    ensures Indexed(Tick(st, d), u)
  {
    var later := Tick(st, d);
    forall sid | sid in later.sessions && Owner(later, sid) == u ensures sid in Members(later, u) {
      assert sid in st.sessions && sid in Members(st, u);
    }
  }

  /** Revoking a user ends exactly the sessions the index holds: with the index
      complete all of the user's, and never anybody else's. */
  lemma RevokeUserIsComplete(st: Store, issued: set<Sid>, u: Subject)
    requires Sound(st, issued)
    ensures var later := UserRevoked(st, u);
            && (forall sid | sid in st.sessions && Owner(st, sid) != u ::
                  sid in later.sessions && later.sessions[sid] == st.sessions[sid])
            && ((forall sid | sid in later.sessions :: Owner(later, sid) != u) <==> Indexed(st, u))
  {
    var later := UserRevoked(st, u);
    KilledIs(st, Members(st, u));
    forall sid | Indexed(st, u) && sid in later.sessions ensures Owner(later, sid) != u {
      assert sid in st.sessions && sid !in Members(st, u);
    }
  }

  /** Listing a user's sessions through the index shows what a scan of all sessions
      would show for that owner exactly when the index is complete. */
  lemma IndexListingIsScan(st: Store, issued: set<Sid>, u: Subject)
    requires Sound(st, issued)
    ensures UserListing(st, u) == (set a | a in FullListing(st) && a.session.userId == u) <==> Indexed(st, u)
  {
    var scan := set a | a in FullListing(st) && a.session.userId == u;
    forall a | a in UserListing(st, u) ensures a in scan {
      var sid :| sid in Members(st, u) && sid in st.sessions && a == Shown(st, sid);
      assert a in FullListing(st);
    }
    if Indexed(st, u) {
      forall a | a in scan ensures a in UserListing(st, u) {
        var sid :| sid in st.sessions && a == Shown(st, sid);
        assert Owner(st, sid) == u;
      }
    }
    if UserListing(st, u) == scan {
      forall sid | sid in st.sessions && Owner(st, sid) == u ensures sid in Members(st, u) {
        assert Shown(st, sid) in FullListing(st);
        assert Shown(st, sid) in UserListing(st, u);
        var s :| s in Members(st, u) && s in st.sessions && Shown(st, s) == Shown(st, sid);
        assert s == sid by { assert Shown(st, s).sid == s && Shown(st, sid).sid == sid; }
      }
    }
  }

  /** The cleanup done while listing removes dead members only. */
  lemma CleanupRemovesDeadOnly(st: Store, issued: set<Sid>, u: Subject)
    requires Sound(st, issued)
    ensures Members(Cleaned(st, u), u) == Members(st, u) * st.sessions.Keys
    ensures Cleaned(st, u).sessions == st.sessions
    ensures forall v | v != u :: Members(Cleaned(st, u), v) == Members(st, v)
  {
    UnindexedIs(st, u, Dead(st, u));
    assert Members(st, u) - Dead(st, u) == Members(st, u) * st.sessions.Keys;
  }

  /** Ending one's own session through the index succeeds exactly when a direct lookup
      finds a live session of the caller, and then does what the direct revocation does. */
  lemma OwnRevokeIsDirect(st: Store, issued: set<Sid>, u: Subject, id: Sid)
    requires Sound(st, issued) && Indexed(st, u)
    ensures OwnRevocable(st, u, id) <==> id in st.sessions && Owner(st, id) == u
    ensures OwnRevocable(st, u, id) ==> OwnRevoked(st, u, id) == RevokedById(st, id)
  {
  }

  /** After any revocation the ended session is out of every index. */
  lemma RevokedIsUnindexed(st: Store, issued: set<Sid>, id: Sid, u: Subject)
    requires Sound(st, issued) && Revocable(st, id)
    ensures id !in Members(RevokedById(st, id), u) && id !in RevokedById(st, id).sessions
    ensures forall sid | sid != id :: sid in Members(RevokedById(st, id), u) <==> sid in Members(st, u)
  {
    KilledIs(st, {id});
    UnindexedIs(Killed(st, {id}), Owner(st, id), {id});
  }
}
