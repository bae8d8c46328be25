/** The session operations, step by step against Valkey's commands. */
module Sessions {
  import opened Wrappers
  import opened SessionStore

  class Valkey {
    var now: nat
    var sessions: map<Sid, Entry<Session>>
    var index: map<Subject, Entry<set<Sid>>>
    var countries: map<Sid, Entry<string>>
    var devices: map<Sid, Entry<string>>
    var moduleTokens: map<string, Entry<ModuleToken>>

    ghost function View(): Store
      reads this
    {
      Store(now, sessions, index, countries, devices, moduleTokens)
    }

    constructor (now: nat)
      ensures View() == Store(now, map[], map[], map[], map[], map[])
    {
      this.now := now;
      sessions, index, countries, devices, moduleTokens := map[], map[], map[], map[], map[];
    }

    method Advance(d: nat)
      modifies this
      ensures View() == Tick(old(View()), d)
    {
      var later := Tick(Store(now, sessions, index, countries, devices, moduleTokens), d);
      now, sessions, index := later.now, later.sessions, later.index;
      countries, devices, moduleTokens := later.countries, later.devices, later.moduleTokens;
    }

    // ---- commands on the index ------------------------------------------------------

    method AddSetMember(subject: Subject, sid: Sid, ttl: nat)
      modifies this`index
      ensures var members := Members(old(View()), subject) + {sid};
              View() == old(View()).(index := old(index)[subject := Entry(members, now + ttl)])
    {
      var members := if subject in index then index[subject].value else {};
      index := index[subject := Entry(members + {sid}, now + ttl)];
    }

    method RemoveSetMember(subject: Subject, sid: Sid)
      modifies this`index
      ensures View() == Unindexed(old(View()), subject, {sid})
    {
      if subject in index && sid in index[subject].value {
        var left := index[subject].value - {sid};
        index := if left == {} then index - {subject}
                 else index[subject := Entry(left, index[subject].expiry)];
      }
    }

    /** The members, each once, in some order. */
    method SetMembers(subject: Subject) returns (sids: seq<Sid>)
      ensures forall sid :: sid in sids <==> sid in Members(View(), subject)
      ensures forall i, j | 0 <= i < j < |sids| :: sids[i] != sids[j]
    {
      var left := if subject in index then index[subject].value else {};
      ghost var all := left;
      sids := [];
      while left != {}
        invariant left <= all && forall sid :: sid in sids <==> sid in all - left
        invariant forall i, j | 0 <= i < j < |sids| :: sids[i] != sids[j]
        decreases left
      {
        var sid :| sid in left;
        assert sid !in sids;
        sids, left := sids + [sid], left - {sid};
      }
    }

    method KillKeys(sid: Sid)
      modifies this`sessions, this`countries, this`devices
      ensures View() == Killed(old(View()), {sid})
    {
      sessions := sessions - {sid};
      countries := countries - {sid};
      devices := devices - {sid};
    }

    // ---- session operations --------------------------------------------------------------

    method CreateSession(sid: Sid, session: Session)
      modifies this
      ensures View() == Created(old(View()), sid, session)
    {
      var s := session;
      if s.createdAt == 0 {
        s := s.(createdAt := now);
      }
      sessions := sessions[sid := Entry(s, now + SESSION_TTL)];
      AddSetMember(s.userId, sid, SESSION_TTL);
    }

    method CheckCountry(sid: Sid, login: string, current: string) returns (report: Option<string>)
      modifies this`countries
      ensures View() == old(View()).(countries := Observed(old(countries), sid, login, current, now))
      ensures report == Report(Baseline(old(countries), sid, login), current)
    {
      if current == "" {
        return None;
      }
      var baseline := login;
      if sid in countries && countries[sid].value != "" {
        baseline := countries[sid].value;
      }
      report := if BaselineChanged(baseline, current) then Some(baseline) else None;
      if baseline == current {
        if sid in countries {
          countries := countries[sid := Entry(countries[sid].value, now + SESSION_TTL)];
        }
        return;
      }
      countries := countries[sid := Entry(current, now + SESSION_TTL)];
    }

    method CheckDevice(sid: Sid, login: string, current: string) returns (report: Option<string>)
      modifies this`devices
      ensures View() == old(View()).(devices := Observed(old(devices), sid, login, current, now))
      ensures report == Report(Baseline(old(devices), sid, login), current)
    {
      if current == "" {
        return None;
      }
      var baseline := login;
      if sid in devices && devices[sid].value != "" {
        baseline := devices[sid].value;
      }
      report := if BaselineChanged(baseline, current) then Some(baseline) else None;
      if baseline == current {
        if sid in devices {
          devices := devices[sid := Entry(devices[sid].value, now + SESSION_TTL)];
        }
        return;
      }
      devices := devices[sid := Entry(current, now + SESSION_TTL)];
    }

    method ValidateSessionById(sid: Sid, c: Client) returns (found: Option<Session>)
      modifies this
      ensures View() == Validated(old(View()), sid, c)
      ensures found == if Validates(old(View()), sid) then Some(old(sessions)[sid].value) else None
    {
      if sid == "" || sid !in sessions {
        return None;
      }
      var s := sessions[sid].value;
      if s.createdAt != 0 && now > s.createdAt + SESSION_ABSOLUTE_MAX_AGE {
        KillKeys(sid);
        RemoveSetMember(s.userId, sid);
        return None;
      }
      sessions := sessions[sid := Entry(s, now + SESSION_TTL)];
      index := Rearm(index, s.userId, now + SESSION_TTL);
      var moved := CheckCountry(sid, s.country, c.country);
      var switched := CheckDevice(sid, s.userAgent, c.userAgent);
      return Some(s);
    }

    method RevokeUserSessions(subject: Subject)
      modifies this
      ensures View() == UserRevoked(old(View()), subject)
    {
      var sids := SetMembers(subject);
      ghost var before := View();
      ghost var done: set<Sid> := {};
      for i := 0 to |sids|
        invariant done == set sid | sid in sids[..i]
        invariant View() == Killed(before, done)
      {
        KillKeys(sids[i]);
        KilledTwice(before, done, {sids[i]});
        done := done + {sids[i]};
      }
      assert done == Members(before, subject);
      index := index - {subject};
    }

    method RevokeSessionById(id: Sid) returns (ok: bool)
      modifies this
      ensures View() == RevokedById(old(View()), id)
      ensures ok <==> Revocable(old(View()), id)
    {
      if id == "" || id !in sessions {
        return false;
      }
      var owner := sessions[id].value.userId;
      KillKeys(id);
      RemoveSetMember(owner, id);
      return true;
    }

    method RevokeOwnSessionById(subject: Subject, id: Sid) returns (ok: bool)
      modifies this
      ensures View() == OwnRevoked(old(View()), subject, id)
      ensures ok <==> OwnRevocable(old(View()), subject, id)
    {
      if id == "" {
        return false;
      }
      var sids := SetMembers(subject);
      for i := 0 to |sids|
        invariant View() == old(View()) && forall j | 0 <= j < i :: sids[j] != id
      {
        if sids[i] == id {
          if id !in sessions || sessions[id].value.userId != subject {
            return false;
          }
          KillKeys(id);
          RemoveSetMember(subject, id);
          return true;
        }
      }
      return false;
    }

    method DeleteSession(sid: Sid)
      modifies this
      ensures View() == LoggedOut(old(View()), sid)
    {
      if sid != "" {
        KillKeys(sid);
      }
    }

    /** Rewrites the subject's live sessions one by one and drops members whose session
        is gone. */
    method UpdateSessionsRole(subject: Subject, role: string, locked: bool)
      modifies this
      ensures View() == RoleUpdated(old(View()), subject, role, locked)
    {
      var sids := SetMembers(subject);
      ghost var before := View();
      ghost var done: set<Sid> := {};
      for i := 0 to |sids|
        invariant done == set sid | sid in sids[..i]
        invariant View() == PartlyUpdated(before, subject, role, locked, done)
      {
        var sid := sids[i];
        PartlyUpdatedNext(before, subject, role, locked, done, sid);
        UpdateSessionRole(subject, sid, role, locked);
        done := done + {sid};
      }
      assert done == Members(before, subject);
    }

    method UpdateSessionRole(subject: Subject, sid: Sid, role: string, locked: bool)
      modifies this
      ensures View() == OneUpdated(old(View()), subject, sid, role, locked)
    {
      if sid in sessions {
        var s := sessions[sid].value;
        sessions := sessions[sid := Entry(s.(role := role, locked := locked), now + SESSION_TTL)];
      } else {
        RemoveSetMember(subject, sid);
      }
    }

    /** The live sessions of one user; members whose session is gone are dropped. */
    method ListActiveSessionsForUser(subject: Subject) returns (out: seq<ActiveSession>)
      modifies this
      ensures View() == Cleaned(old(View()), subject)
      ensures forall a :: a in out <==> a in UserListing(old(View()), subject)
      ensures EachOnce(out)
    {
      var sids := SetMembers(subject);
      ghost var before := View();
      ghost var done: set<Sid> := {};
      out := [];
      for i := 0 to |sids|
        invariant done == set sid | sid in sids[..i]
        invariant View() == Unindexed(before, subject, done - before.sessions.Keys)
        invariant ShowsExactly(out, before, done) && EachOnce(out)
      {
        var sid := sids[i];
        UnindexedNext(before, subject, done, sid);
        ShowsNext(out, before, done, sid);
        if sid in sessions {
          assert Shown(View(), sid) == Shown(before, sid);
          out := out + [Shown(Store(now, sessions, index, countries, devices, moduleTokens), sid)];
        } else {
          RemoveSetMember(subject, sid);
        }
        done := done + {sid};
      }
      assert done == Members(before, subject);
      assert done - before.sessions.Keys == Dead(before, subject);
    }

    /** Every live session, from a scan of the session keys. */
    method ListActiveSessions() returns (out: seq<ActiveSession>)
      ensures forall a :: a in out <==> a in FullListing(View())
      ensures EachOnce(out)
    {
      var keys := sessions.Keys;
      out := [];
      while keys != {}
        invariant keys <= sessions.Keys
        invariant ShowsExactly(out, View(), sessions.Keys - keys) && EachOnce(out)
        decreases keys
      {
        var sid :| sid in keys;
        ShowsNext(out, View(), sessions.Keys - keys, sid);
        assert sessions.Keys - keys + {sid} == sessions.Keys - (keys - {sid});
        out := out + [Shown(Store(now, sessions, index, countries, devices, moduleTokens), sid)];
        keys := keys - {sid};
      }
    }

    method RevalidateSession(sid: Sid, v: Verdict) returns (revoked: bool)
      modifies this
      ensures View() == Revalidated(old(View()), sid, v)
      ensures revoked <==> sid in old(sessions) && old(sessions)[sid].value.refreshToken != ""
                           && Rejects(old(sessions)[sid].value, v)
    {
      if sid !in sessions {
        return false;
      }
      var s := sessions[sid].value;
      if s.refreshToken == "" {
        return false;
      }
      if v.Refused? || (v.subject != "" && v.subject != s.userId) {
        KillKeys(sid);
        RemoveSetMember(s.userId, sid);
        return true;
      }
      var ttl: nat := SESSION_TTL;
      if sessions[sid].expiry > now {
        ttl := sessions[sid].expiry - now;
      }
      sessions := sessions[sid := Entry(s.(profile := v.profile, refreshToken := v.refreshToken), now + ttl)];
      return false;
    }

    method CreateModuleToken(token: string, name: string, sid: Sid)
      modifies this
      ensures View() == Minted(old(View()), token, name, sid)
    {
      moduleTokens := moduleTokens[token := Entry(ModuleToken(name, sid), now + MODULE_TOKEN_TTL)];
    }

    method ValidateModuleToken(token: string, name: string, c: Client) returns (found: Option<Session>)
      modifies this
      ensures var sid := ModuleSid(old(View()), token, name);
              && View() == Validated(old(View()), sid, c)
              && found == if Validates(old(View()), sid) then Some(old(sessions)[sid].value) else None
    {
      if token == "" || token !in moduleTokens {
        return None;
      }
      var rec := moduleTokens[token].value;
      if rec.name != name {
        return None;
      }
      found := ValidateSessionById(rec.sid, c);
    }
  }

  /** No session is listed twice. */
  ghost predicate EachOnce(out: seq<ActiveSession>) {
    forall i, j | 0 <= i < j < |out| :: out[i].sid != out[j].sid
  }

  /** `out` lists the live sessions among `sids`. */
  ghost predicate ShowsExactly(out: seq<ActiveSession>, st: Store, sids: set<Sid>) {
    forall a :: a in out <==> exists sid :: sid in sids && sid in st.sessions && a == Shown(st, sid)
  }

  lemma ShowsNext(out: seq<ActiveSession>, st: Store, sids: set<Sid>, sid: Sid)
    requires ShowsExactly(out, st, sids) && EachOnce(out) && sid !in sids
    ensures sid in st.sessions ==>
              ShowsExactly(out + [Shown(st, sid)], st, sids + {sid}) && EachOnce(out + [Shown(st, sid)])
    ensures sid !in st.sessions ==> ShowsExactly(out, st, sids + {sid})
  {
    forall i | 0 <= i < |out| ensures out[i].sid in sids {
      assert out[i] in out;
    }
  }

  lemma KilledTwice(st: Store, a: set<Sid>, b: set<Sid>)
    ensures Killed(Killed(st, a), b) == Killed(st, a + b)
  {
    var k := Killed(Killed(st, a), b);
    assert k.sessions == st.sessions - (a + b);
    assert k.countries == st.countries - (a + b);
    assert k.devices == st.devices - (a + b);
  }

  /** UpdateSessionsRole after the members in `done`. */
  ghost function PartlyUpdated(st: Store, subject: Subject, role: string, locked: bool, done: set<Sid>): Store {
    Unindexed(
      st.(sessions := Reroled(st.sessions, done, role, locked, st.now + SESSION_TTL)),
      subject, done - st.sessions.Keys)
  }

  lemma ReroledNext(m: map<Sid, Entry<Session>>, done: set<Sid>, role: string, locked: bool, expiry: nat, sid: Sid)
    ensures var p := Reroled(m, done, role, locked, expiry);
            && p.Keys == m.Keys
            && Reroled(m, done + {sid}, role, locked, expiry)
               == (if sid in m then p[sid := Entry(m[sid].value.(role := role, locked := locked), expiry)] else p)
            && (sid in m ==>
                  p[sid].value.(role := role, locked := locked) == m[sid].value.(role := role, locked := locked))
  {
  }

  /** UpdateSessionsRole's loop body for one member. */
  ghost function OneUpdated(st: Store, subject: Subject, sid: Sid, role: string, locked: bool): Store {
    if sid in st.sessions then
      var s := st.sessions[sid].value.(role := role, locked := locked);
      st.(sessions := st.sessions[sid := Entry(s, st.now + SESSION_TTL)])
    else
      Unindexed(st, subject, {sid})
  }

  lemma PartlyUpdatedNext(st: Store, subject: Subject, role: string, locked: bool, done: set<Sid>, sid: Sid)
    ensures OneUpdated(PartlyUpdated(st, subject, role, locked, done), subject, sid, role, locked)
         == PartlyUpdated(st, subject, role, locked, done + {sid})
  {
    var expiry, live := st.now + SESSION_TTL, st.sessions.Keys;
    ReroledNext(st.sessions, done, role, locked, expiry, sid);
    UnindexedNext(st, subject, done, sid);
    var m1 := Reroled(st.sessions, done, role, locked, expiry);
    var m2 := Reroled(st.sessions, done + {sid}, role, locked, expiry);
    UnindexedFrame(st, m1, subject, done - live);
    UnindexedFrame(st, m2, subject, (done + {sid}) - live);
    UnindexedFrame(Unindexed(st, subject, done - live), m1, subject, {sid});
  }

  /** The index and the session keys do not interfere. */
  lemma UnindexedFrame(st: Store, m: map<Sid, Entry<Session>>, subject: Subject, sids: set<Sid>)
    ensures Unindexed(st.(sessions := m), subject, sids) == Unindexed(st, subject, sids).(sessions := m)
    ensures Unindexed(st, subject, sids).sessions == st.sessions && Unindexed(st, subject, sids).now == st.now
  {
  }

  /** Dropping dead members one by one is dropping them together. */
  lemma UnindexedNext(st: Store, subject: Subject, done: set<Sid>, sid: Sid)
    ensures var live := st.sessions.Keys;
            Unindexed(st, subject, (done + {sid}) - live)
            == if sid in live then Unindexed(st, subject, done - live)
               else Unindexed(Unindexed(st, subject, done - live), subject, {sid})
  {
    var live := st.sessions.Keys;
    if sid in live {
      assert (done + {sid}) - live == done - live;
    } else {
      assert (done + {sid}) - live == (done - live) + {sid};
      UnindexedTwice(st, subject, done - live, {sid});
    }
  }

  lemma UnindexedTwice(st: Store, subject: Subject, a: set<Sid>, b: set<Sid>)
    ensures Unindexed(Unindexed(st, subject, a), subject, b) == Unindexed(st, subject, a + b)
  {
    var all := Members(st, subject);
    assert all - (a + b) == (all - a) - b;
    if all !! a {
      assert all - a == all;
    } else if all - a != {} {
      var once := st.index[subject := Entry(all - a, st.index[subject].expiry)];
      assert once - {subject} == st.index - {subject};
      if all - a !! b {
        assert all - a - b == all - a;
      } else {
        assert once[subject := Entry(all - a - b, once[subject].expiry)]
            == st.index[subject := Entry(all - a - b, st.index[subject].expiry)];
      }
    }
  }
}
