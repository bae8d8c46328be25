/** The handlers that log people in and out and manage accounts, working on the users
    table and on Valkey. Each one is a single action of the system it runs on. */
module AccountServer {
  import opened Wrappers
  import opened SessionStore
  import opened Sessions
  import opened Accounts

  datatype Status = Done | Unauthorized | Forbidden | BadRequest | NotFound | AccessDenied

  class Server {
    const valkey: Valkey
    var users: map<Subject, User>
    ghost var history: History

    ghost function System(): System
      reads this, valkey
    {
      Accounts.System(valkey.View(), users, history)
    }

    constructor ()
      ensures System() == START && fresh(valkey)
    {
      valkey := new Valkey(1);
      users := map[];
      history := History({}, map[], {}, map[]);
    }

    // ---- the users table --------------------------------------------------------------

    method UpsertUser(claims: Claims, approved: bool) returns (wasNew: bool)
      modifies this`users
      ensures users == Upserted(old(users), claims, approved)
      ensures wasNew <==> claims.subject !in old(users)
    {
      wasNew := claims.subject !in users;
      if wasNew {
        users := users[claims.subject := User(claims.profile, claims.role, approved, false)];
      } else {
        var row := users[claims.subject];
        users := users[claims.subject := User(claims.profile, claims.role, row.approved, row.locked)];
      }
    }

    method UserApproved(u: Subject) returns (approved: bool)
      ensures approved <==> u in users && users[u].approved
    {
      if u !in users { return false; }
      return users[u].approved;
    }

    method UserLocked(u: Subject) returns (locked: bool)
      ensures locked <==> u in users && users[u].locked
    {
      if u !in users { return false; }
      return users[u].locked;
    }

    method ApproveUser(u: Subject) returns (affected: nat)
      modifies this`users
      ensures users == if u in old(users) then old(users)[u := old(users)[u].(approved := true)] else old(users)
      ensures affected == if u in old(users) then 1 else 0
    {
      if u !in users { return 0; }
      users := users[u := users[u].(approved := true)];
      return 1;
    }

    method SetLocked(u: Subject, locked: bool) returns (affected: nat)
      modifies this`users
      ensures users == if u in old(users) then old(users)[u := old(users)[u].(locked := locked)] else old(users)
      ensures affected == if u in old(users) then 1 else 0
    {
      if u !in users { return 0; }
      users := users[u := users[u].(locked := locked)];
      return 1;
    }

    method DeleteUser(u: Subject) returns (affected: nat)
      modifies this`users
      ensures users == old(users) - {u}
      ensures affected == if u in old(users) then 1 else 0
    {
      affected := if u in users then 1 else 0;
      users := users - {u};
    }

    // ---- guards -----------------------------------------------------------------------

    method SessionFromRequest(who: Sid, c: Client) returns (s: Option<Session>)
      modifies this`history, valkey
      ensures System() == Visit(old(System()), who, c)
      ensures s == Caller(old(System()), who)
    {
      ghost var before := System();
      s := valkey.ValidateSessionById(who, c);
      history := Visit(before, who, c).history;
    }

    /** The caller as an administrator whose login is recent enough. */
    method RequireRecentAdmin(who: Sid, c: Client) returns (s: Result<Session, Status>)
      modifies this`history, valkey
      ensures System() == Visit(old(System()), who, c)
      ensures s.Ok? <==> ManagesUsers(old(System()), who)
      ensures s.Ok? ==> Some(s.value) == Caller(old(System()), who)
      ensures s.Err? ==> s.error == if Caller(old(System()), who).None? then Unauthorized else Forbidden
    {
      var caller := SessionFromRequest(who, c);
      if caller.None? { return Err(Unauthorized); }
      if caller.value.role != ROLE_ADMIN { return Err(Forbidden); }
      if valkey.now > caller.value.createdAt + REAUTH_WINDOW { return Err(Forbidden); }
      return Ok(caller.value);
    }

    method RequireActive(who: Sid, c: Client) returns (s: Result<Session, Status>)
      modifies this`history, valkey
      ensures System() == Visit(old(System()), who, c)
      ensures s.Ok? <==> Caller(old(System()), who).Some? && Active(Caller(old(System()), who).value)
      ensures s.Ok? ==> Some(s.value) == Caller(old(System()), who)
      ensures s.Err? ==> s.error == if Caller(old(System()), who).None? then Unauthorized else Forbidden
    {
      var caller := SessionFromRequest(who, c);
      if caller.None? { return Err(Unauthorized); }
      if caller.value.role == ROLE_PENDING || caller.value.locked { return Err(Forbidden); }
      return Ok(caller.value);
    }

    method GuardAgainstLastAdmin(u: Subject) returns (blocked: bool)
      ensures blocked <==> LastAdmin(users, u)
    {
      if u !in users || users[u].role != ROLE_ADMIN { return false; }
      return |Admins(users)| <= 1;
    }

    // ---- login and logout ----------------------------------------------------------------

    /** What follows the token exchange: gate 1 on the derived role, gate 2 on approval
        and lock, the row, the session. `sid` is the digest of a fresh random token. */
    method Callback(sid: Sid, claims: Claims, c: Client) returns (status: Status)
      requires sid != "" && sid !in history.issued
      modifies this, valkey
      ensures System() == Step(old(System()), Login(sid, claims, c))
      ensures status == if claims.role == ROLE_PENDING then AccessDenied else Done
    {
      ghost var before := System();
      if claims.role == ROLE_PENDING { return AccessDenied; }
      var approved, locked := true, false;
      if Admins(users) != {} {
        approved := UserApproved(claims.subject);
        locked := UserLocked(claims.subject);
      }
      var wasNew := UpsertUser(claims, approved);
      var sessionRole, sessionLocked := claims.role, false;
      if locked {
        sessionRole, sessionLocked := ROLE_PENDING, true;
      } else if !approved {
        sessionRole := ROLE_PENDING;
      }
      valkey.CreateSession(sid, Session(claims.subject, sessionRole, sessionLocked, valkey.now, c.country,
                                        c.userAgent, claims.profile, claims.refreshToken));
      history := LoggedIn(before, sid, claims, c).history;
      return Done;
    }

    method LogoutHandler(who: Sid, c: Client) returns (status: Status)
      modifies this`history, valkey
      ensures System() == Step(old(System()), Logout(who, c))
      ensures status == if who == "" then Unauthorized else Done
    {
      if who == "" { return Unauthorized; }
      var caller := SessionFromRequest(who, c);
      valkey.DeleteSession(who);
      return Done;
    }

    // ---- user management ------------------------------------------------------------------

    method ApproveHandler(who: Sid, c: Client, u: Subject) returns (status: Status)
      modifies this, valkey
      ensures System() == Step(old(System()), Approve(who, c, u))
      ensures status == if Caller(old(System()), who).None? then Unauthorized
                        else if !ManagesUsers(old(System()), who) then Forbidden
                        else if u == "" then BadRequest
                        else if u !in old(users) then NotFound else Done
    {
      ghost var before := System();
      var admin := RequireRecentAdmin(who, c);
      if admin.Err? { return admin.error; }
      if u == "" { return BadRequest; }
      ghost var visited := System();
      var affected := ApproveUser(u);
      if affected == 0 { return NotFound; }
      valkey.UpdateSessionsRole(u, users[u].role, false);
      history := Approved(visited, u).history;
      return Done;
    }

    method LockHandler(who: Sid, c: Client, u: Subject) returns (status: Status)
      modifies this, valkey
      ensures System() == Step(old(System()), Lock(who, c, u))
      ensures status == if Caller(old(System()), who).None? then Unauthorized
                        else if !ManagesUsers(old(System()), who) then Forbidden
                        else if u == "" || u == Caller(old(System()), who).value.userId || LastAdmin(old(users), u)
                             then BadRequest
                        else if u !in old(users) then NotFound else Done
    {
      var admin := RequireRecentAdmin(who, c);
      if admin.Err? { return admin.error; }
      if u == "" || u == admin.value.userId { return BadRequest; }
      var blocked := GuardAgainstLastAdmin(u);
      if blocked { return BadRequest; }
      var affected := SetLocked(u, true);
      if affected == 0 { return NotFound; }
      valkey.RevokeUserSessions(u);
      return Done;
    }

    method UnlockHandler(who: Sid, c: Client, u: Subject) returns (status: Status)
      modifies this, valkey
      ensures System() == Step(old(System()), Unlock(who, c, u))
      ensures status == if Caller(old(System()), who).None? then Unauthorized
                        else if !ManagesUsers(old(System()), who) then Forbidden
                        else if u == "" then BadRequest
                        else if u !in old(users) then NotFound else Done
    {
      var admin := RequireRecentAdmin(who, c);
      if admin.Err? { return admin.error; }
      if u == "" { return BadRequest; }
      var affected := SetLocked(u, false);
      return if affected == 0 then NotFound else Done;
    }

    method DeleteHandler(who: Sid, c: Client, u: Subject) returns (status: Status)
      modifies this, valkey
      ensures System() == Step(old(System()), Delete(who, c, u))
      ensures status == if Caller(old(System()), who).None? then Unauthorized
                        else if !ManagesUsers(old(System()), who) then Forbidden
                        else if u == "" || u == Caller(old(System()), who).value.userId || LastAdmin(old(users), u)
                             then BadRequest
                        else if u !in old(users) then NotFound else Done
    {
      var admin := RequireRecentAdmin(who, c);
      if admin.Err? { return admin.error; }
      if u == "" || u == admin.value.userId { return BadRequest; }
      var blocked := GuardAgainstLastAdmin(u);
      if blocked { return BadRequest; }
      var affected := DeleteUser(u);
      if affected == 0 {
        assert users == old(users);
        return NotFound;
      }
      valkey.RevokeUserSessions(u);
      return Done;
    }

    /** Unlike the other handlers this one lets pending sessions through. */
    method DeleteSelfHandler(who: Sid, c: Client) returns (status: Status)
      modifies this, valkey
      ensures System() == Step(old(System()), DeleteSelf(who, c))
      ensures var s := Caller(old(System()), who);
              status == if s.None? then Unauthorized
                        else if !RecentLogin(old(valkey.now), s.value) then Forbidden
                        else if LastAdmin(old(users), s.value.userId) then BadRequest
                        else if s.value.userId !in old(users) then NotFound else Done
    {
      var caller := SessionFromRequest(who, c);
      if caller.None? { return Unauthorized; }
      var u := caller.value.userId;
      if valkey.now > caller.value.createdAt + REAUTH_WINDOW { return Forbidden; }
      var blocked := GuardAgainstLastAdmin(u);
      if blocked { return BadRequest; }
      var affected := DeleteUser(u);
      if affected == 0 {
        assert users == old(users);
        return NotFound;
      }
      valkey.RevokeUserSessions(u);
      return Done;
    }

    // ---- sessions --------------------------------------------------------------------------

    method RevokeSessionHandler(who: Sid, c: Client, id: Sid) returns (status: Status)
      modifies this`history, valkey
      ensures System() == Step(old(System()), EndSession(who, c, id))
      ensures status == if Caller(old(System()), who).None? then Unauthorized
                        else if Caller(old(System()), who).value.role != ROLE_ADMIN then Forbidden
                        else if id == "" then BadRequest
                        else if id !in Visit(old(System()), who, c).store.sessions then NotFound else Done
    {
      var caller := SessionFromRequest(who, c);
      if caller.None? { return Unauthorized; }
      if caller.value.role != ROLE_ADMIN { return Forbidden; }
      var found := valkey.RevokeSessionById(id);
      return if id == "" then BadRequest else if found then Done else NotFound;
    }

    method RevokeMySessionHandler(who: Sid, c: Client, id: Sid) returns (status: Status)
      modifies this`history, valkey
      ensures System() == Step(old(System()), EndOwn(who, c, id))
      ensures status == if Caller(old(System()), who).None? then Unauthorized
                        else if !Active(Caller(old(System()), who).value) then Forbidden
                        else if id == "" then BadRequest
                        else if OwnRevocable(Visit(old(System()), who, c).store,
                                             Caller(old(System()), who).value.userId, id) then Done
                        else NotFound
    {
      var caller := RequireActive(who, c);
      if caller.Err? { return caller.error; }
      var found := valkey.RevokeOwnSessionById(caller.value.userId, id);
      return if id == "" then BadRequest else if found then Done else NotFound;
    }

    method MySessionsHandler(who: Sid, c: Client) returns (out: Result<seq<ActiveSession>, Status>)
      modifies this`history, valkey
      ensures System() == Step(old(System()), ListOwn(who, c))
      ensures out.Ok? <==> Caller(old(System()), who).Some? && Active(Caller(old(System()), who).value)
      ensures out.Err? ==> out.error == if Caller(old(System()), who).None? then Unauthorized else Forbidden
      ensures out.Ok? ==>
                var v := Visit(old(System()), who, c);
                forall a :: a in out.value <==> a in UserListing(v.store, Caller(old(System()), who).value.userId)
    {
      var caller := RequireActive(who, c);
      if caller.Err? { return Err(caller.error); }
      var own := valkey.ListActiveSessionsForUser(caller.value.userId);
      return Ok(own);
    }

    method ModuleTokenHandler(who: Sid, c: Client, token: string, name: string) returns (status: Status)
      modifies this`history, valkey
      ensures System() == Step(old(System()), Mint(who, c, token, name))
      ensures status == if Caller(old(System()), who).None? then Unauthorized
                        else if !Active(Caller(old(System()), who).value) then Forbidden else Done
    {
      var caller := RequireActive(who, c);
      if caller.Err? { return caller.error; }
      valkey.CreateModuleToken(token, name, who);
      return Done;
    }

    method ModuleRequestHandler(token: string, name: string, c: Client) returns (status: Status)
      modifies this`history, valkey
      ensures System() == Step(old(System()), ModuleRequest(token, name, c))
      ensures status == if !Opens(old(System()), token, name) then Unauthorized
                        else if !Active(SessionBehind(old(System()), token, name)) then Forbidden else Done
    {
      ghost var before := System();
      var s := valkey.ValidateModuleToken(token, name, c);
      history := Visit(before, ModuleSid(before.store, token, name), c).history;
      if s.None? { return Unauthorized; }
      return if s.value.role == ROLE_PENDING || s.value.locked then Forbidden else Done;
    }

    method MeHandler(who: Sid, c: Client) returns (status: Status)
      modifies this`history, valkey
      ensures System() == Step(old(System()), Request(who, c))
      ensures status == if Caller(old(System()), who).Some? then Done else Unauthorized
    {
      var s := SessionFromRequest(who, c);
      return if s.None? then Unauthorized else Done;
    }

    // ---- everything that can happen ------------------------------------------------------------

    /** Any one action of a run, done by the code. Ids of new sessions are fresh. */
    method Serve(a: Action) returns (status: Status)
      requires a.Login? ==> a.sid != "" && a.sid !in history.issued
      modifies this, valkey
      ensures System() == Step(old(System()), a)
    {
      match a {
        case Elapse(d) => valkey.Advance(d); status := Done;
        case Login(sid, claims, c) => status := Callback(sid, claims, c);
        case Request(who, c) => status := MeHandler(who, c);
        case Logout(who, c) => status := LogoutHandler(who, c);
        case Approve(who, c, u) => status := ApproveHandler(who, c, u);
        case Lock(who, c, u) => status := LockHandler(who, c, u);
        case Unlock(who, c, u) => status := UnlockHandler(who, c, u);
        case Delete(who, c, u) => status := DeleteHandler(who, c, u);
        case DeleteSelf(who, c) => status := DeleteSelfHandler(who, c);
        case EndSession(who, c, id) => status := RevokeSessionHandler(who, c, id);
        case EndOwn(who, c, id) => status := RevokeMySessionHandler(who, c, id);
        case ListOwn(who, c) =>
          var out := MySessionsHandler(who, c);
          status := if out.Ok? then Done else out.error;
        case Revalidate(sid, v) =>
          var revoked := valkey.RevalidateSession(sid, v);
          status := Done;
        case Mint(who, c, token, name) => status := ModuleTokenHandler(who, c, token, name);
        case ModuleRequest(token, name, c) => status := ModuleRequestHandler(token, name, c);
      }
    }
  }
}
