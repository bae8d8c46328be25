/** The users table and the session store together, as the login, logout, admin and
    self-service handlers change them. One action is one request. */
module Accounts {
  import opened Wrappers
  import opened SessionStore
  import opened SessionFacts

  const REAUTH_WINDOW: nat := 900

  datatype User = User(profile: string, role: string, approved: bool, locked: bool)

  /** What the properties speak of besides the state: ids handed out, when a session was
      last created, validated or given a role, which ones were ever given a role, and when
      a user last logged in or made a request. */
  datatype History = History(issued: set<Sid>, touched: map<Sid, nat>, reroled: set<Sid>, seen: map<Subject, nat>)

  datatype System = System(store: Store, users: map<Subject, User>, history: History)

  /** What the IdP says about whoever logs in, with the role its groups derive to. */
  datatype Claims = Claims(subject: Subject, role: string, profile: string, refreshToken: string)

  datatype Action =
    | Elapse(d: nat)
    | Login(sid: Sid, claims: Claims, c: Client)
    | Request(who: Sid, c: Client)
    | Logout(who: Sid, c: Client)
    | Approve(who: Sid, c: Client, u: Subject)
    | Lock(who: Sid, c: Client, u: Subject)
    | Unlock(who: Sid, c: Client, u: Subject)
    | Delete(who: Sid, c: Client, u: Subject)
    | DeleteSelf(who: Sid, c: Client)
    | EndSession(who: Sid, c: Client, id: Sid)
    | EndOwn(who: Sid, c: Client, id: Sid)
    | ListOwn(who: Sid, c: Client)
    | Revalidate(sid: Sid, v: Verdict)
    | Mint(who: Sid, c: Client, token: string, name: string)
    | ModuleRequest(token: string, name: string, c: Client)

  const START := System(Store(1, map[], map[], map[], map[], map[]), map[], History({}, map[], {}, map[]))

  // ---- guards ---------------------------------------------------------------------------

  function Admins(users: map<Subject, User>): set<Subject> {
    set u | u in users && users[u].role == ROLE_ADMIN
  }

  /** The wizard counts as complete while an admin row exists; OIDC and the group prefix
      are taken to stay configured. */
  predicate WizardComplete(users: map<Subject, User>) {
    Admins(users) != {}
  }

  predicate LastAdmin(users: map<Subject, User>, u: Subject) {
    u in users && users[u].role == ROLE_ADMIN && |Admins(users)| <= 1
  }

  predicate RecentLogin(now: nat, s: Session) {
    now <= s.createdAt + REAUTH_WINDOW
  }

  predicate Active(s: Session) {
    s.role != ROLE_PENDING && !s.locked
  }

  /** The session a request arrives with, if it validates. */
  function Caller(sys: System, sid: Sid): Option<Session> {
    if Validates(sys.store, sid) then Some(sys.store.sessions[sid].value) else None
  }

  /** The caller may manage users right now. */
  predicate ManagesUsers(sys: System, who: Sid) {
    var s := Caller(sys, who);
    s.Some? && s.value.role == ROLE_ADMIN && RecentLogin(sys.store.now, s.value)
  }

  /** The caller may lock or delete the account `u`, which exists. */
  predicate MayRemove(sys: System, who: Sid, u: Subject) {
    && ManagesUsers(sys, who) && u != ""
    && u != Caller(sys, who).value.userId && !LastAdmin(sys.users, u)
    && u in sys.users
  }

  predicate MayDeleteSelf(sys: System, who: Sid) {
    var s := Caller(sys, who);
    && s.Some? && RecentLogin(sys.store.now, s.value)
    && !LastAdmin(sys.users, s.value.userId) && s.value.userId in sys.users
  }

  /** The module token, presented for this module, leads to a session that validates. */
  predicate Opens(sys: System, token: string, name: string) {
    Caller(sys, ModuleSid(sys.store, token, name)).Some?
  }

  function SessionBehind(sys: System, token: string, name: string): Session
    requires Opens(sys, token, name)
  {
    Caller(sys, ModuleSid(sys.store, token, name)).value
  }

  // ---- one request -----------------------------------------------------------------------

  function Touch(h: History, sids: set<Sid>, now: nat): History {
    h.(touched := map sid | sid in h.touched.Keys + sids :: if sid in sids then now else h.touched[sid])
  }

  /** The session `sid` of user `u` is created or validated. */
  function Met(h: History, sid: Sid, u: Subject, now: nat): History {
    Touch(h, {sid}, now).(seen := h.seen[u := now])
  }

  /** Every request with a session cookie validates it once. */
  function Visit(sys: System, sid: Sid, c: Client): System {
    sys.(store := Validated(sys.store, sid, c),
         history := if Validates(sys.store, sid)
                    then Met(sys.history, sid, sys.store.sessions[sid].value.userId, sys.store.now)
                    else sys.history)
  }

  function Upserted(users: map<Subject, User>, claims: Claims, approved: bool): map<Subject, User> {
    if claims.subject in users
    then users[claims.subject := users[claims.subject].(profile := claims.profile, role := claims.role)]
    else users[claims.subject := User(claims.profile, claims.role, approved, false)]
  }

  predicate GateApproved(users: map<Subject, User>, u: Subject) {
    !WizardComplete(users) || (u in users && users[u].approved)
  }

  predicate GateLocked(users: map<Subject, User>, u: Subject) {
    WizardComplete(users) && u in users && users[u].locked
  }

  function LoginSession(sys: System, claims: Claims, c: Client): Session {
    var locked := GateLocked(sys.users, claims.subject);
    var role := if locked || !GateApproved(sys.users, claims.subject) then ROLE_PENDING else claims.role;
    Session(claims.subject, role, locked, sys.store.now, c.country, c.userAgent, claims.profile, claims.refreshToken)
  }

  /** Ids are fresh random values; nobody without a group gets past the first gate. */
  predicate LoginPasses(sys: System, sid: Sid, claims: Claims) {
    sid != "" && sid !in sys.history.issued && claims.role != ROLE_PENDING
  }

  function LoggedIn(sys: System, sid: Sid, claims: Claims, c: Client): System {
    System(Created(sys.store, sid, LoginSession(sys, claims, c)),
           Upserted(sys.users, claims, GateApproved(sys.users, claims.subject)),
           Met(sys.history.(issued := sys.history.issued + {sid}), sid, claims.subject, sys.store.now))
  }

  function LiveMembers(st: Store, u: Subject): set<Sid> {
    Members(st, u) * st.sessions.Keys
  }

  function Approved(sys: System, u: Subject): System
    requires u in sys.users
  {
    var live := LiveMembers(sys.store, u);
    var h := Touch(sys.history, live, sys.store.now);
    System(RoleUpdated(sys.store, u, sys.users[u].role, false),
           sys.users[u := sys.users[u].(approved := true)],
           h.(reroled := h.reroled + live))
  }

  function Locked(sys: System, u: Subject): System
    requires u in sys.users
  {
    sys.(users := sys.users[u := sys.users[u].(locked := true)], store := UserRevoked(sys.store, u))
  }

  function Deleted(sys: System, u: Subject): System {
    sys.(users := sys.users - {u}, store := UserRevoked(sys.store, u))
  }

  /** The session a request visits first, "" if it visits none. */
  function VisitorOf(sys: System, a: Action): Sid {
    match a
    case Elapse(_) => ""
    case Login(_, _, _) => ""
    case Revalidate(_, _) => ""
    case ModuleRequest(token, name, _) => ModuleSid(sys.store, token, name)
    case _ => a.who
  }

  function Visited(sys: System, a: Action): System {
    if VisitorOf(sys, a) == "" then sys else Visit(sys, VisitorOf(sys, a), a.c)
  }

  /** What the handler makes of the state `v` after the visit. Who the caller is was
      settled in `sys`, before the visit renewed the session. */
  function Finished(sys: System, v: System, a: Action): System {
    match a
    case Elapse(d) => v.(store := Tick(v.store, d))
    case Login(sid, claims, c) => if LoginPasses(v, sid, claims) then LoggedIn(v, sid, claims, c) else v
    case Request(_, _) => v
    case Logout(who, _) => v.(store := LoggedOut(v.store, who))
    case Approve(who, _, u) =>
      if ManagesUsers(sys, who) && u != "" && u in v.users then Approved(v, u) else v
    case Lock(who, _, u) => if MayRemove(sys, who, u) && u in v.users then Locked(v, u) else v
    case Unlock(who, _, u) =>
      if ManagesUsers(sys, who) && u != "" && u in v.users
      then v.(users := v.users[u := v.users[u].(locked := false)]) else v
    case Delete(who, _, u) => if MayRemove(sys, who, u) then Deleted(v, u) else v
    case DeleteSelf(who, _) => if MayDeleteSelf(sys, who) then Deleted(v, Caller(sys, who).value.userId) else v
    case EndSession(who, _, id) =>
      if Caller(sys, who).Some? && Caller(sys, who).value.role == ROLE_ADMIN
      then v.(store := RevokedById(v.store, id)) else v
    case EndOwn(who, _, id) =>
      if Caller(sys, who).Some? && Active(Caller(sys, who).value)
      then v.(store := OwnRevoked(v.store, Caller(sys, who).value.userId, id)) else v
    case ListOwn(who, _) =>
      if Caller(sys, who).Some? && Active(Caller(sys, who).value)
      then v.(store := Cleaned(v.store, Caller(sys, who).value.userId)) else v
    case Revalidate(sid, verdict) => v.(store := Revalidated(v.store, sid, verdict))
    case Mint(who, _, token, name) =>
      if Caller(sys, who).Some? && Active(Caller(sys, who).value)
      then v.(store := Minted(v.store, token, name, who)) else v
    case ModuleRequest(_, _, _) => v
  }

  /** One request: the visit, then the handler. */
  function Step(sys: System, a: Action): System {
    Finished(sys, Visited(sys, a), a)
  }

  function Run(sys: System, actions: seq<Action>): System
    decreases |actions|
  {
    if actions == [] then sys else Run(Step(sys, actions[0]), actions[1..])
  }
}
