/** The session keyspace of Valkey and what each session operation does to it. The
    clock counts whole seconds and is never zero (zero is the unset timestamp); a
    key disappears when the clock reaches its expiry. Keys of different prefixes
    live in different maps. A session is named by its id, the digest of its bearer
    token; "" is no session. */
module SessionStore {
  import opened Wrappers

  type Sid = string
  type Subject = string

  const SESSION_TTL: nat := 86400
  const SESSION_ABSOLUTE_MAX_AGE: nat := 30 * 86400
  const MODULE_TOKEN_TTL: nat := 1200
  const ROLE_ADMIN := "admin"
  const ROLE_PENDING := "pending"

  /** `profile` stands for the claims that are only displayed. */
  datatype Session = Session(
    userId: Subject,
    role: string,
    locked: bool,
    createdAt: nat,
    country: string,
    userAgent: string,
    profile: string,
    refreshToken: string)

  datatype ModuleToken = ModuleToken(name: string, sid: Sid)

  datatype Entry<V> = Entry(value: V, expiry: nat)

  datatype Store = Store(
    now: nat,
    sessions: map<Sid, Entry<Session>>,
    index: map<Subject, Entry<set<Sid>>>,
    countries: map<Sid, Entry<string>>,
    devices: map<Sid, Entry<string>>,
    moduleTokens: map<string, Entry<ModuleToken>>)

  /** What the request's headers say about where it comes from. */
  datatype Client = Client(country: string, userAgent: string)

  /** What the IdP answers when a refresh token is presented. */
  datatype Verdict =
    | Refused
    | Honoured(subject: Subject, profile: string, refreshToken: string)

  datatype ActiveSession = ActiveSession(sid: Sid, session: Session, expiresIn: nat, lastActiveAgo: nat)

  // ---- the clock ---------------------------------------------------------------------

  function Alive<K, V>(m: map<K, Entry<V>>, now: nat): map<K, Entry<V>> {
    map k | k in m && now < m[k].expiry :: m[k]
  }

  function Tick(st: Store, d: nat): Store {
    var now := st.now + d;
    Store(now, Alive(st.sessions, now), Alive(st.index, now),
          Alive(st.countries, now), Alive(st.devices, now), Alive(st.moduleTokens, now))
  }

  function Rearm<K, V>(m: map<K, Entry<V>>, k: K, expiry: nat): map<K, Entry<V>> {
    if k in m then m[k := Entry(m[k].value, expiry)] else m
  }

  // ---- keys and index -----------------------------------------------------------------

  function Members(st: Store, subject: Subject): set<Sid> {
    if subject in st.index then st.index[subject].value else {}
  }

  /** Removing the last member removes the set. */
  function Unindexed(st: Store, subject: Subject, sids: set<Sid>): Store {
    if Members(st, subject) !! sids then st
    else
      var left := st.index[subject].value - sids;
      if left == {} then st.(index := st.index - {subject})
      else st.(index := st.index[subject := Entry(left, st.index[subject].expiry)])
  }

  /** The session keys and the two anomaly baselines of `sids` are gone. */
  function Killed(st: Store, sids: set<Sid>): Store {
    st.(sessions := st.sessions - sids, countries := st.countries - sids, devices := st.devices - sids)
  }

  function Created(st: Store, sid: Sid, session: Session): Store {
    var s := if session.createdAt == 0 then session.(createdAt := st.now) else session;
    st.(sessions := st.sessions[sid := Entry(s, st.now + SESSION_TTL)],
        index := st.index[s.userId := Entry(Members(st, s.userId) + {sid}, st.now + SESSION_TTL)])
  }

  // ---- anomaly baselines ----------------------------------------------------------------

  predicate BaselineChanged(baseline: string, current: string) {
    baseline != "" && current != "" && baseline != current
  }

  /** What a request is reported against, if it is reported as an anomaly. */
  function Report(baseline: string, current: string): Option<string> {
    if BaselineChanged(baseline, current) then Some(baseline) else None
  }

  function Baseline(m: map<Sid, Entry<string>>, sid: Sid, login: string): string {
    if sid in m && m[sid].value != "" then m[sid].value else login
  }

  function Observed(m: map<Sid, Entry<string>>, sid: Sid, login: string, current: string, now: nat)
    : map<Sid, Entry<string>>
  {
    if current == "" then m
    else if Baseline(m, sid, login) == current then Rearm(m, sid, now + SESSION_TTL)
    else m[sid := Entry(current, now + SESSION_TTL)]
  }

  // ---- validation ------------------------------------------------------------------------

  predicate OverAge(st: Store, s: Session) {
    s.createdAt != 0 && st.now > s.createdAt + SESSION_ABSOLUTE_MAX_AGE
  }

  predicate Validates(st: Store, sid: Sid) {
    sid != "" && sid in st.sessions && !OverAge(st, st.sessions[sid].value)
  }

  function Validated(st: Store, sid: Sid, c: Client): Store {
    if sid == "" || sid !in st.sessions then st
    else
      var s := st.sessions[sid].value;
      if OverAge(st, s) then Unindexed(Killed(st, {sid}), s.userId, {sid})
      else
        st.(sessions := Rearm(st.sessions, sid, st.now + SESSION_TTL),
            index := Rearm(st.index, s.userId, st.now + SESSION_TTL),
            countries := Observed(st.countries, sid, s.country, c.country, st.now),
            devices := Observed(st.devices, sid, s.userAgent, c.userAgent, st.now))
  }

  // ---- revocation, role updates, listing ---------------------------------------------------

  function UserRevoked(st: Store, subject: Subject): Store {
    var k := Killed(st, Members(st, subject));
    k.(index := k.index - {subject})
  }

  predicate Revocable(st: Store, id: Sid) {
    id != "" && id in st.sessions
  }

  function RevokedById(st: Store, id: Sid): Store {
    if Revocable(st, id) then Unindexed(Killed(st, {id}), st.sessions[id].value.userId, {id}) else st
  }

  predicate OwnRevocable(st: Store, subject: Subject, id: Sid) {
    id != "" && id in Members(st, subject) && id in st.sessions && st.sessions[id].value.userId == subject
  }

  function OwnRevoked(st: Store, subject: Subject, id: Sid): Store {
    if OwnRevocable(st, subject, id) then Unindexed(Killed(st, {id}), subject, {id}) else st
  }

  /** Logout leaves the index alone. */
  function LoggedOut(st: Store, sid: Sid): Store {
    if sid == "" then st else Killed(st, {sid})
  }

  function Dead(st: Store, subject: Subject): set<Sid> {
    Members(st, subject) - st.sessions.Keys
  }

  function Reroled(m: map<Sid, Entry<Session>>, who: set<Sid>, role: string, locked: bool, expiry: nat)
    : map<Sid, Entry<Session>>
  {
    map sid | sid in m :: if sid in who then Entry(m[sid].value.(role := role, locked := locked), expiry) else m[sid]
  }

  /** Every indexed live session gets the role and a fresh lifetime; dead members go. */
  function RoleUpdated(st: Store, subject: Subject, role: string, locked: bool): Store {
    Unindexed(
      st.(sessions := Reroled(st.sessions, Members(st, subject), role, locked, st.now + SESSION_TTL)),
      subject, Dead(st, subject))
  }

  function Shown(st: Store, sid: Sid): ActiveSession
    requires sid in st.sessions
  {
    var e := st.sessions[sid];
    var ttl := if e.expiry > st.now then e.expiry - st.now else 0;
    ActiveSession(sid, e.value, ttl, if SESSION_TTL > ttl then SESSION_TTL - ttl else 0)
  }

  function UserListing(st: Store, subject: Subject): set<ActiveSession> {
    set sid | sid in Members(st, subject) && sid in st.sessions :: Shown(st, sid)
  }

  function FullListing(st: Store): set<ActiveSession> {
    set sid | sid in st.sessions :: Shown(st, sid)
  }

  function Cleaned(st: Store, subject: Subject): Store {
    Unindexed(st, subject, Dead(st, subject))
  }

  // ---- revalidation at the IdP ----------------------------------------------------------

  predicate Rejects(s: Session, v: Verdict) {
    v.Refused? || (v.subject != "" && v.subject != s.userId)
  }

  /** A session with no refresh token is left alone; a rejected one is killed; otherwise
      the claims are refreshed and the remaining lifetime is kept. */
  function Revalidated(st: Store, sid: Sid, v: Verdict): Store {
    if sid !in st.sessions || st.sessions[sid].value.refreshToken == "" then st
    else
      var e := st.sessions[sid];
      if Rejects(e.value, v) then Unindexed(Killed(st, {sid}), e.value.userId, {sid})
      else
        var s := e.value.(profile := v.profile, refreshToken := v.refreshToken);
        var ttl := if e.expiry > st.now then e.expiry - st.now else SESSION_TTL;
        st.(sessions := st.sessions[sid := Entry(s, st.now + ttl)])
  }

  // ---- module tokens ------------------------------------------------------------------------

  function Minted(st: Store, token: string, name: string, sid: Sid): Store {
    st.(moduleTokens := st.moduleTokens[token := Entry(ModuleToken(name, sid), st.now + MODULE_TOKEN_TTL)])
  }

  /** The session a module token leads to when presented against module `name`. */
  function ModuleSid(st: Store, token: string, name: string): Sid {
    if token != "" && token in st.moduleTokens && st.moduleTokens[token].value.name == name
    then st.moduleTokens[token].value.sid
    else ""
  }
}
