/** The startup migration that encrypts what was stored in plain text, step by step, as a
    crash may cut it off between any two writes. */
module Migration {
  import opened Wrappers
  import opened Crypto

  const FLAG := "core_encryption_version"
  const SETTINGS: seq<string> := [
    "smtp_host", "smtp_username", "smtp_from_address",
    "oidc_issuer_url", "oidc_client_id"]

  datatype Person = Person(email: string, name: string)

  datatype State = State(users: map<string, Person>, settings: map<string, string>, feeds: map<int, string>)

  /** The values the migration is about. */
  datatype Item = Email(user: string) | Name(user: string) | Setting(key: string) | Feed(id: int)

  /** The loop iterations and the final write; each changes at most one row. */
  datatype Step = UserStep(user: string) | SettingStep(key: string) | FeedStep(id: int) | FlagStep

  /** One boot: it gets through `budget` steps, and the database lists rows in some order. */
  datatype Attempt = Attempt(budget: nat, userOrder: seq<string>, feedOrder: seq<int>, nonce: Item -> nat)

  datatype Outcome = Completed | Interrupted | Corrupt

  // ---- the version flag -------------------------------------------------------------------

  predicate Digits(s: string) {
    s != "" && forall ch | ch in s :: '0' <= ch <= '9'
  }

  function NumberOf(s: string): int {
    if s == "" then 0 else 10 * NumberOf(s[..|s| - 1]) + (s[|s| - 1] as int - '0' as int)
  }

  /** strconv.Atoi: an optional sign, decimal digits, within 64 bits. */
  function Atoi(s: string): Option<int> {
    var signed := s != "" && (s[0] == '-' || s[0] == '+');
    var digits := if signed then s[1..] else s;
    if !Digits(digits) then None
    else
      var n := if signed && s[0] == '-' then -NumberOf(digits) else NumberOf(digits);
      if -0x8000_0000_0000_0000 <= n <= 0x7fff_ffff_ffff_ffff then Some(n) else None
  }

  /** No flag counts as version 0; a flag that is not a number has no version. */
  function Version(s: State): Option<int> {
    if FLAG in s.settings then Atoi(s.settings[FLAG]) else Some(0)
  }

  // ---- one attempt --------------------------------------------------------------------------

  function Get(s: State, item: Item): string {
    match item
    case Email(u) => if u in s.users then s.users[u].email else ""
    case Name(u) => if u in s.users then s.users[u].name else ""
    case Setting(k) => if k in s.settings then s.settings[k] else ""
    case Feed(i) => if i in s.feeds then s.feeds[i] else ""
  }

  function Sealed(c: Cipher, n: nat, x: string): string {
    if x == "" then "" else c.seal(n, x)
  }

  function Perform(c: Cipher, s: State, step: Step, nonce: Item -> nat): State {
    match step
    case UserStep(u) =>
      if u !in s.users then s
      else
        var email := Sealed(c, nonce(Email(u)), s.users[u].email);
        var name := Sealed(c, nonce(Name(u)), s.users[u].name);
        s.(users := s.users[u := Person(email, name)])
    case SettingStep(k) =>
      if k !in s.settings || s.settings[k] == "" then s
      else s.(settings := s.settings[k := c.seal(nonce(Setting(k)), s.settings[k])])
    case FeedStep(i) =>
      if i !in s.feeds || s.feeds[i] == "" || c.open(s.feeds[i]).Some? then s
      else s.(feeds := s.feeds[i := c.seal(nonce(Feed(i)), s.feeds[i])])
    case FlagStep => s.(settings := s.settings[FLAG := "2"])
  }

  function PerformAll(c: Cipher, s: State, steps: seq<Step>, nonce: Item -> nat): State {
    if steps == [] then s
    else Perform(c, PerformAll(c, s, steps[..|steps| - 1], nonce), steps[|steps| - 1], nonce)
  }

  function UserSteps(order: seq<string>): (steps: seq<Step>)
    ensures |steps| == |order| && forall i | 0 <= i < |order| :: steps[i] == UserStep(order[i])
  {
    seq(|order|, i requires 0 <= i < |order| => UserStep(order[i]))
  }

  function SettingSteps(keys: seq<string>): (steps: seq<Step>)
    ensures |steps| == |keys| && forall i | 0 <= i < |keys| :: steps[i] == SettingStep(keys[i])
  {
    seq(|keys|, i requires 0 <= i < |keys| => SettingStep(keys[i]))
  }

  function FeedSteps(order: seq<int>): (steps: seq<Step>)
    ensures |steps| == |order| && forall i | 0 <= i < |order| :: steps[i] == FeedStep(order[i])
  {
    seq(|order|, i requires 0 <= i < |order| => FeedStep(order[i]))
  }

  function RowSteps(version: int, a: Attempt): seq<Step> {
    (if version < 1 then UserSteps(a.userOrder) + SettingSteps(SETTINGS) else []) + FeedSteps(a.feedOrder)
  }

  function Steps(version: int, a: Attempt): seq<Step> {
    RowSteps(version, a) + [FlagStep]
  }

  function Upto(steps: seq<Step>, budget: nat): seq<Step> {
    if budget <= |steps| then steps[..budget] else steps
  }

  /** The steps an attempt gets through. */
  function Executed(s: State, a: Attempt): seq<Step> {
    if Version(s).None? || Version(s).value >= 2 then [] else Upto(Steps(Version(s).value, a), a.budget)
  }

  function After(c: Cipher, s: State, a: Attempt): State {
    PerformAll(c, s, Executed(s, a), a.nonce)
  }

  function OutcomeOf(s: State, a: Attempt): Outcome {
    if Version(s).None? then Corrupt
    else if Version(s).value >= 2 || a.budget >= |Steps(Version(s).value, a)| then Completed
    else Interrupted
  }

  predicate Lists<T(==)>(order: seq<T>, rows: set<T>) {
    && (forall i | 0 <= i < |order| :: order[i] in rows)
    && (forall r | r in rows :: r in order)
    && (forall i, j | 0 <= i < j < |order| :: order[i] != order[j])
  }

  predicate Reads(s: State, a: Attempt) {
    Lists(a.userOrder, s.users.Keys) && Lists(a.feedOrder, s.feeds.Keys)
  }

  lemma PerformNext(c: Cipher, s: State, steps: seq<Step>, step: Step, nonce: Item -> nat)
    ensures PerformAll(c, s, steps + [step], nonce) == Perform(c, PerformAll(c, s, steps, nonce), step, nonce)
  {
    assert (steps + [step])[..|steps|] == steps;
  }

  lemma {:induction false} PerformBoth(c: Cipher, s: State, a: seq<Step>, b: seq<Step>, nonce: Item -> nat)
    ensures PerformAll(c, s, a + b, nonce) == PerformAll(c, PerformAll(c, s, a, nonce), b, nonce)
    decreases |b|
  {
    if b == [] {
      assert a + b == a;
    } else {
      var init := b[..|b| - 1];
      PerformBoth(c, s, a, init, nonce);
      assert a + b == a + init + [b[|b| - 1]];
      PerformNext(c, s, a + init, b[|b| - 1], nonce);
    }
  }

  function Minus(n: nat, k: nat): nat {
    if n >= k then n - k else 0
  }

  lemma UptoBoth(a: seq<Step>, b: seq<Step>, n: nat)
    ensures Upto(a + b, n) == Upto(a, n) + Upto(b, Minus(n, |a|))
  {
  }

  /** Going on with what is left of the budget is one attempt with the whole budget. */
  lemma AttemptInParts(c: Cipher, s: State, a: seq<Step>, b: seq<Step>, n: nat, nonce: Item -> nat)
    ensures PerformAll(c, PerformAll(c, s, Upto(a, n), nonce), Upto(b, Minus(n, |a|)), nonce)
         == PerformAll(c, s, Upto(a + b, n), nonce)
  {
    UptoBoth(a, b, n);
    PerformBoth(c, s, Upto(a, n), Upto(b, Minus(n, |a|)), nonce);
  }

  lemma UptoNext(steps: seq<Step>, i: nat)
    requires i < |steps|
    ensures steps[..i + 1] == steps[..i] + [steps[i]]
  {
  }

  // ---- the code ---------------------------------------------------------------------------------

  /** `left` counts the steps until the process dies; with none left nothing happens. */
  class Database {
    const cipher: Cipher
    var users: map<string, Person>
    var settings: map<string, string>
    var feeds: map<int, string>

    ghost function View(): State
      reads this
    {
      State(users, settings, feeds)
    }

    constructor (cipher: Cipher, s: State)
      ensures View() == s && this.cipher == cipher
    {
      this.cipher, users, settings, feeds := cipher, s.users, s.settings, s.feeds;
    }

    method MigrateToEncryptedStorage(a: Attempt) returns (outcome: Outcome)
      requires Reads(View(), a)
      modifies this
      ensures View() == After(cipher, old(View()), a)
      ensures outcome == OutcomeOf(old(View()), a)
    {
      var flag := ReadVersion();
      if flag.None? {
        return Corrupt;
      }
      var version := flag.value;
      if version >= 2 {
        return Completed;
      }
      ghost var s0 := View();
      var left := MigrateRows(version, a);
      AttemptInParts(cipher, s0, RowSteps(version, a), [FlagStep], a.budget, a.nonce);
      if left == 0 {
        assert Upto([FlagStep], 0) == [];
        return Interrupted;
      }
      PerformNext(cipher, View(), [], FlagStep, a.nonce);
      assert [] + [FlagStep] == [FlagStep];
      settings := settings[FLAG := "2"];
      return Completed;
    }

    method ReadVersion() returns (version: Option<int>)
      ensures version == Version(View())
    {
      if FLAG !in settings {
        return Some(0);
      }
      return Atoi(settings[FLAG]);
    }

    method MigrateRows(version: int, a: Attempt) returns (left: nat)
      requires Reads(View(), a)
      modifies this
      ensures View() == PerformAll(cipher, old(View()), Upto(RowSteps(version, a), a.budget), a.nonce)
      ensures left == Minus(a.budget, |RowSteps(version, a)|)
    {
      ghost var s0 := View();
      left := a.budget;
      if version < 1 {
        left := MigrateV1(a, left);
        left := MigrateV2NewsFeeds(a, left);
        AttemptInParts(cipher, s0, UserSteps(a.userOrder) + SettingSteps(SETTINGS), FeedSteps(a.feedOrder),
                       a.budget, a.nonce);
      } else {
        left := MigrateV2NewsFeeds(a, left);
        assert RowSteps(version, a) == FeedSteps(a.feedOrder);
      }
    }

    method MigrateV1(a: Attempt, budget: nat) returns (left: nat)
      requires Lists(a.userOrder, users.Keys)
      modifies this`users, this`settings
      ensures View() == PerformAll(cipher, old(View()),
                                   Upto(UserSteps(a.userOrder) + SettingSteps(SETTINGS), budget), a.nonce)
      ensures left == Minus(budget, |a.userOrder| + |SETTINGS|)
    {
      ghost var s0 := View();
      left := MigrateUsers(a, budget);
      left := MigrateSettings(a, left);
      AttemptInParts(cipher, s0, UserSteps(a.userOrder), SettingSteps(SETTINGS), budget, a.nonce);
    }

    /** Reads all rows, then rewrites them one by one. */
    method MigrateUsers(a: Attempt, budget: nat) returns (left: nat)
      requires Lists(a.userOrder, users.Keys)
      modifies this`users
      ensures View() == PerformAll(cipher, old(View()), Upto(UserSteps(a.userOrder), budget), a.nonce)
      ensures left == Minus(budget, |a.userOrder|)
    {
      var rows := ListUsers(a.userOrder);
      ghost var s0, steps := View(), UserSteps(a.userOrder);
      left := budget;
      for i := 0 to |rows|
        invariant left == budget - i && i <= budget
        invariant users.Keys == s0.users.Keys
        invariant View() == PerformAll(cipher, s0, steps[..i], a.nonce)
        invariant forall j | i <= j < |rows| :: rows[j] == users[a.userOrder[j]]
      {
        if left == 0 {
          return;
        }
        RewriteUser(a.userOrder[i], rows[i], a.nonce);
        left := left - 1;
        UptoNext(steps, i);
        PerformNext(cipher, s0, steps[..i], steps[i], a.nonce);
      }
      assert steps[..|rows|] == steps;
    }

    method ListUsers(order: seq<string>) returns (rows: seq<Person>)
      requires Lists(order, users.Keys)
      ensures |rows| == |order| && forall i | 0 <= i < |order| :: rows[i] == users[order[i]]
    {
      rows := [];
      for i := 0 to |order|
        invariant |rows| == i && forall j | 0 <= j < i :: rows[j] == users[order[j]]
      {
        rows := rows + [users[order[i]]];
      }
    }

    method RewriteUser(u: string, row: Person, nonce: Item -> nat)
      requires u in users && users[u] == row
      modifies this`users
      ensures View() == Perform(cipher, old(View()), UserStep(u), nonce)
      ensures users.Keys == old(users).Keys && forall v | v in users && v != u :: users[v] == old(users)[v]
    {
      var email := if row.email == "" then "" else cipher.seal(nonce(Email(u)), row.email);
      var name := if row.name == "" then "" else cipher.seal(nonce(Name(u)), row.name);
      users := users[u := Person(email, name)];
    }

    method MigrateSettings(a: Attempt, budget: nat) returns (left: nat)
      modifies this`settings
      ensures View() == PerformAll(cipher, old(View()), Upto(SettingSteps(SETTINGS), budget), a.nonce)
      ensures left == Minus(budget, |SETTINGS|)
    {
      ghost var s0, steps := View(), SettingSteps(SETTINGS);
      left := budget;
      for i := 0 to |SETTINGS|
        invariant left == budget - i && i <= budget
        invariant View() == PerformAll(cipher, s0, steps[..i], a.nonce)
      {
        if left == 0 {
          return;
        }
        RewriteSetting(SETTINGS[i], a.nonce);
        left := left - 1;
        UptoNext(steps, i);
        PerformNext(cipher, s0, steps[..i], steps[i], a.nonce);
      }
      assert steps[..|SETTINGS|] == steps;
    }

    method RewriteSetting(k: string, nonce: Item -> nat)
      modifies this`settings
      ensures View() == Perform(cipher, old(View()), SettingStep(k), nonce)
    {
      if k !in settings || settings[k] == "" {
        return;
      }
      settings := settings[k := cipher.seal(nonce(Setting(k)), settings[k])];
    }

    /** Reads all rows, then seals those that do not open yet. */
    method MigrateV2NewsFeeds(a: Attempt, budget: nat) returns (left: nat)
      requires Lists(a.feedOrder, feeds.Keys)
      modifies this`feeds
      ensures View() == PerformAll(cipher, old(View()), Upto(FeedSteps(a.feedOrder), budget), a.nonce)
      ensures left == Minus(budget, |a.feedOrder|)
    {
      var rows := ListFeeds(a.feedOrder);
      ghost var s0, steps := View(), FeedSteps(a.feedOrder);
      left := budget;
      for i := 0 to |rows|
        invariant left == budget - i && i <= budget
        invariant feeds.Keys == s0.feeds.Keys
        invariant View() == PerformAll(cipher, s0, steps[..i], a.nonce)
        invariant forall j | i <= j < |rows| :: rows[j] == feeds[a.feedOrder[j]]
      {
        if left == 0 {
          return;
        }
        RewriteFeed(a.feedOrder[i], rows[i], a.nonce);
        left := left - 1;
        UptoNext(steps, i);
        PerformNext(cipher, s0, steps[..i], steps[i], a.nonce);
      }
      assert steps[..|rows|] == steps;
    }

    method ListFeeds(order: seq<int>) returns (rows: seq<string>)
      requires Lists(order, feeds.Keys)
      ensures |rows| == |order| && forall i | 0 <= i < |order| :: rows[i] == feeds[order[i]]
    {
      rows := [];
      for i := 0 to |order|
        invariant |rows| == i && forall j | 0 <= j < i :: rows[j] == feeds[order[j]]
      {
        rows := rows + [feeds[order[i]]];
      }
    }

    method RewriteFeed(id: int, url: string, nonce: Item -> nat)
      requires id in feeds && feeds[id] == url
      modifies this`feeds
      ensures View() == Perform(cipher, old(View()), FeedStep(id), nonce)
      ensures feeds.Keys == old(feeds).Keys && forall v | v in feeds && v != id :: feeds[v] == old(feeds)[v]
    {
      if url == "" || cipher.open(url).Some? {
        return;
      }
      feeds := feeds[id := cipher.seal(nonce(Feed(id)), url)];
    }
  }
}
