/** Concrete runs from the empty system in which privilege and approval come apart: what
    an operator has to avoid. */
module AccountExamples {
  import opened Wrappers
  import opened SessionStore
  import opened SessionFacts
  import opened Accounts
  import opened AccountRuns
  import opened AccountIndex

  const NOWHERE := Client("", "")

  lemma {:induction false} RunSnoc(sys: System, actions: seq<Action>, a: Action)
    ensures Run(sys, actions + [a]) == Step(Run(sys, actions), a)
    decreases |actions|
  {
    if actions == [] {
      assert Run(Step(sys, a), []) == Step(sys, a);
    } else {
      RunSnoc(Step(sys, actions[0]), actions[1..], a);
      assert (actions + [a])[1..] == actions[1..] + [a];
    }
  }

  function Person(u: Subject, role: string): Claims {
    Claims(u, role, "", "")
  }

  function SessionOf(u: Subject, role: string, locked: bool, createdAt: nat): Session {
    Session(u, role, locked, createdAt, "", "", "", "")
  }

  ghost predicate Holds(t: System, sid: Sid, s: Session) {
    sid in t.store.sessions && t.store.sessions[sid].value == s
  }

  // ---- how all three begin: alice sets up the instance, bob signs up -----------------------------

  ghost predicate AliceIsIn(t: System) {
    && t.store.now == 1
    && t.users == map["alice" := User("", "admin", true, false)]
    && t.history.issued == {"a1"} && "bob" !in t.store.index
    && Holds(t, "a1", SessionOf("alice", "admin", false, 1))
  }

  ghost predicate BobIsPending(t: System) {
    && t.store.now == 1
    && t.users == map["alice" := User("", "admin", true, false), "bob" := User("", "user", false, false)]
    && t.history.issued == {"a1", "b1"}
    && Holds(t, "a1", SessionOf("alice", "admin", false, 1))
    && "b1" in t.store.sessions && t.store.sessions["b1"] == Entry(SessionOf("bob", ROLE_PENDING, false, 1), 86401)
    && "bob" in t.store.index && t.store.index["bob"] == Entry({"b1"}, 86401)
  }

  lemma AliceSetsUp()
    ensures AliceIsIn(Step(START, Login("a1", Person("alice", "admin"), NOWHERE)))
  {
  }

  lemma BobSignsUp(t: System)
    requires AliceIsIn(t)
    ensures BobIsPending(Step(t, Login("b1", Person("bob", "user"), NOWHERE)))
  {
    assert "alice" in Admins(t.users);
    assert Members(t.store, "bob") + {"b1"} == {"b1"};
  }

  lemma Beginning() returns (actions: seq<Action>)
    ensures BobIsPending(Run(START, actions)) && forall a :: a in actions ==> a.Login?
  {
    var a, b := Login("a1", Person("alice", "admin"), NOWHERE), Login("b1", Person("bob", "user"), NOWHERE);
    AliceSetsUp();
    RunSnoc(START, [], a);
    BobSignsUp(Run(START, [] + [a]));
    RunSnoc(START, [] + [a], b);
    actions := [] + [a] + [b];
  }

  // ---- the last admin loses the role at login ------------------------------------------------------

  ghost predicate NoAdminLeft(t: System) {
    && t.users == map["alice" := User("", "user", true, false), "bob" := User("", "user", false, false)]
    && t.history.issued == {"a1", "b1", "a2"}
  }

  lemma AliceIsDemoted(t: System)
    requires BobIsPending(t)
    ensures NoAdminLeft(Step(t, Login("a2", Person("alice", "user"), NOWHERE)))
  {
    assert "alice" in Admins(t.users);
    var after := Upserted(t.users, Person("alice", "user"), true);
    assert after.Keys == {"alice", "bob"} && after["alice"] == User("", "user", true, false);
    assert after == map["alice" := User("", "user", true, false), "bob" := User("", "user", false, false)];
  }

  lemma BobGetsIn(t: System)
    requires NoAdminLeft(t)
    ensures var s := Step(t, Login("b2", Person("bob", "user"), NOWHERE));
            && s.users == t.users && Admins(s.users) == {}
            && Holds(s, "b2", SessionOf("bob", "user", false, s.store.now)) && Validates(s.store, "b2")
            && !Privileged(s.store, s.users)
  {
    assert Admins(t.users) == {};
    Unprivileged(Step(t, Login("b2", Person("bob", "user"), NOWHERE)), "b2", "bob");
  }

  /** With the last admin row demoted at its own login the wizard counts as incomplete
      again, and the next login of an account nobody approved gets its full role. */
  lemma DemotedAdminOpensTheGate() returns (actions: seq<Action>)
    ensures forall a :: a in actions ==> a.Login?
    ensures var t := Run(START, actions);
            && Admins(t.users) == {}
            && "bob" in t.users && !t.users["bob"].approved
            && Validates(t.store, "b2") && Owner(t.store, "b2") == "bob"
            && t.store.sessions["b2"].value.role == "user"
            && !Privileged(t.store, t.users)
  {
    actions := Beginning();
    var a, b := Login("a2", Person("alice", "user"), NOWHERE), Login("b2", Person("bob", "user"), NOWHERE);
    AliceIsDemoted(Run(START, actions));
    RunSnoc(START, actions, a);
    actions := actions + [a];
    BobGetsIn(Run(START, actions));
    RunSnoc(START, actions, b);
    actions := actions + [b];
  }

  /** A session with a real role whose owner is not in good standing. */
  lemma Unprivileged(t: System, sid: Sid, u: Subject)
    requires sid in t.store.sessions && Owner(t.store, sid) == u && !GoodStanding(t.users, u)
    requires t.store.sessions[sid].value.role != ROLE_PENDING
    ensures !Privileged(t.store, t.users)
  {
  }

  // ---- a locked row is approved while its owner waits ------------------------------------------------

  ghost predicate BobIsLocked(t: System) {
    && t.store.now == 1
    && t.users == map["alice" := User("", "admin", true, false), "bob" := User("", "user", false, true)]
    && t.history.issued == {"a1", "b1"} && "bob" !in t.store.index
    && Holds(t, "a1", SessionOf("alice", "admin", false, 1))
  }

  ghost predicate BobWaitsLocked(t: System) {
    && t.store.now == 1
    && t.users == map["alice" := User("", "admin", true, false), "bob" := User("", "user", false, true)]
    && Holds(t, "a1", SessionOf("alice", "admin", false, 1))
    && Holds(t, "b2", SessionOf("bob", ROLE_PENDING, true, 1))
    && Members(t.store, "bob") == {"b2"}
  }

  lemma AliceLocksBob(t: System)
    requires BobIsPending(t)
    ensures BobIsLocked(Step(t, Lock("a1", NOWHERE, "bob")))
  {
    assert MayRemove(t, "a1", "bob");
    assert "a1" !in Members(Visited(t, Lock("a1", NOWHERE, "bob")).store, "bob");
  }

  lemma BobComesBack(t: System)
    requires BobIsLocked(t)
    ensures BobWaitsLocked(Step(t, Login("b2", Person("bob", "user"), NOWHERE)))
  {
    assert "alice" in Admins(t.users);
    assert Members(t.store, "bob") + {"b2"} == {"b2"};
  }

  lemma AliceApprovesBob(t: System)
    requires BobWaitsLocked(t)
    ensures var s := Step(t, Approve("a1", NOWHERE, "bob"));
            && "bob" in s.users && s.users["bob"].locked && Holds(s, "b2", SessionOf("bob", "user", false, 1))
            && Validates(s.store, "b2")
  {
    var v := Visited(t, Approve("a1", NOWHERE, "bob"));
    assert ManagesUsers(t, "a1") && "bob" in v.users;
    RoleUpdatedIs(v.store, "bob", "user", false);
  }

  /** Approving a locked row whose owner waits on a pending session unlocks the session
      and leaves the row locked. */
  lemma ApprovedWhileLocked() returns (actions: seq<Action>)
    ensures var t := Run(START, actions);
            && "bob" in t.users && t.users["bob"].locked
            && Validates(t.store, "b2") && Owner(t.store, "b2") == "bob"
            && Active(t.store.sessions["b2"].value) && t.store.sessions["b2"].value.role == "user"
            && !Privileged(t.store, t.users)
  {
    actions := Beginning();
    var l, b, a := Lock("a1", NOWHERE, "bob"), Login("b2", Person("bob", "user"), NOWHERE),
                   Approve("a1", NOWHERE, "bob");
    AliceLocksBob(Run(START, actions));
    RunSnoc(START, actions, l);
    actions := actions + [l];
    BobComesBack(Run(START, actions));
    RunSnoc(START, actions, b);
    actions := actions + [b];
    AliceApprovesBob(Run(START, actions));
    RunSnoc(START, actions, a);
    actions := actions + [a];
    Unprivileged(Run(START, actions), "b2", "bob");
  }

  // ---- the index ends before an approved session ------------------------------------------------------

  ghost predicate AlmostADayLater(t: System) {
    && t.store.now == 82801
    && t.users == map["alice" := User("", "admin", true, false), "bob" := User("", "user", false, false)]
    && t.history.issued == {"a1", "b1"}
    && "b1" in t.store.sessions && t.store.sessions["b1"] == Entry(SessionOf("bob", ROLE_PENDING, false, 1), 86401)
    && "bob" in t.store.index && t.store.index["bob"] == Entry({"b1"}, 86401)
  }

  ghost predicate BobWaits(t: System) {
    && t.store.now == 82801
    && t.users == map["alice" := User("", "admin", true, false), "bob" := User("", "user", false, false)]
    && t.history.issued == {"a1", "b1", "a2"}
    && "b1" in t.store.sessions && t.store.sessions["b1"] == Entry(SessionOf("bob", ROLE_PENDING, false, 1), 86401)
    && "bob" in t.store.index && t.store.index["bob"] == Entry({"b1"}, 86401)
    && Holds(t, "a2", SessionOf("alice", "admin", false, 82801))
  }

  ghost predicate BobIsIn(t: System) {
    && t.store.now == 82801
    && t.users == map["alice" := User("", "admin", true, false), "bob" := User("", "user", true, false)]
    && t.history.issued == {"a1", "b1", "a2"}
    && "b1" in t.store.sessions && t.store.sessions["b1"] == Entry(SessionOf("bob", "user", false, 1), 169201)
    && ("bob" in t.store.index ==> t.store.index["bob"].expiry == 86401)
  }

  ghost predicate BobIsUnindexed(t: System) {
    && t.store.now == 90001
    && t.users == map["alice" := User("", "admin", true, false), "bob" := User("", "user", true, false)]
    && t.history.issued == {"a1", "b1", "a2"}
    && "b1" in t.store.sessions && t.store.sessions["b1"] == Entry(SessionOf("bob", "user", false, 1), 169201)
    && "bob" !in t.store.index
  }

  ghost predicate AliceIsBack(t: System) {
    && t.store.now == 90001
    && t.users == map["alice" := User("", "admin", true, false), "bob" := User("", "user", true, false)]
    && "b1" in t.store.sessions && t.store.sessions["b1"] == Entry(SessionOf("bob", "user", false, 1), 169201)
    && "bob" !in t.store.index
    && Holds(t, "a3", SessionOf("alice", "admin", false, 90001))
  }

  lemma TimePasses(t: System)
    requires BobIsPending(t)
    ensures AlmostADayLater(Step(t, Elapse(82800)))
  {
  }

  lemma AliceComesBack(t: System)
    requires AlmostADayLater(t)
    ensures BobWaits(Step(t, Login("a2", Person("alice", "admin"), NOWHERE)))
  {
    assert "alice" in Admins(t.users);
  }

  lemma BobIsApprovedLate(t: System)
    requires BobWaits(t)
    ensures BobIsIn(Step(t, Approve("a2", NOWHERE, "bob")))
  {
    var v := Visited(t, Approve("a2", NOWHERE, "bob"));
    assert v.store.index["bob"] == Entry({"b1"}, 86401) && v.store.sessions["b1"] == t.store.sessions["b1"];
    assert ManagesUsers(t, "a2");
    RoleUpdatedIs(v.store, "bob", "user", false);
  }

  lemma TheIndexEnds(t: System)
    requires BobIsIn(t)
    ensures BobIsUnindexed(Step(t, Elapse(7200)))
  {
  }

  lemma AliceLogsInAgain(t: System)
    requires BobIsUnindexed(t)
    ensures AliceIsBack(Step(t, Login("a3", Person("alice", "admin"), NOWHERE)))
  {
    assert "alice" in Admins(t.users);
  }

  lemma TheLockFindsNothing(t: System)
    requires AliceIsBack(t)
    ensures var s := Step(t, Lock("a3", NOWHERE, "bob"));
            && "bob" in s.users && s.users["bob"].locked
            && Holds(s, "b1", SessionOf("bob", "user", false, 1)) && Validates(s.store, "b1")
  {
    assert MayRemove(t, "a3", "bob");
    assert Members(Visited(t, Lock("a3", NOWHERE, "bob")).store, "bob") == {};
  }

  lemma ApprovedLate() returns (actions: seq<Action>)
    ensures BobIsIn(Run(START, actions))
  {
    actions := Beginning();
    var a, l := Login("a2", Person("alice", "admin"), NOWHERE), Approve("a2", NOWHERE, "bob");
    TimePasses(Run(START, actions));
    RunSnoc(START, actions, Elapse(82800));
    actions := actions + [Elapse(82800)];
    AliceComesBack(Run(START, actions));
    RunSnoc(START, actions, a);
    actions := actions + [a];
    BobIsApprovedLate(Run(START, actions));
    RunSnoc(START, actions, l);
    actions := actions + [l];
  }

  /** An approval renews the session but not the index. If no request comes before the
      index ends, a later lock finds nothing to revoke and the session stays usable. */
  lemma LapsedIndexSurvivesLock() returns (actions: seq<Action>)
    ensures var t := Run(START, actions);
            && "bob" in t.users && t.users["bob"].locked
            && Validates(t.store, "b1") && Owner(t.store, "b1") == "bob"
            && Active(t.store.sessions["b1"].value)
            && !Privileged(t.store, t.users)
  {
    actions := ApprovedLate();
    var a, l := Login("a3", Person("alice", "admin"), NOWHERE), Lock("a3", NOWHERE, "bob");
    TheIndexEnds(Run(START, actions));
    RunSnoc(START, actions, Elapse(7200));
    actions := actions + [Elapse(7200)];
    AliceLogsInAgain(Run(START, actions));
    RunSnoc(START, actions, a);
    actions := actions + [a];
    TheLockFindsNothing(Run(START, actions));
    RunSnoc(START, actions, l);
    actions := actions + [l];
    Unprivileged(Run(START, actions), "b1", "bob");
  }
}
