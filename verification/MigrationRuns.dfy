/** Any number of interrupted boots followed by one that gets through: what has been
    encrypted, and how often. */
module MigrationRuns {
  import opened Wrappers
  import opened Crypto
  import opened Migration

  // ---- counting the seals on a value ----------------------------------------------------------

  predicate About(step: Step, item: Item) {
    match item
    case Email(u) => step == UserStep(u)
    case Name(u) => step == UserStep(u)
    case Setting(k) => step == SettingStep(k)
    case Feed(i) => step == FeedStep(i)
  }

  function Count(steps: seq<Step>, item: Item): nat {
    if steps == [] then 0
    else Count(steps[..|steps| - 1], item) + if About(steps[|steps| - 1], item) then 1 else 0
  }

  /** `y` is `x` sealed `n` times over; an empty value stays empty. */
  ghost predicate Wrapped(c: Cipher, x: string, y: string, n: nat)
    decreases n
  {
    if x == "" then y == ""
    else if n == 0 then y == x
    else exists k: nat, z: string :: Wrapped(c, x, z, n - 1) && y == c.seal(k, z)
  }

  /** The values of version 1 of the migration; the flag is not one of them. */
  predicate V1Item(item: Item) {
    !item.Feed? && item != Setting(FLAG)
  }

  lemma {:induction false} WrappedNotEmpty(c: Cipher, x: string, y: string, n: nat)
    requires Lawful(c) && Wrapped(c, x, y, n)
    ensures y == "" <==> x == ""
  {
  }

  lemma WrappedNext(c: Cipher, x: string, y: string, n: nat, k: nat)
    requires Lawful(c) && Wrapped(c, x, y, n)
    ensures Wrapped(c, x, Sealed(c, k, y), n + 1)
  {
    WrappedNotEmpty(c, x, y, n);
  }

  lemma {:induction false} WrappedTwice(c: Cipher, x: string, y: string, z: string, m: nat, n: nat)
    requires Lawful(c) && Wrapped(c, x, y, m) && Wrapped(c, y, z, n)
    ensures Wrapped(c, x, z, m + n)
    decreases n
  {
    WrappedNotEmpty(c, x, y, m);
    if x != "" && n > 0 {
      var k: nat, w: string :| Wrapped(c, y, w, n - 1) && z == c.seal(k, w);
      WrappedTwice(c, x, y, w, m, n - 1);
      WrappedNext(c, x, w, m + n - 1, k);
      WrappedNotEmpty(c, x, w, m + n - 1);
    }
  }

  /** Sealed exactly once is the only way to read back a text that does not open itself. */
  lemma ReadsBackIffOnce(c: Cipher, x: string, y: string, n: nat)
    requires Lawful(c) && Wrapped(c, x, y, n) && x != "" && c.open(x).None?
    ensures c.open(y) == Some(x) <==> n == 1
  {
    if n > 0 {
      var k: nat, z: string :| Wrapped(c, x, z, n - 1) && y == c.seal(k, z);
      assert c.open(y) == Some(z);
      if n > 1 {
        var j: nat, w: string :| Wrapped(c, x, w, n - 2) && z == c.seal(j, w);
        assert c.open(z) == Some(w);
      }
    }
  }

  lemma PerformOnItem(c: Cipher, s: State, step: Step, nonce: Item -> nat, item: Item)
    requires V1Item(item)
    ensures Get(Perform(c, s, step, nonce), item)
         == if About(step, item) then Sealed(c, nonce(item), Get(s, item)) else Get(s, item)
  {
  }

  lemma {:induction false} PerformAllWraps(c: Cipher, s: State, steps: seq<Step>, nonce: Item -> nat, item: Item)
    requires Lawful(c) && V1Item(item)
    ensures Wrapped(c, Get(s, item), Get(PerformAll(c, s, steps, nonce), item), Count(steps, item))
  {
    if steps != [] {
      var init, last := steps[..|steps| - 1], steps[|steps| - 1];
      PerformAllWraps(c, s, init, nonce, item);
      PerformOnItem(c, PerformAll(c, s, init, nonce), last, nonce, item);
      WrappedNext(c, Get(s, item), Get(PerformAll(c, s, init, nonce), item), Count(init, item), nonce(item));
    }
  }

  // ---- one attempt ---------------------------------------------------------------------------------

  /** The attempt got to the item before it ended. */
  predicate Reaches(s: State, a: Attempt, item: Item) {
    exists k :: 0 <= k < |Executed(s, a)| && About(Executed(s, a)[k], item)
  }

  predicate Pending(s: State) {
    Version(s).Some? && Version(s).value < 2
  }

  /** What the migration is to encrypt in version 1. */
  predicate Present(s: State, item: Item) {
    match item
    case Email(u) => u in s.users
    case Name(u) => u in s.users
    case Setting(k) => k in SETTINGS
    case Feed(_) => false
  }

  ghost predicate NoRepeat(steps: seq<Step>) {
    forall i, j | 0 <= i < j < |steps| :: steps[i] != steps[j]
  }

  lemma NoRepeatBoth(a: seq<Step>, b: seq<Step>)
    requires NoRepeat(a) && NoRepeat(b)
    requires forall i, j | 0 <= i < |a| && 0 <= j < |b| :: a[i] != b[j]
    ensures NoRepeat(a + b)
  {
    forall i, j | 0 <= i < j < |a + b| ensures (a + b)[i] != (a + b)[j] {
      if j < |a| {
        assert (a + b)[i] == a[i] && (a + b)[j] == a[j];
      } else if i < |a| {
        assert (a + b)[i] == a[i] && (a + b)[j] == b[j - |a|];
      } else {
        assert (a + b)[i] == b[i - |a|] && (a + b)[j] == b[j - |a|];
      }
    }
  }

  lemma StepsDoNotRepeat(s: State, a: Attempt, version: int)
    requires Reads(s, a)
    ensures NoRepeat(Steps(version, a))
  {
    var us, ss, fs := UserSteps(a.userOrder), SettingSteps(SETTINGS), FeedSteps(a.feedOrder);
    assert NoRepeat(ss) && NoRepeat(fs) && NoRepeat([FlagStep]) && NoRepeat([]);
    NoRepeatBoth(us, ss);
    var first := if version < 1 then us + ss else [];
    assert forall i | 0 <= i < |first| :: first[i].UserStep? || first[i].SettingStep?;
    NoRepeatBoth(first, fs);
    NoRepeatBoth(first + fs, [FlagStep]);
  }

  /** A step about an item is determined by the item. */
  function StepFor(item: Item): (step: Step)
    ensures About(step, item) && forall other :: About(other, item) ==> other == step
  {
    match item
    case Email(u) => UserStep(u)
    case Name(u) => UserStep(u)
    case Setting(k) => SettingStep(k)
    case Feed(i) => FeedStep(i)
  }

  lemma {:induction false} CountOnce(steps: seq<Step>, item: Item)
    requires NoRepeat(steps)
    ensures Count(steps, item) == if StepFor(item) in steps then 1 else 0
  {
    if steps != [] {
      var init, last := steps[..|steps| - 1], steps[|steps| - 1];
      CountOnce(init, item);
      assert steps == init + [last];
      assert forall i | 0 <= i < |init| :: init[i] == steps[i];
      if About(last, item) {
        assert forall i | 0 <= i < |init| :: init[i] != last;
      }
    }
  }

  /** Every value of version 1 has its step. */
  lemma PresentHasStep(s: State, a: Attempt, item: Item)
    requires Reads(s, a) && Present(s, item)
    ensures StepFor(item) in Steps(0, a)
  {
    var us, ss := UserSteps(a.userOrder), SettingSteps(SETTINGS);
    match item {
      case Setting(k) =>
        var i :| 0 <= i < |SETTINGS| && SETTINGS[i] == k;
        assert ss[i] == StepFor(item);
      case Email(u) =>
        var i :| 0 <= i < |a.userOrder| && a.userOrder[i] == u;
        assert us[i] == StepFor(item);
      case Name(u) =>
        var i :| 0 <= i < |a.userOrder| && a.userOrder[i] == u;
        assert us[i] == StepFor(item);
      case Feed(_) =>
    }
  }

  lemma ExecutedCount(s: State, a: Attempt, item: Item)
    requires Reads(s, a)
    ensures Count(Executed(s, a), item) == if Reaches(s, a, item) then 1 else 0
  {
    var steps := Executed(s, a);
    if Pending(s) { StepsDoNotRepeat(s, a, Version(s).value); }
    assert NoRepeat(steps);
    CountOnce(steps, item);
    assert StepFor(item) in steps <==> Reaches(s, a, item) by {
      if StepFor(item) in steps {
        var k :| 0 <= k < |steps| && steps[k] == StepFor(item);
        assert About(steps[k], item);
      }
    }
  }

  lemma {:induction false} PerformKeepsRows(c: Cipher, s: State, steps: seq<Step>, nonce: Item -> nat)
    ensures var t := PerformAll(c, s, steps, nonce);
            t.users.Keys == s.users.Keys && t.feeds.Keys == s.feeds.Keys
  {
    if steps != [] {
      PerformKeepsRows(c, s, steps[..|steps| - 1], nonce);
    }
  }

  ghost predicate LeavesFlag(steps: seq<Step>) {
    FlagStep !in steps && SettingStep(FLAG) !in steps
  }

  lemma {:induction false} PerformKeepsFlag(c: Cipher, s: State, steps: seq<Step>, nonce: Item -> nat)
    requires LeavesFlag(steps)
    ensures Version(PerformAll(c, s, steps, nonce)) == Version(s)
  {
    if steps != [] {
      var init, last := steps[..|steps| - 1], steps[|steps| - 1];
      assert last in steps;
      assert forall x :: x in init ==> x in steps;
      PerformKeepsFlag(c, s, init, nonce);
    }
  }

  /** Only the last step of a boot writes the flag. */
  lemma FlagComesLast(version: int, a: Attempt, n: nat)
    requires n < |Steps(version, a)|
    ensures LeavesFlag(Steps(version, a)[..n])
  {
    var steps := Steps(version, a);
    assert forall i | 0 <= i < |SETTINGS| :: SETTINGS[i] != FLAG;
    forall i | 0 <= i < n ensures steps[i] != FlagStep && steps[i] != SettingStep(FLAG) {
    }
  }

  /** An interrupted boot leaves the version and the rows there are. */
  lemma InterruptedKeeps(c: Cipher, s: State, a: Attempt)
    requires OutcomeOf(s, a) == Interrupted
    ensures var t := After(c, s, a);
            Version(t) == Version(s) && t.users.Keys == s.users.Keys && t.feeds.Keys == s.feeds.Keys
  {
    FlagComesLast(Version(s).value, a, a.budget);
    PerformKeepsRows(c, s, Executed(s, a), a.nonce);
    PerformKeepsFlag(c, s, Executed(s, a), a.nonce);
  }

  lemma FlagIsTwo()
    ensures Atoi("2") == Some(2)
  {
    assert "2"[..0] == "" && NumberOf("") == 0;
    assert NumberOf("2") == 2;
  }

  lemma CompletedSetsFlag(c: Cipher, s: State, a: Attempt)
    requires Pending(s) && OutcomeOf(s, a) == Completed
    ensures Version(After(c, s, a)) == Some(2)
  {
    FlagIsTwo();
    var steps := Steps(Version(s).value, a);
    assert Executed(s, a) == steps && steps[|steps| - 1] == FlagStep;
  }

  // ---- runs of boots ----------------------------------------------------------------------------------

  function AfterAll(c: Cipher, s: State, attempts: seq<Attempt>): State
    decreases |attempts|
  {
    if attempts == [] then s else AfterAll(c, After(c, s, attempts[0]), attempts[1..])
  }

  /** Each boot dies before setting the flag. */
  ghost predicate AllInterrupted(c: Cipher, s: State, attempts: seq<Attempt>)
    decreases |attempts|
  {
    attempts == [] ||
      (Reads(s, attempts[0]) && OutcomeOf(s, attempts[0]) == Interrupted
       && AllInterrupted(c, After(c, s, attempts[0]), attempts[1..]))
  }

  /** How many of the boots got to the item. */
  function Reached(c: Cipher, s: State, attempts: seq<Attempt>, item: Item): nat
    decreases |attempts|
  {
    if attempts == [] then 0
    else (if Reaches(s, attempts[0], item) then 1 else 0) + Reached(c, After(c, s, attempts[0]), attempts[1..], item)
  }

  lemma {:induction false} InterruptedKeepAll(c: Cipher, s: State, attempts: seq<Attempt>)
    requires AllInterrupted(c, s, attempts)
    ensures var t := AfterAll(c, s, attempts);
            Version(t) == Version(s) && t.users.Keys == s.users.Keys && t.feeds.Keys == s.feeds.Keys
    decreases |attempts|
  {
    if attempts != [] {
      InterruptedKeeps(c, s, attempts[0]);
      InterruptedKeepAll(c, After(c, s, attempts[0]), attempts[1..]);
    }
  }

  /** The steps about the item over all boots. */
  function Seals(c: Cipher, s: State, attempts: seq<Attempt>, item: Item): nat
    decreases |attempts|
  {
    if attempts == [] then 0
    else Count(Executed(s, attempts[0]), item) + Seals(c, After(c, s, attempts[0]), attempts[1..], item)
  }

  lemma BootWraps(c: Cipher, s: State, a: Attempt, item: Item)
    requires Lawful(c) && V1Item(item)
    ensures Wrapped(c, Get(s, item), Get(After(c, s, a), item), Count(Executed(s, a), item))
  {
    PerformAllWraps(c, s, Executed(s, a), a.nonce, item);
  }

  /** Over any boots at all a value is sealed once per step about it. */
  lemma {:induction false} AttemptsWrap(c: Cipher, s: State, attempts: seq<Attempt>, item: Item)
    requires Lawful(c) && V1Item(item)
    ensures Wrapped(c, Get(s, item), Get(AfterAll(c, s, attempts), item), Seals(c, s, attempts, item))
    decreases |attempts|
  {
    if attempts != [] {
      var a, t := attempts[0], After(c, s, attempts[0]);
      AttemptsWrap(c, t, attempts[1..], item);
      BootWraps(c, s, a, item);
      WrappedTwice(c, Get(s, item), Get(t, item), Get(AfterAll(c, t, attempts[1..]), item),
                   Count(Executed(s, a), item), Seals(c, t, attempts[1..], item));
    }
  }

  lemma {:induction false} SealsIsReached(c: Cipher, s: State, attempts: seq<Attempt>, item: Item)
    requires AllInterrupted(c, s, attempts)
    ensures Seals(c, s, attempts, item) == Reached(c, s, attempts, item)
    decreases |attempts|
  {
    if attempts != [] {
      ExecutedCount(s, attempts[0], item);
      SealsIsReached(c, After(c, s, attempts[0]), attempts[1..], item);
    }
  }

  /** From version 0: after interrupted boots and one that completes, each user and setting
      value is sealed once more than interrupted boots got to it. It reads back if and
      only if none did. */
  lemma FromVersionZero(c: Cipher, s: State, interrupted: seq<Attempt>, last: Attempt, item: Item)
    requires Lawful(c) && Version(s).Some? && Version(s).value < 1 && AllInterrupted(c, s, interrupted)
    requires var t := AfterAll(c, s, interrupted); Reads(t, last) && OutcomeOf(t, last) == Completed
    requires Present(s, item) && Get(s, item) != "" && c.open(Get(s, item)).None?
    ensures var y := Get(After(c, AfterAll(c, s, interrupted), last), item);
            && Wrapped(c, Get(s, item), y, Reached(c, s, interrupted, item) + 1)
            && (c.open(y) == Some(Get(s, item)) <==> Reached(c, s, interrupted, item) == 0)
  {
    var t := AfterAll(c, s, interrupted);
    InterruptedSeals(c, s, interrupted, item);
    CompletedSealsOnce(c, t, last, item);
    OnceMore(c, Get(s, item), Get(t, item), Get(After(c, t, last), item), Reached(c, s, interrupted, item));
  }

  lemma InterruptedSeals(c: Cipher, s: State, interrupted: seq<Attempt>, item: Item)
    requires Lawful(c) && V1Item(item) && AllInterrupted(c, s, interrupted) && Present(s, item)
    ensures var t := AfterAll(c, s, interrupted);
            && Wrapped(c, Get(s, item), Get(t, item), Reached(c, s, interrupted, item))
            && Version(t) == Version(s) && Present(t, item)
  {
    AttemptsWrap(c, s, interrupted, item);
    SealsIsReached(c, s, interrupted, item);
    InterruptedKeepAll(c, s, interrupted);
  }

  lemma OnceMore(c: Cipher, x: string, y: string, z: string, n: nat)
    requires Lawful(c) && Wrapped(c, x, y, n) && Wrapped(c, y, z, 1) && x != "" && c.open(x).None?
    ensures Wrapped(c, x, z, n + 1)
    ensures c.open(z) == Some(x) <==> n == 0
  {
    WrappedTwice(c, x, y, z, n, 1);
    ReadsBackIffOnce(c, x, z, n + 1);
  }

  lemma CompletedSealsOnce(c: Cipher, t: State, last: Attempt, item: Item)
    requires Lawful(c) && Reads(t, last) && Version(t).Some? && Version(t).value < 1 && OutcomeOf(t, last) == Completed
    requires Present(t, item)
    ensures Wrapped(c, Get(t, item), Get(After(c, t, last), item), 1)
  {
    PerformAllWraps(c, t, Executed(t, last), last.nonce, item);
    ExecutedCount(t, last, item);
    CompletedReaches(t, last, item);
  }

  lemma CompletedReaches(t: State, last: Attempt, item: Item)
    requires Reads(t, last) && Version(t).Some? && Version(t).value < 1 && OutcomeOf(t, last) == Completed
    requires Present(t, item)
    ensures Reaches(t, last, item)
  {
    PresentHasStep(t, last, item);
    var steps := Executed(t, last);
    assert steps == Steps(0, last);
    var k :| 0 <= k < |steps| && steps[k] == StepFor(item);
    assert About(steps[k], item);
  }

  /** So all of them read back if and only if no interrupted boot got to a non-empty one. */
  lemma AllReadBackIff(c: Cipher, s: State, interrupted: seq<Attempt>, last: Attempt)
    requires Lawful(c) && Version(s).Some? && Version(s).value < 1 && AllInterrupted(c, s, interrupted)
    requires var t := AfterAll(c, s, interrupted); Reads(t, last) && OutcomeOf(t, last) == Completed
    requires forall item :: Present(s, item) && Get(s, item) != "" ==> c.open(Get(s, item)).None?
    ensures (forall item :: Present(s, item) && Get(s, item) != "" ==>
               c.open(Get(After(c, AfterAll(c, s, interrupted), last), item)) == Some(Get(s, item)))
       <==> (forall item :: Present(s, item) && Get(s, item) != "" ==> Reached(c, s, interrupted, item) == 0)
  {
    forall item | Present(s, item) && Get(s, item) != ""
      ensures c.open(Get(After(c, AfterAll(c, s, interrupted), last), item)) == Some(Get(s, item))
         <==> Reached(c, s, interrupted, item) == 0
    {
      FromVersionZero(c, s, interrupted, last, item);
    }
  }

  // ---- feeds -------------------------------------------------------------------------------------------

  /** What is to become of a feed's address: one seal, unless it is empty or sealed already. */
  ghost predicate SealedOnce(c: Cipher, x: string, y: string) {
    if x == "" || c.open(x).Some? then y == x
    else exists k: nat :: y == c.seal(k, x)
  }

  lemma FeedStepOn(c: Cipher, s: State, step: Step, nonce: Item -> nat, id: int, x: string)
    requires Lawful(c) && (Get(s, Feed(id)) == x || SealedOnce(c, x, Get(s, Feed(id))))
    ensures var y := Get(Perform(c, s, step, nonce), Feed(id));
            && (y == x || SealedOnce(c, x, y))
            && (SealedOnce(c, x, Get(s, Feed(id))) || step == FeedStep(id) ==> SealedOnce(c, x, y))
  {
  }

  lemma {:induction false} FeedAfterSteps(c: Cipher, s: State, steps: seq<Step>, nonce: Item -> nat, id: int, x: string)
    requires Lawful(c) && (Get(s, Feed(id)) == x || SealedOnce(c, x, Get(s, Feed(id))))
    ensures var y := Get(PerformAll(c, s, steps, nonce), Feed(id));
            && (y == x || SealedOnce(c, x, y))
            && (SealedOnce(c, x, Get(s, Feed(id))) || FeedStep(id) in steps ==> SealedOnce(c, x, y))
  {
    if steps != [] {
      var init, last := steps[..|steps| - 1], steps[|steps| - 1];
      FeedAfterSteps(c, s, init, nonce, id, x);
      assert steps == init + [last];
      FeedStepOn(c, PerformAll(c, s, init, nonce), last, nonce, id, x);
    }
  }

  lemma {:induction false} FeedsWhileInterrupted(c: Cipher, s: State, attempts: seq<Attempt>, id: int, x: string)
    requires Lawful(c) && AllInterrupted(c, s, attempts)
    requires Get(s, Feed(id)) == x || SealedOnce(c, x, Get(s, Feed(id)))
    ensures var y := Get(AfterAll(c, s, attempts), Feed(id)); y == x || SealedOnce(c, x, y)
    decreases |attempts|
  {
    if attempts != [] {
      var a := attempts[0];
      FeedAfterSteps(c, s, Executed(s, a), a.nonce, id, x);
      FeedsWhileInterrupted(c, After(c, s, a), attempts[1..], id, x);
    }
  }

  /** From version 0 or 1, however many boots were interrupted: once one completes, every
      feed address is sealed exactly once and opens to the original. */
  lemma FeedsAreSealedOnce(c: Cipher, s: State, interrupted: seq<Attempt>, last: Attempt, id: int)
    requires Lawful(c) && Pending(s) && AllInterrupted(c, s, interrupted) && id in s.feeds
    requires var t := AfterAll(c, s, interrupted); Reads(t, last) && OutcomeOf(t, last) == Completed
    ensures var x, y := s.feeds[id], Get(After(c, AfterAll(c, s, interrupted), last), Feed(id));
            && SealedOnce(c, x, y)
            && (x != "" && c.open(x).None? ==> c.open(y) == Some(x))
  {
    var t, x := AfterAll(c, s, interrupted), s.feeds[id];
    InterruptedKeepAll(c, s, interrupted);
    FeedsWhileInterrupted(c, s, interrupted, id, x);
    var steps := Executed(t, last);
    assert steps == Steps(Version(t).value, last);
    assert FeedStep(id) in steps by {
      var i :| 0 <= i < |last.feedOrder| && last.feedOrder[i] == id;
      assert FeedSteps(last.feedOrder)[i] == FeedStep(id);
    }
    FeedAfterSteps(c, t, steps, last.nonce, id, x);
  }

  /** From version 1 no boot touches a user or a setting other than the flag. */
  lemma FromVersionOne(c: Cipher, s: State, a: Attempt, item: Item)
    requires Lawful(c) && Version(s) == Some(1) && V1Item(item)
    ensures Get(After(c, s, a), item) == Get(s, item)
    ensures Version(After(c, s, a)).Some? && Version(After(c, s, a)).value in {1, 2}
  {
    var steps := Executed(s, a);
    assert forall i | 0 <= i < |steps| :: steps[i].FeedStep? || steps[i] == FlagStep;
    CountNone(steps, item);
    PerformAllWraps(c, s, steps, a.nonce, item);
    if OutcomeOf(s, a) == Completed { CompletedSetsFlag(c, s, a); } else { InterruptedKeeps(c, s, a); }
  }

  lemma {:induction false} CountNone(steps: seq<Step>, item: Item)
    requires forall i | 0 <= i < |steps| :: !About(steps[i], item)
    ensures Count(steps, item) == 0
  {
    if steps != [] { CountNone(steps[..|steps| - 1], item); }
  }

  lemma {:induction false} FromVersionOneOn(c: Cipher, s: State, attempts: seq<Attempt>, item: Item)
    requires Lawful(c) && Version(s).Some? && Version(s).value >= 1 && V1Item(item)
    ensures Get(AfterAll(c, s, attempts), item) == Get(s, item)
    decreases |attempts|
  {
    if attempts != [] {
      if Version(s).value == 1 {
        FromVersionOne(c, s, attempts[0], item);
        FromVersionOneOn(c, After(c, s, attempts[0]), attempts[1..], item);
      } else {
        SettledForGood(c, s, attempts);
      }
    }
  }

  // ---- afterwards ------------------------------------------------------------------------------------

  /** At version 2 or with a flag that is not a number, no boot ever changes anything. */
  lemma {:induction false} SettledForGood(c: Cipher, s: State, attempts: seq<Attempt>)
    requires !Pending(s)
    ensures AfterAll(c, s, attempts) == s
    ensures forall a :: OutcomeOf(s, a) == if Version(s).None? then Corrupt else Completed
    decreases |attempts|
  {
    if attempts != [] {
      assert Executed(s, attempts[0]) == [];
      SettledForGood(c, s, attempts[1..]);
    }
  }

  /** One user, a first boot that dies after the first row, and a second one that completes:
      the address then opens to a ciphertext instead of the address. */
  lemma InterruptionSealsTwice(c: Cipher, email: string, nonce: Item -> nat)
    requires Lawful(c) && email != "" && c.open(email).None?
    ensures var s := State(map["u" := Person(email, "")], map[], map[]);
            var first, second := Attempt(1, ["u"], [], nonce), Attempt(7, ["u"], [], nonce);
            var y := Get(After(c, AfterAll(c, s, [first]), second), Email("u"));
            && AllInterrupted(c, s, [first]) && OutcomeOf(AfterAll(c, s, [first]), second) == Completed
            && Wrapped(c, email, y, 2) && c.open(y) != Some(email)
  {
    var s := State(map["u" := Person(email, "")], map[], map[]);
    var first, second := Attempt(1, ["u"], [], nonce), Attempt(7, ["u"], [], nonce);
    assert Reads(s, first) by { assert ["u"][0] == "u"; }
    assert |Steps(0, first)| == 7 && Executed(s, first)[0] == UserStep("u");
    InterruptedKeeps(c, s, first);
    assert Reaches(s, first, Email("u"));
    assert [first][1..] == [];
    assert AfterAll(c, s, [first]) == After(c, s, first);
    assert Reached(c, s, [first], Email("u")) == 1 by {
      assert Reached(c, After(c, s, first), [], Email("u")) == 0;
    }
    FromVersionZero(c, s, [first], second, Email("u"));
  }
}
