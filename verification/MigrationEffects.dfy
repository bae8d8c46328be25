/** The migration's flag and settings, told by their literal names and values. */
module MigrationEffects {
  import opened Wrappers
  import opened Crypto
  import opened Migration
  import opened MigrationRuns

  // ---- reading the flag -----------------------------------------------------------------

  function DigitChar(d: nat): char
    requires d < 10
  {
    "0123456789"[d]
  }

  /** A number as it is written. */
  function Decimal(n: nat): string {
    if n < 10 then [DigitChar(n)] else Decimal(n / 10) + [DigitChar(n % 10)]
  }

  lemma NumberSnoc(s: string, c: char)
    ensures NumberOf(s + [c]) == 10 * NumberOf(s) + (c as int - '0' as int)
  {
    assert (s + [c])[..|s|] == s;
  }

  lemma {:induction false} DecimalReads(n: nat)
    ensures Digits(Decimal(n)) && NumberOf(Decimal(n)) == n
  {
    if n < 10 {
      assert [DigitChar(n)][..0] == "";
    } else {
      DecimalReads(n / 10);
      NumberSnoc(Decimal(n / 10), DigitChar(n % 10));
    }
  }

  const MAX: int := 9223372036854775807

  /** Written numbers are read back within 64 bits ... */
  lemma AtoiReads(n: nat)
    ensures Atoi(Decimal(n)) == if n <= MAX then Some(n) else None
  {
    DecimalReads(n);
    assert Decimal(n)[0] in Decimal(n);
  }

  /** ... and so they are with a sign. */
  lemma AtoiReadsSigned(sign: char, n: nat)
    requires sign == '+' || sign == '-'
    ensures var value: int := if sign == '-' then 0 - n else n;
            Atoi([sign] + Decimal(n)) == if 0 - MAX - 1 <= value <= MAX then Some(value) else None
  {
    DecimalReads(n);
    assert ([sign] + Decimal(n))[1..] == Decimal(n);
  }

  /** Anything with another character than digits after an optional sign is corrupt. */
  lemma AtoiRefuses(s: string, i: nat)
    requires i < |s| && !('0' <= s[i] <= '9') && (i > 0 || (s[0] != '+' && s[0] != '-'))
    ensures Atoi(s) == None
  {
    var signed := s[0] == '-' || s[0] == '+';
    var digits := if signed then s[1..] else s;
    assert digits[if signed then i - 1 else i] == s[i];
    assert s[i] in digits && !Digits(digits);
  }

  lemma EmptyIsRefused()
    ensures Atoi("") == None && Atoi("+") == None && Atoi("-") == None
  {
  }

  /** Without a flag everything is to do, with "1" the feeds, with "2" nothing; a flag that
      is no number is corrupt. */
  lemma FlagMeans(s: State)
    ensures Version(s) == if "core_encryption_version" in s.settings then Atoi(s.settings["core_encryption_version"])
                          else Some(0)
    ensures Atoi("1") == Some(1) && Atoi("2") == Some(2)
  {
    AtoiReads(1);
    AtoiReads(2);
    assert Decimal(1) == "1" && Decimal(2) == "2";
  }

  // ---- what is encrypted ------------------------------------------------------------------

  /** The five settings, and email and name of every user. */
  lemma ToEncrypt(s: State, key: string, user: string)
    ensures Present(s, Setting(key)) <==>
              key in {"smtp_host", "smtp_username", "smtp_from_address", "oidc_issuer_url", "oidc_client_id"}
    ensures Present(s, Email(user)) <==> user in s.users
    ensures Present(s, Name(user)) <==> user in s.users
  {
    assert SETTINGS == ["smtp_host", "smtp_username", "smtp_from_address", "oidc_issuer_url", "oidc_client_id"];
  }

  /** One step touches the value it is about and no other. */
  lemma StepTouchesOne(c: Cipher, s: State, step: Step, nonce: Item -> nat, item: Item)
    requires !About(step, item) && item != Setting("core_encryption_version")
    ensures Get(Perform(c, s, step, nonce), item) == Get(s, item)
  {
  }

  /** A boot that completes writes "2" and keeps every row and every other setting there. */
  lemma CompletedBoot(c: Cipher, s: State, a: Attempt)
    requires Pending(s) && OutcomeOf(s, a) == Completed
    ensures var t := After(c, s, a);
            && "core_encryption_version" in t.settings && t.settings["core_encryption_version"] == "2"
            && t.users.Keys == s.users.Keys && t.feeds.Keys == s.feeds.Keys
            && t.settings.Keys == s.settings.Keys + {"core_encryption_version"}
  {
    var steps := Steps(Version(s).value, a);
    assert Executed(s, a) == steps && steps[|steps| - 1] == FlagStep;
    PerformKeepsRows(c, s, steps, a.nonce);
    PerformKeepsSettings(c, s, steps[..|steps| - 1], a.nonce);
  }

  lemma {:induction false} PerformKeepsSettings(c: Cipher, s: State, steps: seq<Step>, nonce: Item -> nat)
    ensures var t := PerformAll(c, s, steps, nonce);
            s.settings.Keys <= t.settings.Keys <= s.settings.Keys + {"core_encryption_version"}
  {
    if steps != [] {
      PerformKeepsSettings(c, s, steps[..|steps| - 1], nonce);
    }
  }
}
