/** The Setup Wizard's bootstrap-token gate: what one request does to the failure
    counters, as a state function and as the Manager's methods. Times are
    nanoseconds since the zero time. */
module BootstrapGate {

  const FAILURES_BEFORE_IP_BLOCK := 5
  const FAILURES_BEFORE_GLOBAL_PAUSE := 10
  const SECOND := 1_000_000_000
  const HOUR := 3600 * SECOND

  datatype Attempt = Attempt(failures: nat, nextAllowed: int, blockedUntil: int)

  datatype Gate = Gate(completed: bool, paused: bool, globalFailures: nat, attempts: map<string, Attempt>)

  const FRESH_ATTEMPT := Attempt(0, 0, 0)

  // ---- the backoff in int64 ------------------------------------------------------

  function Pow2(n: nat): (r: nat)
    ensures r >= 1
  {
    if n == 0 then 1 else 2 * Pow2(n - 1)
  }

  /** The int64 an unbounded result wraps around to. */
  function Wrap64(x: int): (r: int)
    ensures -0x8000_0000_0000_0000 <= r < 0x8000_0000_0000_0000
  {
    if -0x8000_0000_0000_0000 <= x < 0x8000_0000_0000_0000 then x
    else (x + 0x8000_0000_0000_0000) % 0x1_0000_0000_0000_0000 - 0x8000_0000_0000_0000
  }

  /** 1 shifted left in int64: bits moved past the top are lost. */
  function Shift64(n: nat): int {
    if n >= 64 then 0 else Wrap64(Pow2(n))
  }

  function Backoff(failures: nat): int
    requires failures >= 1
  {
    Wrap64(Shift64(failures - 1) * SECOND)
  }

  lemma {:induction false} Pow2Grows(a: nat, b: nat)
    requires a <= b
    ensures Pow2(a) <= Pow2(b)
  {
    if a < b { Pow2Grows(a, b - 1); }
  }

  /** The computed delay is the intended 2^(k-1) seconds up to 34 failures of one
      address and no further: beyond that the multiplication leaves int64. */
  lemma BackoffExactIff(failures: nat)
    requires failures >= 1
    ensures Backoff(failures) == Pow2(failures - 1) * SECOND <==> failures <= 34
  {
    assert Pow2(10) == 1024;
    assert Pow2(20) == 1048576 by { assert Pow2(15) == 32768; }
    assert Pow2(33) == 8589934592 by { assert Pow2(27) == 134217728; }
    assert Pow2(34) == 17179869184;
    if failures <= 34 {
      Pow2Grows(failures - 1, 33);
    } else {
      Pow2Grows(34, failures - 1);
    }
  }

  // ---- one request's effect on the gate ---------------------------------------------

  function BlockedFor(g: Gate, ip: string, now: int): int {
    if ip !in g.attempts then 0
    else
      var st := g.attempts[ip];
      if now < st.blockedUntil then st.blockedUntil - now
      else if now < st.nextAllowed then st.nextAllowed - now
      else 0
  }

  function AttemptOf(g: Gate, ip: string): Attempt {
    if ip in g.attempts then g.attempts[ip] else FRESH_ATTEMPT
  }

  /** One more failure of `ip`; the clock is read once for the delay and, later, once
      for the block. */
  function Failed(g: Gate, ip: string, now: int, later: int): Gate {
    var st := AttemptOf(g, ip);
    var f := st.failures + 1;
    var blocked := if f >= FAILURES_BEFORE_IP_BLOCK then later + HOUR else st.blockedUntil;
    g.(globalFailures := g.globalFailures + 1,
       paused := g.paused || g.globalFailures + 1 >= FAILURES_BEFORE_GLOBAL_PAUSE,
       attempts := g.attempts[ip := Attempt(f, now + Backoff(f), blocked)])
  }

  function Succeeded(g: Gate, ip: string): Gate {
    g.(attempts := g.attempts - {ip})
  }

  datatype Response =
    | NotFound
    | ServicePaused
    | Blocked(retryAfter: int)
    | Served
    | Rejected(retryAfter: int)
    | NowBlocked

  /** A request handled from start to end without another one in between. The clock is
      read when the block is looked up and twice when a failure is recorded. */
  function Serve(g: Gate, ip: string, good: bool, seen: int, now: int, later: int): (Gate, Response) {
    if g.completed then (g, NotFound)
    else if g.paused then (g, ServicePaused)
    else if BlockedFor(g, ip, seen) > 0 then (g, Blocked(BlockedFor(g, ip, seen)))
    else if good then (Succeeded(g, ip), Served)
    else
      var f := AttemptOf(g, ip).failures + 1;
      (Failed(g, ip, now, later), if f >= FAILURES_BEFORE_IP_BLOCK then NowBlocked else Rejected(Backoff(f)))
  }

  class Manager {
    const token: string
    var completed: bool
    var paused: bool
    var globalFailures: nat
    var attempts: map<string, Attempt>

    ghost function View(): Gate
      reads this
    {
      Gate(completed, paused, globalFailures, attempts)
    }

    constructor (token: string)
      ensures View() == Gate(false, false, 0, map[]) && this.token == token
    {
      this.token := token;
      completed, paused, globalFailures, attempts := false, false, 0, map[];
    }

    method GetBlockedFor(ip: string, now: int) returns (wait: int)
      ensures wait == BlockedFor(View(), ip, now)
    {
      if ip !in attempts {
        return 0;
      }
      var st := attempts[ip];
      if now < st.blockedUntil {
        return st.blockedUntil - now;
      }
      if now < st.nextAllowed {
        return st.nextAllowed - now;
      }
      return 0;
    }

    method RecordFailure(ip: string, now: int, later: int) returns (retryAfter: int, blocked: bool)
      modifies this
      ensures View() == Failed(old(View()), ip, now, later)
      ensures var f := AttemptOf(old(View()), ip).failures + 1;
              retryAfter == Backoff(f) && (blocked <==> f >= FAILURES_BEFORE_IP_BLOCK)
    {
      var st := if ip in attempts then attempts[ip] else FRESH_ATTEMPT;
      st := st.(failures := st.failures + 1);
      globalFailures := globalFailures + 1;
      var backoff := Backoff(st.failures);
      st := st.(nextAllowed := now + backoff);
      blocked := false;
      if st.failures >= FAILURES_BEFORE_IP_BLOCK {
        st := st.(blockedUntil := later + HOUR);
        blocked := true;
      }
      attempts := attempts[ip := st];
      if globalFailures >= FAILURES_BEFORE_GLOBAL_PAUSE && !paused {
        paused := true;
      }
      retryAfter := backoff;
    }

    method RecordSuccess(ip: string)
      modifies this
      ensures View() == Succeeded(old(View()), ip)
    {
      attempts := attempts - {ip};
    }

    method Complete()
      modifies this
      ensures View() == old(View()).(completed := true)
    {
      completed := true;
    }

    /** The wrapped handler runs exactly when the response is Served. */
    method Middleware(ip: string, supplied: string, seen: int, now: int, later: int) returns (response: Response)
      modifies this
      ensures (View(), response) == Serve(old(View()), ip, supplied != "" && supplied == token, seen, now, later)
    {
      if completed {
        return NotFound;
      }
      if paused {
        return ServicePaused;
      }
      var wait := GetBlockedFor(ip, seen);
      if wait > 0 {
        return Blocked(wait);
      }
      if supplied != "" && supplied == token {
        RecordSuccess(ip);
        return Served;
      }
      var retryAfter, blocked := RecordFailure(ip, now, later);
      return if blocked then NowBlocked else Rejected(retryAfter);
    }
  }

  // ---- counting failures over addresses ------------------------------------------------

  ghost function SumFailures(m: map<string, Attempt>): nat
    decreases |m|
  {
    if m == map[] then 0
    else
      var ip :| ip in m;
      assert |m - {ip}| < |m| by { SmallerWithout(m, ip); }
      m[ip].failures + SumFailures(m - {ip})
  }

  lemma SmallerWithout(m: map<string, Attempt>, ip: string)
    requires ip in m
    ensures |m - {ip}| == |m| - 1
  {
    assert m.Keys == (m - {ip}).Keys + {ip};
  }

  /** Which address is counted first makes no difference. */
  lemma {:induction false} SumWithout(m: map<string, Attempt>, ip: string)
    requires ip in m
    ensures SumFailures(m) == m[ip].failures + SumFailures(m - {ip})
    decreases |m|
  {
    var first :| first in m && SumFailures(m) == m[first].failures + SumFailures(m - {first});
    if first != ip {
      SmallerWithout(m, first);
      SmallerWithout(m, ip);
      SumWithout(m - {first}, ip);
      SumWithout(m - {ip}, first);
      assert m - {first} - {ip} == m - {ip} - {first};
    }
  }

  lemma SumAfterFailure(g: Gate, ip: string, now: int, later: int)
    ensures SumFailures(Failed(g, ip, now, later).attempts) == SumFailures(g.attempts) + 1
  {
    var m, n := g.attempts, Failed(g, ip, now, later).attempts;
    SumWithout(n, ip);
    assert n - {ip} == m - {ip};
    if ip in m { SumWithout(m, ip); } else { assert m - {ip} == m; }
  }

  lemma SumAfterSuccess(g: Gate, ip: string)
    ensures SumFailures(Succeeded(g, ip).attempts) <= SumFailures(g.attempts)
  {
    if ip in g.attempts { SumWithout(g.attempts, ip); } else { assert g.attempts - {ip} == g.attempts; }
  }

  lemma OneOfSum(m: map<string, Attempt>, ip: string)
    requires ip in m
    ensures m[ip].failures <= SumFailures(m)
  {
    SumWithout(m, ip);
  }
}
