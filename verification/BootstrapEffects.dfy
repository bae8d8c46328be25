/** The answers of the bootstrap gate, told from its counters alone. */
module BootstrapEffects {
  import opened BootstrapGate

  ghost predicate SameExcept(g: Gate, h: Gate, ip: string) {
    && h.completed == g.completed
    && forall other | other != ip ::
         && (other in h.attempts <==> other in g.attempts)
         && (other in g.attempts ==> h.attempts[other] == g.attempts[other])
  }

  /** The address may not try at the instant `seen`. */
  predicate Waits(g: Gate, ip: string, seen: int) {
    ip in g.attempts && (seen < g.attempts[ip].blockedUntil || seen < g.attempts[ip].nextAllowed)
  }

  /** A closed gate answers 404, a paused one 503, and a waiting address is told how long;
      in none of these cases does anything change. */
  lemma TurnedAway(g: Gate, ip: string, good: bool, seen: int, now: int, later: int)
    requires g.completed || g.paused || Waits(g, ip, seen)
    ensures Serve(g, ip, good, seen, now, later).0 == g
    ensures var response := Serve(g, ip, good, seen, now, later).1;
            if g.completed then response == NotFound
            else if g.paused then response == ServicePaused
            else
              var a := g.attempts[ip];
              response == Blocked((if seen < a.blockedUntil then a.blockedUntil else a.nextAllowed) - seen)
  {
  }

  /** The right token gets to the handler and clears the address. */
  lemma RightToken(g: Gate, ip: string, seen: int, now: int, later: int)
    requires !g.completed && !g.paused && !Waits(g, ip, seen)
    ensures var (h, response) := Serve(g, ip, true, seen, now, later);
            && response == Served && ip !in h.attempts && SameExcept(g, h, ip)
            && h.paused == g.paused && h.globalFailures == g.globalFailures
  {
  }

  /** A wrong one counts: the address waits 1, 2, 4, 8 seconds and so on from `now`, from its
      fifth failure an hour from `later`; with the tenth failure in all the gate pauses. */
  lemma WrongToken(g: Gate, ip: string, seen: int, now: int, later: int)
    requires !g.completed && !g.paused && !Waits(g, ip, seen)
    ensures var (h, response) := Serve(g, ip, false, seen, now, later);
            var before := if ip in g.attempts then g.attempts[ip] else Attempt(0, 0, 0);
            && SameExcept(g, h, ip) && ip in h.attempts
            && h.globalFailures == g.globalFailures + 1 && (h.paused <==> h.globalFailures >= 10)
            && var after := h.attempts[ip];
               && after.failures == before.failures + 1
               && (after.failures <= 34 ==> after.nextAllowed == now + Pow2(after.failures - 1) * 1_000_000_000)
               && after.blockedUntil == (if after.failures >= 5 then later + 3_600_000_000_000 else before.blockedUntil)
               && (after.failures >= 5 ==> response == NowBlocked)
               && (after.failures < 5 ==> response == Rejected(Pow2(after.failures - 1) * 1_000_000_000))
  {
    var before := if ip in g.attempts then g.attempts[ip] else Attempt(0, 0, 0);
    BackoffExactIff(before.failures + 1);
  }

  lemma FirstDelays()
    ensures Pow2(0) == 1 && Pow2(1) == 2 && Pow2(2) == 4 && Pow2(3) == 8
  {
  }

  /** Completing the wizard closes the gate to everybody. */
  lemma CompletedTurnsAway(g: Gate, ip: string, good: bool, seen: int, now: int, later: int)
    ensures Serve(g.(completed := true), ip, good, seen, now, later) == (g.(completed := true), NotFound)
  {
  }
}
