/** The mid-session anomaly check keeps its baseline in an expiring key that it writes
    only on a change. When that is as good as remembering the last value forever. */
module Anomaly {
  import opened Wrappers
  import opened SessionStore

  /** One request of the session: the country (or device) it comes from, "" if unknown. */
  datatype Seen = Seen(at: nat, value: string)

  ghost predicate Ordered(from: nat, run: seq<Seen>) {
    && (forall i | 0 <= i < |run| :: from <= run[i].at)
    && (forall i, j | 0 <= i < j < |run| :: run[i].at <= run[j].at)
  }

  // ---- what the store does over a run ---------------------------------------------------

  /** What each request of the run is reported against, from the keys `m` on. */
  function Reports(m: map<Sid, Entry<string>>, sid: Sid, login: string, run: seq<Seen>): seq<Option<string>>
    decreases |run|
  {
    if run == [] then []
    else
      var now, value := run[0].at, run[0].value;
      var alive := Alive(m, now);
      [Report(Baseline(alive, sid, login), value)]
      + Reports(Observed(alive, sid, login, value, now), sid, login, run[1..])
  }

  // ---- the tracker it stands for ---------------------------------------------------------

  /** The last known value before request `i`, beginning with the one at login. */
  function Previous(first: Seen, run: seq<Seen>, i: nat): Seen
    requires i <= |run|
  {
    if i == 0 then first else Latest(Previous(first, run, i - 1), run[i - 1])
  }

  function Latest(last: Seen, seen: Seen): Seen {
    if seen.value != "" then seen else last
  }

  /** Remembers the last known value forever, rewriting it on every request. */
  function Tracker(last: string, run: seq<Seen>): seq<Option<string>>
    decreases |run|
  {
    if run == [] then []
    else [Report(last, run[0].value)] + Tracker(if run[0].value == "" then last else run[0].value, run[1..])
  }

  lemma {:induction false} PreviousOfRest(first: Seen, run: seq<Seen>, i: nat)
    requires 1 <= i <= |run|
    ensures Previous(first, run, i) == Previous(Latest(first, run[0]), run[1..], i - 1)
  {
    if i > 1 {
      PreviousOfRest(first, run, i - 1);
      assert run[1..][i - 2] == run[i - 1];
    }
  }

  /** The tracker reports a request exactly when its value and the last known one differ. */
  lemma {:induction false} TrackerReports(first: Seen, run: seq<Seen>, i: nat)
    requires i < |run|
    ensures |Tracker(first.value, run)| == |run|
    ensures Tracker(first.value, run)[i] == Report(Previous(first, run, i).value, run[i].value)
    decreases |run|
  {
    if i > 0 {
      PreviousOfRest(first, run, i);
      TrackerReports(Latest(first, run[0]), run[1..], i - 1);
    } else if |run| > 1 {
      TrackerReports(Latest(first, run[0]), run[1..], 0);
    }
  }

  // ---- known values and their changes -------------------------------------------------------

  function Known(values: seq<string>): (known: seq<string>)
    ensures forall v :: v in known ==> v != ""
  {
    if values == [] then []
    else if values[0] == "" then Known(values[1..])
    else [values[0]] + Known(values[1..])
  }

  /** The places where two neighbours differ, as the value left behind. */
  function Changes(values: seq<string>): seq<string>
    decreases |values|
  {
    if |values| < 2 then []
    else (if values[0] != values[1] then [values[0]] else []) + Changes(values[1..])
  }

  function Raised(reports: seq<Option<string>>): seq<string> {
    if reports == [] then []
    else (if reports[0].Some? then [reports[0].value] else []) + Raised(reports[1..])
  }

  function Values(run: seq<Seen>): (values: seq<string>)
    ensures |values| == |run| && forall i | 0 <= i < |run| :: values[i] == run[i].value
  {
    seq(|run|, i requires 0 <= i < |run| => run[i].value)
  }

  lemma {:induction false} TrackerRaisesChanges(last: string, run: seq<Seen>)
    ensures Raised(Tracker(last, run)) == Changes(Known([last] + Values(run)))
    decreases |run|
  {
    var all := [last] + Values(run);
    assert all[1..] == Values(run);
    if run == [] {
      assert Known(Values(run)) == [];
      assert |Known(all)| < 2;
    } else {
      var v := run[0].value;
      var next := if v == "" then last else v;
      TrackerRaisesChanges(next, run[1..]);
      assert Values(run)[1..] == Values(run[1..]);
      var rest := [next] + Values(run[1..]);
      assert rest[1..] == Values(run[1..]);
      assert Values(run)[0] == v;
      assert Known(Values(run)) == if v == "" then Known(Values(run[1..])) else Known(rest);
      var reports := Tracker(last, run);
      assert reports[1..] == Tracker(next, run[1..]);
      assert reports[0] == Report(last, v);
      if v != "" && last != "" {
        assert Known(rest) == [v] + Known(Values(run[1..]));
        assert Known(all) == [last] + Known(rest);
        assert Known(all)[1..] == Known(rest);
      }
    }
  }

  // ---- how far the store follows the tracker ------------------------------------------------

  /** The request comes after the baseline of the last known value has expired. */
  predicate Lapsed(first: Seen, run: seq<Seen>, i: nat)
    requires i < |run|
  {
    Previous(first, run, i).at + SESSION_TTL <= run[i].at
  }

  /** The keys agree with the last known value; once it has expired, or while it is the
      login value, there may be no key. */
  ghost predicate Tracks(m: map<Sid, Entry<string>>, sid: Sid, login: string, last: Seen, now: nat) {
    if sid in m then m[sid] == Entry(last.value, last.at + SESSION_TTL) && last.value != ""
    else last.value == login || last.at + SESSION_TTL <= now
  }

  /** Request `i` is compared with the last known value, or with the login value when
      that has expired. */
  lemma {:induction false} ReportsAre(m: map<Sid, Entry<string>>, sid: Sid, login: string, first: Seen,
                                      run: seq<Seen>, now: nat, i: nat)
    requires Tracks(m, sid, login, first, now) && Ordered(now, run) && i < |run|
    ensures |Reports(m, sid, login, run)| == |run|
    ensures Reports(m, sid, login, run)[i]
         == Report(if Lapsed(first, run, i) then login else Previous(first, run, i).value, run[i].value)
    decreases |run|
  {
    var t, value := run[0].at, run[0].value;
    var alive := Alive(m, t);
    var next := Observed(alive, sid, login, value, t);
    var then' := Latest(first, run[0]);
    assert Baseline(alive, sid, login) == if first.at + SESSION_TTL <= t then login else first.value;
    assert Tracks(next, sid, login, then', t);
    if |run| > 1 {
      ReportsAre(next, sid, login, then', run[1..], t, if i > 0 then i - 1 else 0);
      if i > 0 { PreviousOfRest(first, run, i); }
    }
  }

  /** The same over the whole run: the reports of a tracker that forgets the last known
      value after a lifetime and falls back on the login value. */
  function Forgetful(login: string, last: Seen, run: seq<Seen>): seq<Option<string>>
    decreases |run|
  {
    if run == [] then []
    else [Report(Remembered(login, last, run[0].at), run[0].value)]
         + Forgetful(login, Latest(last, run[0]), run[1..])
  }

  function Remembered(login: string, last: Seen, now: nat): string {
    if last.at + SESSION_TTL <= now then login else last.value
  }

  lemma {:induction false} ReportsAreForgetful(m: map<Sid, Entry<string>>, sid: Sid, login: string,
                                               last: Seen, run: seq<Seen>, now: nat)
    requires Tracks(m, sid, login, last, now) && Ordered(now, run)
    ensures Reports(m, sid, login, run) == Forgetful(login, last, run)
    decreases |run|
  {
    if run != [] {
      var t, value := run[0].at, run[0].value;
      var alive := Alive(m, t);
      assert Baseline(alive, sid, login) == Remembered(login, last, t);
      assert Tracks(Observed(alive, sid, login, value, t), sid, login, Latest(last, run[0]), t);
      ReportsAreForgetful(Observed(alive, sid, login, value, t), sid, login, Latest(last, run[0]), run[1..], t);
    }
  }

  /** A lapsed request is still reported as the tracker would: it is compared with the
      login value, which has to be the last known one, or unknown with nothing to report. */
  predicate Harmless(login: string, first: Seen, run: seq<Seen>, i: nat)
    requires i < |run|
  {
    var last := Previous(first, run, i).value;
    run[i].value == "" || !Lapsed(first, run, i) || last == login || (login == "" && last == run[i].value)
  }

  /** Over any run from the login on, the expiring baseline reports exactly what the
      tracker reports if and only if every lapsed request is harmless. */
  lemma StoreIsTrackerIff(m: map<Sid, Entry<string>>, sid: Sid, login: string, at: nat, run: seq<Seen>)
    requires sid !in m && Ordered(at, run)
    ensures Reports(m, sid, login, run) == Tracker(login, run)
       <==> forall i | 0 <= i < |run| :: Harmless(login, Seen(at, login), run, i)
  {
    var first := Seen(at, login);
    var reports, tracker := Reports(m, sid, login, run), Tracker(login, run);
    if run != [] {
      ReportsAre(m, sid, login, first, run, at, 0);
      TrackerReports(first, run, 0);
      assert |reports| == |tracker| == |run|;
    }
    forall i | 0 <= i < |run| ensures reports[i] == tracker[i] <==> Harmless(login, first, run, i) {
      ReportsAre(m, sid, login, first, run, at, i);
      TrackerReports(first, run, i);
      PreviousIsKnown(first, run, i);
    }
  }

  lemma {:induction false} PreviousIsKnown(first: Seen, run: seq<Seen>, i: nat)
    requires i <= |run|
    ensures Previous(first, run, i).value != "" || Previous(first, run, i) == first
  {
    if i > 0 { PreviousIsKnown(first, run, i - 1); }
  }

  /** Known values come less than a session lifetime apart. */
  ghost predicate Steady(first: Seen, run: seq<Seen>) {
    forall i | 0 <= i < |run| && run[i].value != "" && Previous(first, run, i) != first :: !Lapsed(first, run, i)
  }

  /** Then the reports raised are the changes between neighbours in the login value
      followed by the known values of the requests. */
  lemma SteadyRunRaisesChanges(m: map<Sid, Entry<string>>, sid: Sid, login: string, at: nat, run: seq<Seen>)
    requires sid !in m && Ordered(at, run) && Steady(Seen(at, login), run)
    ensures Reports(m, sid, login, run) == Tracker(login, run)
    ensures Raised(Reports(m, sid, login, run)) == Changes(Known([login] + Values(run)))
  {
    var first := Seen(at, login);
    forall i | 0 <= i < |run| ensures Harmless(login, first, run, i) {
      PreviousIsKnown(first, run, i);
    }
    StoreIsTrackerIff(m, sid, login, at, run);
    TrackerRaisesChanges(login, run);
  }

  // ---- a lapse that matters -----------------------------------------------------------------------

  const QUIET_DAY: seq<Seen> := [Seen(10, "US"), Seen(50000, ""), Seen(90000, "")]

  /** A day without a known country while the session is kept alive: coming back from
      where the session last was is reported, going back to the login country is not. */
  lemma LapseMisreports(sid: Sid)
    ensures Reports(map[], sid, "DE", QUIET_DAY + [Seen(90010, "US")]) == [Some("DE"), None, None, Some("DE")]
    ensures Tracker("DE", QUIET_DAY + [Seen(90010, "US")]) == [Some("DE"), None, None, None]
    ensures Reports(map[], sid, "DE", QUIET_DAY + [Seen(90010, "DE")]) == [Some("DE"), None, None, None]
    ensures Tracker("DE", QUIET_DAY + [Seen(90010, "DE")]) == [Some("DE"), None, None, Some("US")]
  {
    QuietDayReports(sid, "US");
    QuietDayTracker("US");
    QuietDayReports(sid, "DE");
    QuietDayTracker("DE");
  }

  lemma QuietDayReports(sid: Sid, country: string)
    ensures Reports(map[], sid, "DE", QUIET_DAY + [Seen(90010, country)])
         == [Some("DE"), None, None, Report("DE", country)]
  {
    var first, run := Seen(0, "DE"), QUIET_DAY + [Seen(90010, country)];
    ReportsAre(map[], sid, "DE", first, run, 0, 0);
    ReportsAre(map[], sid, "DE", first, run, 0, 1);
    ReportsAre(map[], sid, "DE", first, run, 0, 2);
    ReportsAre(map[], sid, "DE", first, run, 0, 3);
    PreviousOfQuiet(first, run);
  }

  lemma QuietDayTracker(country: string)
    ensures Tracker("DE", QUIET_DAY + [Seen(90010, country)]) == [Some("DE"), None, None, Report("US", country)]
  {
    var first, run := Seen(0, "DE"), QUIET_DAY + [Seen(90010, country)];
    TrackerReports(first, run, 0);
    TrackerReports(first, run, 1);
    TrackerReports(first, run, 2);
    TrackerReports(first, run, 3);
    PreviousOfQuiet(first, run);
  }

  lemma PreviousOfQuiet(first: Seen, run: seq<Seen>)
    requires |run| == 4 && run[0].value != "" && run[1].value == run[2].value == ""
    ensures Previous(first, run, 1) == Previous(first, run, 2) == Previous(first, run, 3) == run[0]
  {
    assert Previous(first, run, 1) == run[0];
    assert Previous(first, run, 2) == run[0];
  }
}
