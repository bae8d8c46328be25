/** The audit log's hash chain: what makes a table verify, and what a verified
    table tells about the log it came from. */
module AuditChain {
  import opened Crypto
  import opened AuditFormat

  datatype Row = Row(
    id: int,
    createdAt: int,
    eventType: string,
    actorId: string,
    actorEmailEnc: string,
    targetId: string,
    targetEmailEnc: string,
    detailsEnc: string,
    prevHash: string,
    hash: string)
  {
    /** Everything the current formula hashes, prev_hash last. */
    function CurrentParts(): seq<string> {
      [eventType, actorId, targetId, actorEmailEnc, targetEmailEnc, detailsEnc, prevHash]
    }

    /** Everything the formula in use before the ciphertexts were covered hashes. */
    function LegacyParts(): seq<string> {
      [eventType, actorId, targetId, prevHash]
    }
  }

  function EntryHmac(mac: string -> string, r: Row): string {
    mac(Join(r.CurrentParts()))
  }

  function LegacyEntryHmac(mac: string -> string, r: Row): string {
    mac(Join(r.LegacyParts()))
  }

  /** The stored hash is the one either formula recomputes. */
  predicate HashMatches(mac: string -> string, r: Row) {
    r.hash == EntryHmac(mac, r) || r.hash == LegacyEntryHmac(mac, r)
  }

  /** Row i is the reason a walk over `rows` would stop. The first row's
      prev_hash is not compared with anything. */
  predicate BadAt(mac: string -> string, rows: seq<Row>, i: nat)
    requires i < |rows|
  {
    (i > 0 && rows[i].prevHash != rows[i - 1].hash) || !HashMatches(mac, rows[i])
  }

  ghost predicate Chained(mac: string -> string, rows: seq<Row>) {
    forall i | 0 <= i < |rows| :: !BadAt(mac, rows, i)
  }

  ghost predicate IncreasingIds(rows: seq<Row>) {
    forall i, j | 0 <= i < j < |rows| :: rows[i].id < rows[j].id
  }

  /** A log as written: ids increase, the first entry has no predecessor, every
      other one carries its predecessor's hash, and each hash was computed by one
      of the two formulas. */
  ghost predicate Honest(mac: string -> string, log: seq<Row>) {
    && IncreasingIds(log)
    && Chained(mac, log)
    && (log != [] ==> log[0].prevHash == "")
  }

  /** Every stored hash was issued for some entry of the log. */
  ghost predicate Issued(log: seq<Row>, rows: seq<Row>) {
    forall i | 0 <= i < |rows| :: IssuedHash(log, rows[i].hash)
  }

  ghost predicate IssuedHash(log: seq<Row>, hash: string) {
    exists k :: 0 <= k < |log| && hash == log[k].hash
  }

  // ---- all hashes of a log are different ----------------------------------

  lemma LogPrevHashBarFree(mac: string -> string, log: seq<Row>, k: nat)
    requires Ideal(mac) && Honest(mac, log) && k < |log|
    ensures BAR !in log[k].prevHash && BAR !in log[k].hash && log[k].hash != ""
    ensures log[k].prevHash == "" <==> k == 0
  {
    assert !BadAt(mac, log, k);
    if k > 0 { assert !BadAt(mac, log, k - 1); }
  }

  /** Equal hashes mean equal prev_hash, whichever formulas computed them and
      whatever the other fields contain. */
  lemma SameHashSamePrev(mac: string -> string, r: Row, l: Row)
    requires Ideal(mac) && HashMatches(mac, r) && HashMatches(mac, l)
    requires r.hash == l.hash
    requires BAR !in r.prevHash && BAR !in l.prevHash
    ensures r.prevHash == l.prevHash
  {
    var rc, rl := r.CurrentParts()[..6], r.LegacyParts()[..3];
    var lc, ll := l.CurrentParts()[..6], l.LegacyParts()[..3];
    assert r.CurrentParts() == rc + [r.prevHash] && r.LegacyParts() == rl + [r.prevHash];
    assert l.CurrentParts() == lc + [l.prevHash] && l.LegacyParts() == ll + [l.prevHash];
    var rp := if r.hash == EntryHmac(mac, r) then rc else rl;
    var lp := if l.hash == EntryHmac(mac, l) then lc else ll;
    assert mac(Join(rp + [r.prevHash])) == mac(Join(lp + [l.prevHash]));
    LastPartRecovered(rp, r.prevHash, lp, l.prevHash);
  }

  lemma {:induction false} HashesDiffer(mac: string -> string, log: seq<Row>, i: nat, j: nat)
    requires Ideal(mac) && Honest(mac, log)
    requires i < j < |log|
    ensures log[i].hash != log[j].hash
  {
    if log[i].hash == log[j].hash {
      assert !BadAt(mac, log, i) && !BadAt(mac, log, j);
      LogPrevHashBarFree(mac, log, i);
      LogPrevHashBarFree(mac, log, j);
      SameHashSamePrev(mac, log[i], log[j]);
      if i > 0 {
        HashesDiffer(mac, log, i - 1, j - 1);
      }
    }
  }

  // ---- a verified table is a contiguous piece of the log --------------------

  /** Entry i of the table carries the hash of log entry `at + i`; from the second
      entry on its prev_hash is that log entry's too. */
  ghost predicate AlignedAt(log: seq<Row>, rows: seq<Row>, at: nat) {
    && at + |rows| <= |log|
    && forall i | 0 <= i < |rows| ::
         rows[i].hash == log[at + i].hash && (i > 0 ==> rows[i].prevHash == log[at + i].prevHash)
  }

  /** Consecutive verified rows carry the hashes of consecutive log entries. */
  lemma NextEntry(mac: string -> string, log: seq<Row>, rows: seq<Row>, i: nat, k: nat)
    requires Ideal(mac) && Honest(mac, log) && Issued(log, rows)
    requires i + 1 < |rows| && k < |log|
    requires !BadAt(mac, rows, i) && !BadAt(mac, rows, i + 1)
    requires rows[i].hash == log[k].hash
    ensures k + 1 < |log| && rows[i + 1].hash == log[k + 1].hash
    ensures rows[i + 1].prevHash == log[k + 1].prevHash
  {
    var n :| 0 <= n < |log| && rows[i + 1].hash == log[n].hash;
    assert !BadAt(mac, log, n);
    LogPrevHashBarFree(mac, log, n);
    LogPrevHashBarFree(mac, log, k);
    SameHashSamePrev(mac, rows[i + 1], log[n]);
    if n - 1 < k {
      HashesDiffer(mac, log, n - 1, k);
    } else if k < n - 1 {
      HashesDiffer(mac, log, k, n - 1);
    }
  }

  /** Whatever is stored in the other fields, a table that verifies and reuses only
      issued hashes lines up, entry by entry, with consecutive log entries. */
  lemma {:induction false} VerifiedIsAligned(mac: string -> string, log: seq<Row>, rows: seq<Row>)
    requires Ideal(mac) && Honest(mac, log) && Issued(log, rows)
    requires Chained(mac, rows)
    ensures exists at: nat :: AlignedAt(log, rows, at)
  {
    if |rows| <= 1 {
      if |rows| == 1 {
        assert IssuedHash(log, rows[0].hash);
        var k :| 0 <= k < |log| && rows[0].hash == log[k].hash;
        assert AlignedAt(log, rows, k);
      } else {
        assert AlignedAt(log, rows, 0);
      }
    } else {
      var n := |rows| - 1;
      var front := rows[..n];
      assert Chained(mac, front) by {
        forall i | 0 <= i < n ensures !BadAt(mac, front, i) { assert !BadAt(mac, rows, i); }
      }
      VerifiedIsAligned(mac, log, front);
      var at: nat :| AlignedAt(log, front, at);
      assert front[n - 1].hash == log[at + n - 1].hash;
      assert !BadAt(mac, rows, n - 1) && !BadAt(mac, rows, n);
      NextEntry(mac, log, rows, n - 1, at + n - 1);
      assert AlignedAt(log, rows, at) by {
        forall i | 0 <= i < |rows|
          ensures rows[i].hash == log[at + i].hash && (i > 0 ==> rows[i].prevHash == log[at + i].prevHash)
        {
          if i < n { assert rows[i] == front[i]; }
        }
      }
    }
  }

  /** What the hash protects: everything but the id, the timestamp and, on an entry
      hashed by the legacy formula, the three ciphertext columns. */
  ghost predicate SameEntry(mac: string -> string, r: Row, l: Row) {
    && r.eventType == l.eventType && r.actorId == l.actorId && r.targetId == l.targetId
    && r.prevHash == l.prevHash && r.hash == l.hash
    && (l.hash == LegacyEntryHmac(mac, l)
        || (r.actorEmailEnc == l.actorEmailEnc
            && r.targetEmailEnc == l.targetEmailEnc
            && r.detailsEnc == l.detailsEnc))
  }

  ghost predicate SegmentAt(mac: string -> string, log: seq<Row>, rows: seq<Row>, at: nat) {
    && at + |rows| <= |log|
    && forall i | 0 <= i < |rows| :: SameEntry(mac, rows[i], log[at + i])
  }

  ghost predicate BarFreeRow(r: Row) {
    BarFree(r.CurrentParts())
  }

  ghost predicate BarFreeRows(rows: seq<Row>) {
    forall i | 0 <= i < |rows| :: BarFreeRow(rows[i])
  }

  lemma LegacyBarFree(r: Row)
    requires BarFreeRow(r)
    ensures BarFree(r.LegacyParts())
  {
    var c, l := r.CurrentParts(), r.LegacyParts();
    assert l[0] == c[0] && l[1] == c[1] && l[2] == c[2] && l[3] == c[6];
  }

  /** The 7-field and the 4-field formula never agree, not even on different rows. */
  lemma FormatsNeverCollide(mac: string -> string, r: Row, l: Row)
    requires Ideal(mac) && BarFreeRow(r) && BarFreeRow(l)
    ensures EntryHmac(mac, r) != LegacyEntryHmac(mac, l)
  {
    LegacyBarFree(l);
    if EntryHmac(mac, r) == LegacyEntryHmac(mac, l) {
      JoinInjective(r.CurrentParts(), l.LegacyParts());
    }
  }

  lemma SameHashSameEntry(mac: string -> string, r: Row, l: Row)
    requires Ideal(mac) && BarFreeRow(r) && BarFreeRow(l)
    requires HashMatches(mac, r) && HashMatches(mac, l) && r.hash == l.hash
    ensures SameEntry(mac, r, l)
  {
    FormatsNeverCollide(mac, r, l);
    FormatsNeverCollide(mac, l, r);
    LegacyBarFree(r);
    LegacyBarFree(l);
    if l.hash == LegacyEntryHmac(mac, l) {
      JoinInjective(r.LegacyParts(), l.LegacyParts());
      var p, q := r.LegacyParts(), l.LegacyParts();
      assert p[0] == q[0] && p[1] == q[1] && p[2] == q[2] && p[3] == q[3];
    } else {
      JoinInjective(r.CurrentParts(), l.CurrentParts());
      var p, q := r.CurrentParts(), l.CurrentParts();
      assert p[0] == q[0] && p[1] == q[1] && p[2] == q[2] && p[3] == q[3]
          && p[4] == q[4] && p[5] == q[5] && p[6] == q[6];
    }
  }

  lemma SameEntryVerifies(mac: string -> string, r: Row, l: Row)
    requires HashMatches(mac, l) && SameEntry(mac, r, l)
    ensures HashMatches(mac, r)
  {
    if l.hash == LegacyEntryHmac(mac, l) {
      assert r.LegacyParts() == l.LegacyParts();
    } else {
      assert r.CurrentParts() == l.CurrentParts();
    }
  }

  /** The walk succeeds on a table exactly when the table is a contiguous segment of
      the log, so every edit, deletion, insertion or reordering in the interior
      shows; cutting off a whole prefix or suffix does not. */
  lemma VerifiedIffSegment(mac: string -> string, log: seq<Row>, rows: seq<Row>)
    requires Ideal(mac) && Honest(mac, log) && Issued(log, rows)
    requires BarFreeRows(log) && BarFreeRows(rows)
    ensures Chained(mac, rows) <==> exists at: nat :: SegmentAt(mac, log, rows, at)
  {
    if Chained(mac, rows) {
      VerifiedIsAligned(mac, log, rows);
      var at: nat :| AlignedAt(log, rows, at);
      forall i | 0 <= i < |rows| ensures SameEntry(mac, rows[i], log[at + i]) {
        assert !BadAt(mac, rows, i) && !BadAt(mac, log, at + i);
        SameHashSameEntry(mac, rows[i], log[at + i]);
      }
      assert SegmentAt(mac, log, rows, at);
    }
    if at: nat :| SegmentAt(mac, log, rows, at) {
      forall i | 0 <= i < |rows| ensures !BadAt(mac, rows, i) {
        assert !BadAt(mac, log, at + i);
        SameEntryVerifies(mac, rows[i], log[at + i]);
        if i > 0 {
          assert SameEntry(mac, rows[i - 1], log[at + (i - 1)]);
        }
      }
    }
  }

  lemma SegmentFirst(mac: string -> string, log: seq<Row>, rows: seq<Row>, at: nat)
    requires SegmentAt(mac, log, rows, at) && rows != []
    ensures rows[0].eventType == log[at].eventType
  {
    assert SameEntry(mac, rows[0], log[at + 0]);
  }

  /** The separator must not occur in a field: with it, text can move between two
      fields of an entry and the table still verifies. */
  lemma SeparatorInFieldDefeatsSegment(mac: string -> string) returns (log: seq<Row>, rows: seq<Row>)
    requires Ideal(mac)
    ensures Honest(mac, log) && Issued(log, rows) && Chained(mac, rows)
    ensures |rows| == |log| == 1 && !exists at: nat :: SegmentAt(mac, log, rows, at)
  {
    var l := Row(1, 0, "a", "b|c", "", "", "", "", "", "");
    l := l.(hash := EntryHmac(mac, l));
    var r := l.(eventType := "a|b", actorId := "c");
    var tail := ["", "", "", "", ""];
    assert r.CurrentParts() == ["a|b", "c"] + tail && l.CurrentParts() == ["a", "b|c"] + tail;
    assert l.CurrentParts()[1..] == ["b|c"] + tail && r.CurrentParts()[1..] == ["c"] + tail;
    assert (["b|c"] + tail)[1..] == tail && (["c"] + tail)[1..] == tail;
    assert Join(["b|c"] + tail) == "b|c" + [BAR] + Join(tail);
    assert Join(["c"] + tail) == "c" + [BAR] + Join(tail);
    assert Join(l.CurrentParts()) == "a" + [BAR] + ("b|c" + [BAR] + Join(tail));
    assert Join(r.CurrentParts()) == "a|b" + [BAR] + ("c" + [BAR] + Join(tail));
    assert Join(l.CurrentParts()) == Join(r.CurrentParts());
    log, rows := [l], [r];
    assert rows[0].hash == log[0].hash;
    forall at: nat ensures !SegmentAt(mac, log, rows, at) {
      if SegmentAt(mac, log, rows, at) {
        SegmentFirst(mac, log, rows, at);
      }
    }
  }
}
