/** The audit_log table with its three operations, as they change or walk it. */
module AuditLog {
  import opened Wrappers
  import opened Crypto
  import opened AuditFormat
  import opened AuditChain
  import opened AuditSearch

  const DEFAULT_VERIFY_LIMIT: int := 50000
  const MAX_INT64: int := 0x7fff_ffff_ffff_ffff

  datatype LogParams = LogParams(
    eventType: string,
    actorId: string,
    actorEmail: string,
    targetId: string,
    targetEmail: string,
    details: string)

  datatype VerifyResult = VerifyResult(ok: bool, entriesChecked: int, brokenAtId: int, complete: bool)

  datatype VerifyError = NegativeLimit

  /** The bound Verify walks with, before the one extra row is added in int64. */
  function WalkLimit(limit: int): int {
    if limit <= 0 then DEFAULT_VERIFY_LIMIT else limit
  }

  function LatestHash(rows: seq<Row>): string {
    if rows == [] then "" else rows[|rows| - 1].hash
  }

  /** Row i is the first one the walk rejects. */
  ghost predicate FirstBad(mac: string -> string, rows: seq<Row>, i: nat) {
    i < |rows| && BadAt(mac, rows, i) && forall j | 0 <= j < i :: !BadAt(mac, rows, j)
  }

  /** What Verify has to answer about `rows` when it may look at `limit` of them. */
  ghost predicate Verdict(mac: string -> string, rows: seq<Row>, limit: nat, r: VerifyResult) {
    if exists i: nat :: i < limit && FirstBad(mac, rows, i) then
      var i: nat :| i < limit && FirstBad(mac, rows, i);
      r == VerifyResult(false, i + 1, rows[i].id, false)
    else
      r == VerifyResult(true, if |rows| <= limit then |rows| else limit, 0, |rows| <= limit)
  }

  lemma FirstBadUnique(mac: string -> string, rows: seq<Row>, i: nat, j: nat)
    requires FirstBad(mac, rows, i) && FirstBad(mac, rows, j)
    ensures i == j
  {
  }

  /** A complete clean answer means that every link and every hash of the table is right. */
  lemma CompleteVerdictMeansChained(mac: string -> string, rows: seq<Row>, limit: nat, r: VerifyResult)
    requires Verdict(mac, rows, limit, r)
    ensures r.ok && r.complete <==> Chained(mac, rows) && |rows| <= limit
  {
    if !Chained(mac, rows) && |rows| <= limit {
      var i :| 0 <= i < |rows| && BadAt(mac, rows, i);
      var n := SomeFirstBad(mac, rows, i);
    }
  }

  lemma {:induction false} SomeFirstBad(mac: string -> string, rows: seq<Row>, i: nat) returns (n: nat)
    requires i < |rows| && BadAt(mac, rows, i)
    ensures n <= i && FirstBad(mac, rows, n)
  {
    if j: nat :| j < i && BadAt(mac, rows, j) {
      n := SomeFirstBad(mac, rows, j);
    } else {
      n := i;
    }
  }

  /** Verify's answer against the log: with issued hashes and separator-free fields,
      a complete clean answer on a table is exactly that the table fits the limit
      and is a contiguous segment of the log. */
  lemma CleanVerifyIffSegment(mac: string -> string, log: seq<Row>, rows: seq<Row>, limit: nat, r: VerifyResult)
    requires Ideal(mac) && Honest(mac, log) && Issued(log, rows)
    requires BarFreeRows(log) && BarFreeRows(rows)
    requires Verdict(mac, rows, limit, r)
    ensures r.ok && r.complete <==>
            |rows| <= limit && exists at: nat :: SegmentAt(mac, log, rows, at)
  {
    CompleteVerdictMeansChained(mac, rows, limit, r);
    VerifiedIffSegment(mac, log, rows);
  }

  // ---- writing one entry --------------------------------------------------------

  /** The caller's fields and the three ciphertext columns, before the row is linked. */
  function Sealed(c: Cipher, p: LogParams, n1: nat, n2: nat, n3: nat): Row {
    Row(0, 0, p.eventType, p.actorId, c.seal(n1, p.actorEmail), p.targetId,
        if p.targetEmail == "" then "" else c.seal(n2, p.targetEmail),
        if p.details == "" then "" else c.seal(n3, p.details), "", "")
  }

  /** `draft` as stored: numbered, timestamped and linked to the hash before it. */
  function LoggedRow(mac: string -> string, draft: Row, id: int, now: int, prev: string): Row {
    var r := draft.(id := id, createdAt := now, prevHash := prev);
    r.(hash := EntryHmac(mac, r))
  }

  lemma LoggedRowFacts(mac: string -> string, draft: Row, id: int, now: int, prev: string)
    ensures var r := LoggedRow(mac, draft, id, now, prev);
            r.hash == EntryHmac(mac, r) && r.CurrentParts() == draft.(prevHash := prev).CurrentParts()
  {
    var r := draft.(id := id, createdAt := now, prevHash := prev);
    assert r.(hash := EntryHmac(mac, r)).CurrentParts() == r.CurrentParts();
  }

  lemma AppendKeepsHonest(mac: string -> string, rows: seq<Row>, r: Row)
    requires Honest(mac, rows) && r.prevHash == LatestHash(rows) && HashMatches(mac, r)
    requires forall i | 0 <= i < |rows| :: rows[i].id < r.id
    ensures Honest(mac, rows + [r])
  {
    forall i | 0 <= i < |rows + [r]| ensures !BadAt(mac, rows + [r], i) {
      if i < |rows| { assert !BadAt(mac, rows, i); }
    }
  }

  /** An entry reads back with exactly the emails and details it was logged with. */
  lemma LoggedEntryReadsBack(mac: string -> string, reader: Reader, p: LogParams,
                             n1: nat, n2: nat, n3: nat, id: int, now: int, prev: string)
    requires Lawful(reader.cipher)
    ensures var e := ToEntry(reader, LoggedRow(mac, Sealed(reader.cipher, p, n1, n2, n3), id, now, prev));
            && e.id == id && e.createdAt == now && e.eventType == p.eventType
            && e.actorId == p.actorId && e.actorEmail == p.actorEmail
            && e.targetId == p.targetId && e.targetEmail == p.targetEmail
            && e.details == p.details && e.prevHash == prev
  {
    var c := reader.cipher;
    assert c.open(c.seal(n1, p.actorEmail)) == Some(p.actorEmail);
    assert c.open(c.seal(n2, p.targetEmail)) == Some(p.targetEmail);
    assert c.open(c.seal(n3, p.details)) == Some(p.details);
    assert c.seal(n2, p.targetEmail) != "" && c.seal(n3, p.details) != "";
  }

  /** Only the three plain fields can bring a separator into a log. */
  lemma LoggedRowBarFree(mac: string -> string, c: Cipher, log: seq<Row>, p: LogParams,
                         n1: nat, n2: nat, n3: nat, id: int, now: int)
    requires Lawful(c) && Ideal(mac) && Honest(mac, log)
    requires BAR !in p.eventType && BAR !in p.actorId && BAR !in p.targetId
    ensures BarFreeRow(LoggedRow(mac, Sealed(c, p, n1, n2, n3), id, now, LatestHash(log)))
  {
    LoggedRowFacts(mac, Sealed(c, p, n1, n2, n3), id, now, LatestHash(log));
    if log != [] { LogPrevHashBarFree(mac, log, |log| - 1); }
  }

  class AuditTable {
    /** The committed rows in ascending id order. */
    var rows: seq<Row>
    /** The next value of the id sequence. */
    var nextId: int

    ghost predicate Valid()
      reads this
    {
      && IncreasingIds(rows) && PositiveIds(rows)
      && nextId >= 1
      && forall i | 0 <= i < |rows| :: rows[i].id < nextId
    }

    constructor ()
      ensures Valid() && rows == [] && nextId == 1
    {
      rows, nextId := [], 1;
    }

    /** Appends one entry, linked to the newest one. Nonces and clock are the
        environment's. An honest log stays one. */
    method Log(mac: string -> string, c: Cipher, p: LogParams, n1: nat, n2: nat, n3: nat, now: int)
      requires Valid()
      modifies this
      ensures Valid() && nextId == old(nextId) + 1
      ensures rows == old(rows) + [LoggedRow(mac, Sealed(c, p, n1, n2, n3), old(nextId), now, LatestHash(old(rows)))]
      ensures Honest(mac, old(rows)) ==> Honest(mac, rows)
    {
      var actorEmailEnc := c.seal(n1, p.actorEmail);
      var targetEmailEnc := "";
      if p.targetEmail != "" {
        targetEmailEnc := c.seal(n2, p.targetEmail);
      }
      var detailsEnc := "";
      if p.details != "" {
        detailsEnc := c.seal(n3, p.details);
      }
      var prevHash := LatestHash(rows);
      var r := Row(nextId, now, p.eventType, p.actorId, actorEmailEnc,
                   p.targetId, targetEmailEnc, detailsEnc, prevHash, "");
      r := r.(hash := EntryHmac(mac, r));
      LoggedRowFacts(mac, r.(id := 0, createdAt := 0, prevHash := "", hash := ""), nextId, now, prevHash);
      if Honest(mac, rows) { AppendKeepsHonest(mac, rows, r); }
      rows := rows + [r];
      nextId := nextId + 1;
    }

    /** Walks up to `limit` rows, oldest first. One row more than the limit is asked
        for, in int64 arithmetic: at the largest limit that count wraps around to a
        negative LIMIT, which the database refuses. */
    method Verify(mac: string -> string, limit: int) returns (res: Result<VerifyResult, VerifyError>)
      requires limit <= MAX_INT64
      ensures res.Err? <==> limit == MAX_INT64
      ensures res.Ok? ==> Verdict(mac, rows, WalkLimit(limit), res.value)
    {
      var bound := WalkLimit(limit);
      if bound == MAX_INT64 {
        return Err(NegativeLimit);
      }
      var fetched := Take(bound + 1, rows);
      var checked, expected, first := 0, "", true;
      while checked < |fetched|
        invariant 0 <= checked <= |fetched| && checked <= bound
        invariant first <==> checked == 0
        invariant checked > 0 ==> expected == rows[checked - 1].hash
        invariant forall i | 0 <= i < checked :: !BadAt(mac, rows, i)
      {
        if checked >= bound {
          return Ok(VerifyResult(true, checked, 0, false));
        }
        var r := fetched[checked];
        checked := checked + 1;
        if (!first && r.prevHash != expected) || !HashMatches(mac, r) {
          assert FirstBad(mac, rows, checked - 1);
          forall i: nat | FirstBad(mac, rows, i) ensures i == checked - 1 {
            FirstBadUnique(mac, rows, i, checked - 1);
          }
          return Ok(VerifyResult(false, checked, r.id, false));
        }
        first := false;
        expected := r.hash;
      }
      return Ok(VerifyResult(true, checked, 0, true));
    }

    /** One page of entries, newest first. Without a search text it is one query; with
        one, batches of 500 rows are scanned until enough matched, the rows ran out
        or 20000 were scanned. */
    method List(reader: Reader, p: ListParams) returns (entries: seq<Entry>)
      requires Valid()
      ensures p.needle == "" ==>
                entries == ToEntries(reader, Take(PageLimit(p), Newest(rows, p, p.before)))
      ensures p.needle != "" ==>
                entries == ToEntries(reader, SearchPage(Hit(reader, p.needle), rows, p, p.before))
    {
      var limit := PageLimit(p);
      if p.needle == "" {
        return ToEntries(reader, Take(limit, Newest(rows, p, p.before)));
      }
      var results := Scan(Hit(reader, p.needle), rows, p, limit);
      return ToEntries(reader, results);
    }
  }

  /** List's search mode on the rows in id order. */
  method Scan(hit: Row -> bool, rows: seq<Row>, p: ListParams, limit: nat) returns (results: seq<Row>)
    requires IncreasingIds(rows) && PositiveIds(rows) && limit >= 1
    ensures results == Take(limit, Matches(hit, Take(SEARCH_SCAN_CAP, Newest(rows, p, p.before))))
  {
    results := [];
    var cursor, scanned := p.before, 0;
    ghost var all, batches := Newest(rows, p, p.before), 0;
    while scanned < SEARCH_SCAN_CAP
      invariant scanned == batches * SEARCH_SCAN_BATCH && scanned <= |all| && scanned <= SEARCH_SCAN_CAP
      invariant Newest(rows, p, cursor) == all[scanned..]
      invariant results == Matches(hit, all[..scanned])
      invariant |results| < limit
    {
      var batch := Take(SEARCH_SCAN_BATCH, Newest(rows, p, cursor));
      if |batch| == 0 {
        break;
      }
      NextBatch(hit, rows, p, cursor, scanned);
      scanned := scanned + |batch|;
      var enough;
      results, enough := ScanBatch(hit, batch, results, limit);
      if enough {
        EnoughFound(hit, all, scanned, limit);
        return;
      }
      cursor := batch[|batch| - 1].id;
      if |batch| < SEARCH_SCAN_BATCH {
        break;
      }
      batches := batches + 1;
    }
    assert scanned == SEARCH_SCAN_CAP || scanned == |all|;
    assert all[..scanned] == Take(SEARCH_SCAN_CAP, all);
  }

  /** Fetching below the last id of one batch continues where that batch ended. */
  lemma NextBatch(hit: Row -> bool, rows: seq<Row>, p: ListParams, cursor: int, scanned: nat)
    requires IncreasingIds(rows) && PositiveIds(rows)
    requires scanned < |Newest(rows, p, p.before)|
    requires Newest(rows, p, cursor) == Newest(rows, p, p.before)[scanned..]
    ensures var all := Newest(rows, p, p.before);
            var batch := Take(SEARCH_SCAN_BATCH, Newest(rows, p, cursor));
            var next := scanned + |batch|;
            && |batch| >= 1 && next <= |all|
            && (|batch| < SEARCH_SCAN_BATCH ==> next == |all|)
            && Matches(hit, all[..next])
               == Matches(hit, all[..scanned]) + Matches(hit, batch)
            && Newest(rows, p, batch[|batch| - 1].id) == all[next..]
  {
    var all := Newest(rows, p, p.before);
    var batch := Take(SEARCH_SCAN_BATCH, Newest(rows, p, cursor));
    var next := scanned + |batch|;
    assert all[..next] == all[..scanned] + batch;
    MatchesAppend(hit, all[..scanned], batch);
    CursorContinues(rows, p, p.before, next);
  }

  /** The inner loop of List: adds the batch's matches until there are enough. */
  method ScanBatch(hit: Row -> bool, batch: seq<Row>, found: seq<Row>, limit: nat)
    returns (results: seq<Row>, enough: bool)
    requires |found| < limit
    ensures results == Take(limit, found + Matches(hit, batch))
    ensures enough <==> |found + Matches(hit, batch)| >= limit
  {
    results := found;
    for j := 0 to |batch|
      invariant results == found + Matches(hit, batch[..j])
      invariant |results| < limit
    {
      assert batch[..j] + [batch[j]] == batch[..j + 1];
      MatchesAppend(hit, batch[..j], [batch[j]]);
      if hit(batch[j]) {
        results := results + [batch[j]];
        if |results| >= limit {
          assert batch == batch[..j + 1] + batch[j + 1..];
          MatchesAppend(hit, batch[..j + 1], batch[j + 1..]);
          return results, true;
        }
      }
    }
    assert batch[..|batch|] == batch;
    return results, false;
  }

  /** Once the limit is reached, the rows not examined cannot change the page. */
  lemma EnoughFound(hit: Row -> bool, all: seq<Row>, n: nat, limit: nat)
    requires n <= |all| && n <= SEARCH_SCAN_CAP
    requires |Matches(hit, all[..n])| >= limit
    ensures Take(limit, Matches(hit, Take(SEARCH_SCAN_CAP, all)))
         == Take(limit, Matches(hit, all[..n]))
  {
    var scanned := Take(SEARCH_SCAN_CAP, all);
    assert scanned == all[..n] + scanned[n..];
    MatchesAppend(hit, all[..n], scanned[n..]);
  }
}
