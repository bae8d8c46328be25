/** Reading the audit log: SQL filters, the decrypting page query, and what the
    search mode's paged scan returns, as functions on the rows in id order. */
module AuditSearch {
  import opened Wrappers
  import opened Crypto
  import opened AuditChain

  const SEARCH_SCAN_BATCH: nat := 500
  const SEARCH_SCAN_CAP: nat := 20000
  const DEFAULT_LIMIT: nat := 50
  const MAX_LIMIT: nat := 200
  const DECRYPT_FAILED := "<decryption failed>"

  /** `needle` is the search text after trimming and lower-casing. */
  datatype ListParams = ListParams(
    eventType: string,
    actorId: string,
    since: Option<int>,
    until: Option<int>,
    needle: string,
    limit: int,
    before: int)

  datatype Entry = Entry(
    id: int,
    createdAt: int,
    eventType: string,
    actorId: string,
    actorEmail: string,
    actorName: string,
    targetId: string,
    targetEmail: string,
    targetName: string,
    details: string,
    prevHash: string,
    hash: string)

  /** What the reader needs besides the rows: the cipher, the encrypted display
      names of the users table, and Unicode lower-casing. */
  datatype Reader = Reader(cipher: Cipher, names: map<string, string>, lower: string -> string)

  function Take<T>(n: nat, s: seq<T>): seq<T> {
    if n <= |s| then s[..n] else s
  }

  function PageLimit(p: ListParams): nat {
    if p.limit <= 0 || p.limit > MAX_LIMIT then DEFAULT_LIMIT else p.limit
  }

  // ---- the SQL query ---------------------------------------------------------

  predicate Keeps(p: ListParams, before: int, r: Row) {
    && (p.eventType == "" || r.eventType == p.eventType)
    && (p.actorId == "" || r.actorId == p.actorId)
    && (p.since.Some? ==> r.createdAt >= p.since.value)
    && (p.until.Some? ==> r.createdAt <= p.until.value)
    && (before > 0 ==> r.id < before)
  }

  /** WHERE ... ORDER BY id DESC, over rows in ascending id order. */
  function Newest(rows: seq<Row>, p: ListParams, before: int): seq<Row> {
    if rows == [] then []
    else
      var n := |rows| - 1;
      var older := Newest(rows[..n], p, before);
      if Keeps(p, before, rows[n]) then [rows[n]] + older else older
  }

  function OpenOrMarker(c: Cipher, text: string): string {
    match c.open(text)
    case Some(plain) => plain
    case None => DECRYPT_FAILED
  }

  function OpenIfNotEmpty(c: Cipher, text: string): string {
    if text == "" then "" else OpenOrMarker(c, text)
  }

  function NameOf(reader: Reader, subject: string): string {
    if subject in reader.names then OpenIfNotEmpty(reader.cipher, reader.names[subject]) else ""
  }

  /** The decrypted form of a row: the actor's email is always decrypted, the other
      columns only when not empty. */
  function ToEntry(reader: Reader, r: Row): Entry {
    Entry(r.id, r.createdAt, r.eventType,
          r.actorId, OpenOrMarker(reader.cipher, r.actorEmailEnc), NameOf(reader, r.actorId),
          r.targetId, OpenIfNotEmpty(reader.cipher, r.targetEmailEnc), NameOf(reader, r.targetId),
          OpenIfNotEmpty(reader.cipher, r.detailsEnc), r.prevHash, r.hash)
  }

  function ToEntries(reader: Reader, rows: seq<Row>): (entries: seq<Entry>)
    ensures |entries| == |rows|
    ensures forall i | 0 <= i < |rows| :: entries[i] == ToEntry(reader, rows[i])
  {
    seq(|rows|, i requires 0 <= i < |rows| => ToEntry(reader, rows[i]))
  }

  predicate Contains(text: string, needle: string) {
    needle <= text || (text != "" && Contains(text[1..], needle))
  }

  predicate EntryMatches(reader: Reader, e: Entry, needle: string) {
    var fields := [e.eventType, e.actorId, e.actorEmail, e.actorName,
                   e.targetId, e.targetEmail, e.targetName, e.details];
    exists i | 0 <= i < |fields| :: fields[i] != "" && Contains(reader.lower(fields[i]), needle)
  }

  predicate RowMatches(reader: Reader, needle: string, r: Row) {
    EntryMatches(reader, ToEntry(reader, r), needle)
  }

  /** Whether the search text occurs in a row once it is decrypted. */
  function Hit(reader: Reader, needle: string): Row -> bool {
    (r: Row) => RowMatches(reader, needle, r)
  }

  function Matches(hit: Row -> bool, rows: seq<Row>): seq<Row> {
    if rows == [] then []
    else if hit(rows[0]) then [rows[0]] + Matches(hit, rows[1..])
    else Matches(hit, rows[1..])
  }

  /** The rows one search call returns: the first `limit` matches among the first
      20000 filtered rows below the cursor. */
  function SearchPage(hit: Row -> bool, rows: seq<Row>, p: ListParams, before: int): seq<Row> {
    Take(PageLimit(p), Matches(hit, Take(SEARCH_SCAN_CAP, Newest(rows, p, before))))
  }

  // ---- facts about the query ---------------------------------------------------

  ghost predicate PositiveIds(rows: seq<Row>) {
    forall i | 0 <= i < |rows| :: rows[i].id >= 1
  }

  ghost predicate DecreasingIds(rows: seq<Row>) {
    forall i, j | 0 <= i < j < |rows| :: rows[i].id > rows[j].id
  }

  lemma {:induction false} NewestAreRows(rows: seq<Row>, p: ListParams, before: int)
    ensures forall r :: r in Newest(rows, p, before) <==> r in rows && Keeps(p, before, r)
  {
    if rows != [] {
      var n := |rows| - 1;
      NewestAreRows(rows[..n], p, before);
      assert rows == rows[..n] + [rows[n]];
    }
  }

  /** The query returns exactly the rows that satisfy every condition, newest first. */
  lemma {:induction false} NewestSorted(rows: seq<Row>, p: ListParams, before: int)
    requires IncreasingIds(rows)
    ensures DecreasingIds(Newest(rows, p, before))
    ensures forall r :: r in Newest(rows, p, before) <==> r in rows && Keeps(p, before, r)
  {
    NewestAreRows(rows, p, before);
    if rows != [] {
      var n := |rows| - 1;
      NewestSorted(rows[..n], p, before);
      var older := Newest(rows[..n], p, before);
      forall j | 0 <= j < |older| ensures rows[n].id > older[j].id {
        assert older[j] in rows[..n];
        var k :| 0 <= k < n && rows[k] == older[j];
      }
    }
  }

  /** Row `k` of the result is one of the rows, so not newer than the last one. */
  lemma NewestMember(rows: seq<Row>, p: ListParams, before: int, k: nat)
    requires IncreasingIds(rows) && PositiveIds(rows) && k < |Newest(rows, p, before)|
    ensures var r := Newest(rows, p, before)[k];
            rows != [] && Keeps(p, before, r) && 1 <= r.id <= rows[|rows| - 1].id
  {
    NewestAreRows(rows, p, before);
    var r := Newest(rows, p, before)[k];
    assert r in rows;
    var i :| 0 <= i < |rows| && rows[i] == r;
  }

  /** With the cursor at or below the last row, that row no longer counts. */
  lemma CursorDropsLast(rows: seq<Row>, p: ListParams, cursor: int)
    requires rows != [] && 1 <= cursor <= rows[|rows| - 1].id
    ensures Newest(rows, p, cursor) == Newest(rows[..|rows| - 1], p, cursor)
  {
  }

  lemma WithoutLast(rows: seq<Row>)
    requires IncreasingIds(rows) && PositiveIds(rows) && rows != []
    ensures var older := rows[..|rows| - 1];
            && IncreasingIds(older) && PositiveIds(older)
            && forall i | 0 <= i < |older| :: older[i].id < rows[|rows| - 1].id
  {
  }

  /** A cursor set to a row the query returned continues right after that row. */
  lemma {:induction false} CursorContinues(rows: seq<Row>, p: ListParams, before: int, n: nat)
    requires IncreasingIds(rows) && PositiveIds(rows)
    requires 1 <= n <= |Newest(rows, p, before)|
    ensures Newest(rows, p, Newest(rows, p, before)[n - 1].id) == Newest(rows, p, before)[n..]
  {
    var last, older := rows[|rows| - 1], rows[..|rows| - 1];
    var all, kept := Newest(rows, p, before), Newest(older, p, before);
    NewestMember(rows, p, before, n - 1);
    CursorDropsLast(rows, p, all[n - 1].id);
    WithoutLast(rows);
    if !Keeps(p, before, last) {
      CursorContinues(older, p, before, n);
    } else if n == 1 {
      BelowNewest(older, p, before, last.id);
      assert all[1..] == kept;
    } else {
      assert all[n - 1] == kept[n - 2] && all[n..] == kept[n - 1..];
      CursorContinues(older, p, before, n - 1);
    }
  }

  /** A cursor above every row, no higher than the first one, removes nothing more. */
  lemma {:induction false} BelowNewest(rows: seq<Row>, p: ListParams, before: int, cursor: int)
    requires forall i | 0 <= i < |rows| :: rows[i].id < cursor
    requires cursor > 0 && (before > 0 ==> cursor < before)
    ensures Newest(rows, p, cursor) == Newest(rows, p, before)
  {
    if rows != [] {
      BelowNewest(rows[..|rows| - 1], p, before, cursor);
    }
  }

  // ---- facts about matching ----------------------------------------------------

  lemma {:induction false} MatchesAppend(hit: Row -> bool, a: seq<Row>, b: seq<Row>)
    ensures Matches(hit, a + b) == Matches(hit, a) + Matches(hit, b)
  {
    if a == [] {
      assert a + b == b;
    } else {
      MatchesAppend(hit, a[1..], b);
      assert (a + b)[1..] == a[1..] + b;
    }
  }

  lemma {:induction false} NoMatchMeansNone(hit: Row -> bool, rows: seq<Row>)
    ensures Matches(hit, rows) == []
       <==> forall i | 0 <= i < |rows| :: !hit(rows[i])
  {
    if rows != [] {
      NoMatchMeansNone(hit, rows[1..]);
      assert forall i | 0 < i < |rows| :: rows[i] == rows[1..][i - 1];
    }
  }

  /** The last of the first `limit` matches sits at some position of the scanned rows. */
  lemma {:induction false} LastMatchPosition(hit: Row -> bool, rows: seq<Row>, limit: nat) returns (n: nat)
    requires limit >= 1 && Matches(hit, rows) != []
    ensures 1 <= n <= |rows|
    ensures Take(limit, Matches(hit, rows)) == Matches(hit, rows[..n])
    ensures Matches(hit, rows[..n]) != []
    ensures rows[n - 1] == Matches(hit, rows[..n])[|Matches(hit, rows[..n])| - 1]
    ensures hit(rows[n - 1])
  {
    var last := |rows| - 1;
    var front := rows[..last];
    assert rows == front + [rows[last]];
    MatchesAppend(hit, front, [rows[last]]);
    if |Matches(hit, front)| >= limit || !hit(rows[last]) {
      n := LastMatchPosition(hit, front, limit);
      assert front[..n] == rows[..n];
    } else {
      n := |rows|;
      assert rows[..n] == rows;
    }
  }

  // ---- following the cursor page by page -----------------------------------------

  /** Every page a client collects by passing the last returned id as the next cursor,
      until a page comes back empty. */
  ghost function AllPages(hit: Row -> bool, rows: seq<Row>, p: ListParams, before: int): seq<Row>
    requires IncreasingIds(rows) && PositiveIds(rows)
    decreases |Newest(rows, p, before)|
  {
    var page := SearchPage(hit, rows, p, before);
    if page == [] then []
    else
      PageAdvances(hit, rows, p, before);
      page + AllPages(hit, rows, p, page[|page| - 1].id)
  }

  /** A non-empty page ends at row n of the query result, and the next page starts there. */
  lemma PagePosition(hit: Row -> bool, rows: seq<Row>, p: ListParams, before: int) returns (n: nat)
    requires IncreasingIds(rows) && PositiveIds(rows)
    requires SearchPage(hit, rows, p, before) != []
    ensures var all := Newest(rows, p, before);
            var page := SearchPage(hit, rows, p, before);
            && 1 <= n <= |all| && n <= SEARCH_SCAN_CAP
            && page == Matches(hit, all[..n])
            && hit(all[n - 1])
            && Newest(rows, p, page[|page| - 1].id) == all[n..]
  {
    var all := Newest(rows, p, before);
    var scanned := Take(SEARCH_SCAN_CAP, all);
    n := LastMatchPosition(hit, scanned, PageLimit(p));
    assert scanned[..n] == all[..n];
    CursorContinues(rows, p, before, n);
  }

  lemma PageAdvances(hit: Row -> bool, rows: seq<Row>, p: ListParams, before: int)
    requires IncreasingIds(rows) && PositiveIds(rows)
    requires SearchPage(hit, rows, p, before) != []
    ensures var page := SearchPage(hit, rows, p, before);
            |Newest(rows, p, page[|page| - 1].id)| < |Newest(rows, p, before)|
  {
    var n := PagePosition(hit, rows, p, before);
  }

  /** Before every match, within the last 20000 rows, there is another match or the start. */
  ghost predicate NoLongGap(hit: Row -> bool, rows: seq<Row>) {
    forall j | 0 <= j < |rows| && hit(rows[j]) ::
      CloseMatchBefore(hit, rows, j)
  }

  ghost predicate CloseMatchBefore(hit: Row -> bool, rows: seq<Row>, j: nat)
    requires j < |rows|
  {
    j < SEARCH_SCAN_CAP
    || exists i :: 0 <= i < j && j - SEARCH_SCAN_CAP <= i && hit(rows[i])
  }

  lemma GapAfterPage(hit: Row -> bool, rows: seq<Row>, n: nat)
    requires 1 <= n <= |rows| && n <= SEARCH_SCAN_CAP && hit(rows[n - 1])
    ensures NoLongGap(hit, rows) <==> NoLongGap(hit, rows[n..])
  {
    var rest := rows[n..];
    forall j | 0 <= j < |rest| && hit(rest[j])
      ensures CloseMatchBefore(hit, rest, j) <==> CloseMatchBefore(hit, rows, n + j)
    {
      if j < SEARCH_SCAN_CAP {
        assert 0 <= n - 1 < n + j && n + j - SEARCH_SCAN_CAP <= n - 1;
      } else {
        forall i | j - SEARCH_SCAN_CAP <= i < j ensures rest[i] == rows[n + i] {}
        if CloseMatchBefore(hit, rows, n + j) {
          var i :| 0 <= i < n + j && n + j - SEARCH_SCAN_CAP <= i && hit(rows[i]);
          assert rest[i - n] == rows[i];
        }
      }
    }
    assert forall j | 0 <= j < |rest| :: rest[j] == rows[n + j];
    if NoLongGap(hit, rest) {
      forall j | 0 <= j < |rows| && hit(rows[j])
        ensures CloseMatchBefore(hit, rows, j)
      {
        if j >= n { assert rest[j - n] == rows[j]; }
      }
    }
  }

  /** Paging loses nothing and repeats nothing exactly when no run of 20000 filtered
      rows without a match stands before a match. */
  lemma {:induction false} PagesCompleteIffNoLongGap(hit: Row -> bool, rows: seq<Row>, p: ListParams, before: int)
    requires IncreasingIds(rows) && PositiveIds(rows)
    ensures AllPages(hit, rows, p, before) == Matches(hit, Newest(rows, p, before))
       <==> NoLongGap(hit, Newest(rows, p, before))
    decreases |Newest(rows, p, before)|
  {
    var all := Newest(rows, p, before);
    var page := SearchPage(hit, rows, p, before);
    if page == [] {
      EmptyPage(hit, p, all);
    } else {
      PageAdvances(hit, rows, p, before);
      var n := PagePosition(hit, rows, p, before);
      var cursor := page[|page| - 1].id;
      PagesCompleteIffNoLongGap(hit, rows, p, cursor);
      assert all == all[..n] + all[n..];
      MatchesAppend(hit, all[..n], all[n..]);
      GapAfterPage(hit, all, n);
      var rest, want := AllPages(hit, rows, p, cursor), Matches(hit, all[n..]);
      assert (page + rest)[|page|..] == rest && (page + want)[|page|..] == want;
    }
  }

  lemma EmptyPage(hit: Row -> bool, p: ListParams, all: seq<Row>)
    requires Take(PageLimit(p), Matches(hit, Take(SEARCH_SCAN_CAP, all))) == []
    ensures Matches(hit, all) == [] <==> NoLongGap(hit, all)
  {
    var scanned := Take(SEARCH_SCAN_CAP, all);
    NoMatchMeansNone(hit, scanned);
    NoMatchMeansNone(hit, all);
    if NoLongGap(hit, all) && Matches(hit, all) != [] {
      var j :| 0 <= j < |all| && hit(all[j]);
      assert forall i | 0 <= i < |scanned| :: scanned[i] == all[i];
      FirstMatchIsFar(hit, all, j);
    }
  }

  lemma {:induction false} FirstMatchIsFar(hit: Row -> bool, all: seq<Row>, j: nat)
    requires forall i | 0 <= i < |all| && i < SEARCH_SCAN_CAP :: !hit(all[i])
    requires j < |all| && hit(all[j])
    ensures !NoLongGap(hit, all)
    decreases j
  {
    if CloseMatchBefore(hit, all, j) {
      var i :| 0 <= i < j && j - SEARCH_SCAN_CAP <= i && hit(all[i]);
      FirstMatchIsFar(hit, all, i);
    }
  }

  lemma {:induction false} MatchesAreTheHits(hit: Row -> bool, rows: seq<Row>)
    requires DecreasingIds(rows)
    ensures DecreasingIds(Matches(hit, rows))
    ensures forall r :: r in Matches(hit, rows) <==> r in rows && hit(r)
  {
    if rows != [] {
      MatchesAreTheHits(hit, rows[1..]);
      var rest := Matches(hit, rows[1..]);
      forall j | 0 <= j < |rest| ensures rows[0].id > rest[j].id {
        assert rest[j] in rows[1..];
        var k :| 1 <= k < |rows| && rows[k] == rest[j];
      }
      assert rows == [rows[0]] + rows[1..];
    }
  }

  /** As long as the filters leave no more rows than the cap, the pages together hold
      each matching row below the cursor once, newest first, and nothing else. */
  lemma PagesCompleteBelowCap(hit: Row -> bool, rows: seq<Row>, p: ListParams, before: int)
    requires IncreasingIds(rows) && PositiveIds(rows)
    requires |Newest(rows, p, before)| <= SEARCH_SCAN_CAP
    ensures DecreasingIds(AllPages(hit, rows, p, before))
    ensures forall r :: r in AllPages(hit, rows, p, before) <==> r in rows && Keeps(p, before, r) && hit(r)
  {
    PagesCompleteIffNoLongGap(hit, rows, p, before);
    NewestSorted(rows, p, before);
    MatchesAreTheHits(hit, Newest(rows, p, before));
  }

  // ---- a match beyond the cap -------------------------------------------------------

  /** A row with an event type and, as every logged row, an encrypted actor email. */
  function PlainRow(c: Cipher, id: nat, eventType: string): Row {
    Row(id, 0, eventType, "", c.seal(0, ""), "", "", "", "", "")
  }

  /** One row of interest, the oldest, and 20000 newer ones. */
  function LongTable(c: Cipher): (rows: seq<Row>)
    ensures |rows| == SEARCH_SCAN_CAP + 1
    ensures forall i | 0 <= i < |rows| :: rows[i] == PlainRow(c, i + 1, if i == 0 then "a" else "b")
  {
    seq(SEARCH_SCAN_CAP + 1, i requires 0 <= i <= SEARCH_SCAN_CAP => PlainRow(c, i + 1, if i == 0 then "a" else "b"))
  }

  const NO_FILTER := ListParams("", "", None, None, "a", 0, 0)

  function Reversed(rows: seq<Row>): (r: seq<Row>)
    ensures |r| == |rows| && forall i | 0 <= i < |rows| :: r[i] == rows[|rows| - 1 - i]
  {
    seq(|rows|, i requires 0 <= i < |rows| => rows[|rows| - 1 - i])
  }

  lemma {:induction false} UnfilteredIsReversed(rows: seq<Row>)
    ensures Newest(rows, NO_FILTER, 0) == Reversed(rows)
  {
    if rows != [] {
      UnfilteredIsReversed(rows[..|rows| - 1]);
    }
  }

  lemma OnlyEventType(reader: Reader, id: nat, eventType: string)
    requires reader.names == map[] && reader.lower("a") == "a" && reader.lower("b") == "b"
    requires Lawful(reader.cipher)
    requires eventType in {"a", "b"}
    ensures Hit(reader, "a")(PlainRow(reader.cipher, id, eventType)) <==> eventType == "a"
  {
    var e := ToEntry(reader, PlainRow(reader.cipher, id, eventType));
    var fields := [e.eventType, e.actorId, e.actorEmail, e.actorName,
                   e.targetId, e.targetEmail, e.targetName, e.details];
    assert fields == [eventType, "", "", "", "", "", "", ""];
    if eventType == "a" {
      assert fields[0] != "" && Contains(reader.lower(fields[0]), "a");
    } else {
      assert "b"[1..] == "" && !Contains("", "a") && !("a" <= "b");
      assert !Contains("b", "a");
    }
  }

  /** 20001 rows of which the oldest is the only match: the first search page is empty, so
      no cursor ever leads to the match. */
  lemma MatchBeyondCap(reader: Reader)
    requires reader.names == map[] && reader.lower("a") == "a" && reader.lower("b") == "b"
    requires Lawful(reader.cipher)
    ensures var rows, hit := LongTable(reader.cipher), Hit(reader, "a");
            && |rows| == 20001 && IncreasingIds(rows) && PositiveIds(rows)
            && hit(rows[0]) && Keeps(NO_FILTER, 0, rows[0])
            && SearchPage(hit, rows, NO_FILTER, 0) == []
            && AllPages(hit, rows, NO_FILTER, 0) == []
  {
    var rows, hit := LongTable(reader.cipher), Hit(reader, "a");
    OnlyEventType(reader, 1, "a");
    UnfilteredIsReversed(rows);
    var scanned := Take(SEARCH_SCAN_CAP, Reversed(rows));
    forall i | 0 <= i < |scanned| ensures !hit(scanned[i]) {
      assert scanned[i] == rows[SEARCH_SCAN_CAP - i];
      OnlyEventType(reader, SEARCH_SCAN_CAP - i + 1, "b");
    }
    NoMatchMeansNone(hit, scanned);
  }
}
