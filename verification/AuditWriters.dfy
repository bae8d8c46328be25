/** Any number of concurrent Log calls as a state machine over their database
    steps. A transaction may be rolled back at every point, and the id sequence
    never takes a value back. */
module AuditWriters {
  import opened Wrappers
  import opened Crypto
  import opened AuditChain
  import opened AuditLog

  /** Where one Log call stands. `draft` holds the caller's fields and ciphertexts. */
  datatype Writer =
    | Begun(draft: Row)
    | Locked(draft: Row)
    | ReadDone(draft: Row, prev: string)
    | Inserted(row: Row)

  /** `committed` is in commit order; an inserted row is visible only once committed. */
  datatype State = State(
    committed: seq<Row>,
    writers: map<nat, Writer>,
    holder: Option<nat>,
    nextId: int)

  datatype Step =
    | Begin(w: nat, draft: Row)
    | Lock(w: nat)
    | ReadPrev(w: nat)
    | Insert(w: nat, now: int)
    | Commit(w: nat)
    | Rollback(w: nat)

  const INITIAL := State([], map[], None, 1)

  /** SELECT hash ... ORDER BY id DESC LIMIT 1 over rows in any order. */
  function NewestRow(rows: seq<Row>): Option<Row> {
    if rows == [] then None
    else
      var best := NewestRow(rows[1..]);
      if best.Some? && best.value.id > rows[0].id then best else Some(rows[0])
  }

  function ReadHash(rows: seq<Row>): string {
    match NewestRow(rows)
    case None => ""
    case Some(r) => r.hash
  }

  function Release(s: State, w: nat): State {
    s.(writers := s.writers - {w}, holder := if s.holder == Some(w) then None else s.holder)
  }

  /** One step; a step that is not enabled changes nothing. `locking` says whether
      the advisory lock excludes a second holder. */
  function Next(mac: string -> string, locking: bool, s: State, step: Step): State {
    if step.Begin? then
      if step.w in s.writers then s else s.(writers := s.writers[step.w := Begun(step.draft)])
    else if step.w !in s.writers then s
    else
      match (step, s.writers[step.w])
      case (Lock(w), Begun(d)) =>
        if locking && s.holder.Some? then s
        else s.(writers := s.writers[w := Locked(d)], holder := Some(w))
      case (ReadPrev(w), Locked(d)) =>
        s.(writers := s.writers[w := ReadDone(d, ReadHash(s.committed))])
      case (Insert(w, now), ReadDone(d, prev)) =>
        s.(writers := s.writers[w := Inserted(LoggedRow(mac, d, s.nextId, now, prev))], nextId := s.nextId + 1)
      case (Commit(w), Inserted(r)) => Release(s.(committed := s.committed + [r]), w)
      case (Rollback(w), _) => Release(s, w)
      case _ => s
  }

  function Run(mac: string -> string, locking: bool, steps: seq<Step>): State {
    if steps == [] then INITIAL
    else Next(mac, locking, Run(mac, locking, steps[..|steps| - 1]), steps[|steps| - 1])
  }

  /** Every entry was hashed by the current formula. */
  ghost predicate CurrentHashes(mac: string -> string, rows: seq<Row>) {
    forall i | 0 <= i < |rows| :: rows[i].hash == EntryHmac(mac, rows[i])
  }

  ghost predicate Inv(mac: string -> string, s: State) {
    && Honest(mac, s.committed) && CurrentHashes(mac, s.committed)
    && (forall i | 0 <= i < |s.committed| :: 1 <= s.committed[i].id < s.nextId)
    && s.nextId >= 1
    && (forall w | w in s.writers :: WriterInv(mac, s, w, s.writers[w]))
  }

  /** Past the lock, a writer is the holder and what it read is still the newest hash. */
  ghost predicate WriterInv(mac: string -> string, s: State, w: nat, state: Writer) {
    && (!state.Begun? ==> s.holder == Some(w))
    && (state.ReadDone? ==> state.prev == LatestHash(s.committed))
    && (state.Inserted? ==>
          && state.row.prevHash == LatestHash(s.committed)
          && state.row.hash == EntryHmac(mac, state.row)
          && 1 <= state.row.id < s.nextId
          && forall i | 0 <= i < |s.committed| :: s.committed[i].id < state.row.id)
  }

  lemma {:induction false} NewestIsLast(rows: seq<Row>)
    requires IncreasingIds(rows)
    ensures NewestRow(rows) == if rows == [] then None else Some(rows[|rows| - 1])
  {
    if |rows| > 1 {
      NewestIsLast(rows[1..]);
      assert rows[1..][|rows| - 2] == rows[|rows| - 1];
    }
  }

  lemma CommitKeepsTable(mac: string -> string, s: State, w: nat)
    requires Inv(mac, s) && w in s.writers && s.writers[w].Inserted?
    ensures var rows := s.committed + [s.writers[w].row];
            && Honest(mac, rows) && CurrentHashes(mac, rows)
            && (forall i | 0 <= i < |rows| :: 1 <= rows[i].id < s.nextId)
  {
    assert WriterInv(mac, s, w, s.writers[w]);
    AppendKeepsHonest(mac, s.committed, s.writers[w].row);
  }

  lemma NextKeepsTable(mac: string -> string, s: State, step: Step)
    requires Inv(mac, s)
    ensures var t := Next(mac, true, s, step);
            && Honest(mac, t.committed) && CurrentHashes(mac, t.committed)
            && (forall i | 0 <= i < |t.committed| :: 1 <= t.committed[i].id < t.nextId)
            && t.nextId >= s.nextId >= 1
  {
    if step.Commit? && step.w in s.writers && s.writers[step.w].Inserted? {
      CommitKeepsTable(mac, s, step.w);
    }
  }

  /** The writer that moves; nobody else is past the lock when it reads, inserts or commits. */
  lemma NextKeepsMover(mac: string -> string, s: State, step: Step)
    requires Inv(mac, s) && step.w in Next(mac, true, s, step).writers
    ensures var t := Next(mac, true, s, step); WriterInv(mac, t, step.w, t.writers[step.w])
  {
    NewestIsLast(s.committed);
    if step.w in s.writers {
      assert WriterInv(mac, s, step.w, s.writers[step.w]);
      if step.Insert? && s.writers[step.w].ReadDone? {
        LoggedRowFacts(mac, s.writers[step.w].draft, s.nextId, step.now, s.writers[step.w].prev);
      }
    }
  }

  lemma NextKeepsOthers(mac: string -> string, s: State, step: Step, w: nat)
    requires Inv(mac, s) && w != step.w && w in Next(mac, true, s, step).writers
    ensures var t := Next(mac, true, s, step); WriterInv(mac, t, w, t.writers[w])
  {
    assert WriterInv(mac, s, w, s.writers[w]);
    if step.w in s.writers { assert WriterInv(mac, s, step.w, s.writers[step.w]); }
  }

  lemma NextKeepsInv(mac: string -> string, s: State, step: Step)
    requires Inv(mac, s)
    ensures Inv(mac, Next(mac, true, s, step))
  {
    var t := Next(mac, true, s, step);
    NextKeepsTable(mac, s, step);
    forall w | w in t.writers ensures WriterInv(mac, t, w, t.writers[w]) {
      if w == step.w { NextKeepsMover(mac, s, step); } else { NextKeepsOthers(mac, s, step, w); }
    }
  }

  lemma {:induction false} RunKeepsInv(mac: string -> string, steps: seq<Step>)
    ensures Inv(mac, Run(mac, true, steps))
  {
    if steps != [] {
      RunKeepsInv(mac, steps[..|steps| - 1]);
      NextKeepsInv(mac, Run(mac, true, steps[..|steps| - 1]), steps[|steps| - 1]);
    }
  }

  /** Whatever the interleaving and the rollbacks: the committed rows, in commit order,
      have increasing ids, form one chain hashed by the current formula, and a walk
      over them never reports a break. */
  lemma EveryInterleavingVerifies(mac: string -> string, steps: seq<Step>, limit: nat, r: VerifyResult)
    requires Verdict(mac, Run(mac, true, steps).committed, limit, r)
    ensures var rows := Run(mac, true, steps).committed;
            && Honest(mac, rows) && CurrentHashes(mac, rows)
            && r.ok && (r.complete <==> |rows| <= limit)
  {
    RunKeepsInv(mac, steps);
    var rows := Run(mac, true, steps).committed;
    assert forall i: nat :: !FirstBad(mac, rows, i);
  }

  /** A writer past the lock excludes every other one. */
  lemma OneWriterPastLock(mac: string -> string, steps: seq<Step>, v: nat, w: nat)
    requires var s := Run(mac, true, steps);
             v in s.writers && w in s.writers && !s.writers[v].Begun? && !s.writers[w].Begun?
    ensures v == w
  {
    RunKeepsInv(mac, steps);
    var s := Run(mac, true, steps);
    assert WriterInv(mac, s, v, s.writers[v]) && WriterInv(mac, s, w, s.writers[w]);
  }

  /** A writer that finds the lock free and is not disturbed commits exactly the row that
      Log writes, and frees the lock. */
  lemma UndisturbedWriterLogs(mac: string -> string, s: State, w: nat, draft: Row, now: int)
    requires Inv(mac, s) && s.holder.None? && w !in s.writers
    ensures var begun := Next(mac, true, s, Begin(w, draft));
            var read := Next(mac, true, Next(mac, true, begun, Lock(w)), ReadPrev(w));
            var t := Next(mac, true, Next(mac, true, read, Insert(w, now)), Commit(w));
            && t.committed == s.committed + [LoggedRow(mac, draft, s.nextId, now, LatestHash(s.committed))]
            && t.holder.None? && t.writers == s.writers && t.nextId == s.nextId + 1
  {
    NewestIsLast(s.committed);
    var begun := Next(mac, true, s, Begin(w, draft));
    var locked := Next(mac, true, begun, Lock(w));
    var read := Next(mac, true, locked, ReadPrev(w));
    assert read.writers[w] == ReadDone(draft, LatestHash(s.committed));
    var inserted := Next(mac, true, read, Insert(w, now));
    assert inserted.writers - {w} == s.writers;
  }

  /** A rollback leaves the table, ends the writer and frees the lock if it was the holder;
      the id it drew is not given back. */
  lemma RollbackFrees(mac: string -> string, s: State, w: nat)
    requires w in s.writers
    ensures var t := Next(mac, true, s, Rollback(w));
            && t.committed == s.committed && t.writers == s.writers - {w} && t.nextId == s.nextId
            && t.holder == if s.holder == Some(w) then None else s.holder
  {
  }

  /** The table grows by commits only, each by the row its writer inserted. */
  lemma OnlyCommitsGrow(mac: string -> string, s: State, step: Step)
    ensures var t := Next(mac, true, s, step);
            if step.Commit? && step.w in s.writers && s.writers[step.w].Inserted?
            then t.committed == s.committed + [s.writers[step.w].row]
            else t.committed == s.committed
  {
  }

  /** Without the lock two writers can read the same predecessor and fork the chain. */
  lemma WithoutLockChainForks(mac: string -> string, draft: Row) returns (steps: seq<Step>)
    requires Ideal(mac)
    ensures !Chained(mac, Run(mac, false, steps).committed)
  {
    var r0, r1 := LoggedRow(mac, draft, 1, 0, ""), LoggedRow(mac, draft, 2, 0, "");
    steps := ForkInserts(mac, draft);
    steps := RunSnoc(mac, steps, Commit(0));
    assert Run(mac, false, steps).committed == [r0];
    steps := RunSnoc(mac, steps, Commit(1));
    assert Run(mac, false, steps).committed == [r0, r1];
    LoggedRowFacts(mac, draft, 1, 0, "");
    assert BadAt(mac, [r0, r1], 1);
  }

  lemma ForkInserts(mac: string -> string, draft: Row) returns (steps: seq<Step>)
    ensures var r0, r1 := LoggedRow(mac, draft, 1, 0, ""), LoggedRow(mac, draft, 2, 0, "");
            Run(mac, false, steps) == State([], map[0 := Inserted(r0), 1 := Inserted(r1)], Some(1), 3)
  {
    var r0 := LoggedRow(mac, draft, 1, 0, "");
    steps := ForkReads(mac, draft);
    steps := RunSnoc(mac, steps, Insert(0, 0));
    assert Run(mac, false, steps) == State([], map[0 := Inserted(r0), 1 := ReadDone(draft, "")], Some(1), 2);
    steps := RunSnoc(mac, steps, Insert(1, 0));
  }

  lemma ForkReads(mac: string -> string, draft: Row) returns (steps: seq<Step>)
    ensures Run(mac, false, steps) == State([], map[0 := ReadDone(draft, ""), 1 := ReadDone(draft, "")], Some(1), 1)
  {
    steps := ForkOpens(mac, draft);
    steps := RunSnoc(mac, steps, ReadPrev(0));
    steps := RunSnoc(mac, steps, ReadPrev(1));
  }

  lemma ForkOpens(mac: string -> string, draft: Row) returns (steps: seq<Step>)
    ensures Run(mac, false, steps) == State([], map[0 := Locked(draft), 1 := Locked(draft)], Some(1), 1)
  {
    steps := RunSnoc(mac, [], Begin(0, draft));
    steps := RunSnoc(mac, steps, Begin(1, draft));
    steps := RunSnoc(mac, steps, Lock(0));
    steps := RunSnoc(mac, steps, Lock(1));
  }

  lemma RunSnoc(mac: string -> string, steps: seq<Step>, step: Step) returns (longer: seq<Step>)
    ensures Run(mac, false, longer) == Next(mac, false, Run(mac, false, steps), step)
  {
    longer := steps + [step];
    assert longer[..|longer| - 1] == steps;
  }
}
