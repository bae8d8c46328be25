/** What writing and reading the audit log comes to, told from the fields of the rows. */
module AuditEffects {
  import opened Wrappers
  import opened Crypto
  import opened AuditFormat
  import opened AuditChain
  import opened AuditSearch
  import opened AuditLog

  // ---- what is hashed -------------------------------------------------------------------

  function Bar(): string {
    "|"
  }

  /** The two texts under the HMAC, written out. */
  lemma HashedTexts(mac: string -> string, r: Row)
    ensures EntryHmac(mac, r)
         == mac(r.eventType + Bar() + r.actorId + Bar() + r.targetId + Bar() + r.actorEmailEnc + Bar()
                + r.targetEmailEnc + Bar() + r.detailsEnc + Bar() + r.prevHash)
    ensures LegacyEntryHmac(mac, r)
         == mac(r.eventType + Bar() + r.actorId + Bar() + r.targetId + Bar() + r.prevHash)
  {
    var e, a, t, p := r.eventType, r.actorId, r.targetId, r.prevHash;
    JoinFour(e, a, t, p);
    JoinSeven(e, a, t, r.actorEmailEnc, r.targetEmailEnc, r.detailsEnc, p);
  }

  lemma JoinFour(a: string, b: string, c: string, d: string)
    ensures Join([a, b, c, d]) == a + Bar() + b + Bar() + c + Bar() + d
  {
    assert Join([a, b, c, d]) == a + [BAR] + Join([b, c, d]);
    assert Join([b, c, d]) == b + [BAR] + Join([c, d]);
    assert Join([c, d]) == c + [BAR] + Join([d]);
  }

  lemma JoinSeven(a: string, b: string, c: string, d: string, e: string, f: string, g: string)
    ensures Join([a, b, c, d, e, f, g])
         == a + Bar() + b + Bar() + c + Bar() + d + Bar() + e + Bar() + f + Bar() + g
  {
    assert Join([a, b, c, d, e, f, g]) == a + [BAR] + Join([b, c, d, e, f, g]);
    assert Join([b, c, d, e, f, g]) == b + [BAR] + Join([c, d, e, f, g]);
    assert Join([c, d, e, f, g]) == c + [BAR] + Join([d, e, f, g]);
    JoinFour(d, e, f, g);
  }

  /** The walk accepts a hash made by either formula and no other, and from the second row
      on only the previous row's hash as link. */
  lemma WalkAccepts(mac: string -> string, rows: seq<Row>, i: nat)
    requires i < |rows|
    ensures !BadAt(mac, rows, i)
       <==> (i > 0 ==> rows[i].prevHash == rows[i - 1].hash)
            && (rows[i].hash == EntryHmac(mac, rows[i]) || rows[i].hash == LegacyEntryHmac(mac, rows[i]))
  {
  }

  /** Without a positive limit Verify walks 50000 rows. */
  lemma WalkLimits(limit: int)
    ensures WalkLimit(limit) == if limit > 0 then limit else 50000
  {
  }

  // ---- what Log writes --------------------------------------------------------------------

  /** The new row carries the caller's plain fields and ciphertexts that open to the rest,
      is linked to the newest hash (none in an empty log) and hashed by the current formula. */
  lemma LogWrites(mac: string -> string, c: Cipher, p: LogParams, n1: nat, n2: nat, n3: nat, rows: seq<Row>,
                  id: int, now: int)
    requires Lawful(c)
    ensures var r := LoggedRow(mac, Sealed(c, p, n1, n2, n3), id, now, LatestHash(rows));
            && r.id == id && r.createdAt == now
            && r.eventType == p.eventType && r.actorId == p.actorId && r.targetId == p.targetId
            && c.open(r.actorEmailEnc) == Some(p.actorEmail)
            && (if p.targetEmail == "" then r.targetEmailEnc == "" else c.open(r.targetEmailEnc) == Some(p.targetEmail))
            && (if p.details == "" then r.detailsEnc == "" else c.open(r.detailsEnc) == Some(p.details))
            && r.prevHash == (if rows == [] then "" else rows[|rows| - 1].hash)
            && r.hash == EntryHmac(mac, r)
  {
    LoggedRowFacts(mac, Sealed(c, p, n1, n2, n3), id, now, LatestHash(rows));
  }

  // ---- what List shows ----------------------------------------------------------------------

  /** A ciphertext that does not open is shown as such; an empty column stays empty, except
      that the actor's email is always opened. */
  function ShownText(c: Cipher, text: string): string {
    if c.open(text) == None then "<decryption failed>" else c.open(text).value
  }

  lemma EntryShows(reader: Reader, r: Row)
    ensures var e, c := ToEntry(reader, r), reader.cipher;
            && e.id == r.id && e.createdAt == r.createdAt && e.eventType == r.eventType
            && e.actorId == r.actorId && e.targetId == r.targetId && e.prevHash == r.prevHash && e.hash == r.hash
            && e.actorEmail == ShownText(c, r.actorEmailEnc)
            && e.targetEmail == (if r.targetEmailEnc == "" then "" else ShownText(c, r.targetEmailEnc))
            && e.details == (if r.detailsEnc == "" then "" else ShownText(c, r.detailsEnc))
            && e.actorName == NameIn(reader, r.actorId) && e.targetName == NameIn(reader, r.targetId)
  {
  }

  // ---- what List finds ----------------------------------------------------------------------

  /** The filters, written out: equality on event type and actor, both ends of the time
      range included, the cursor excluded; an unset one filters nothing. */
  lemma FilterMeans(rows: seq<Row>, p: ListParams, before: int, r: Row)
    ensures r in Newest(rows, p, before) <==>
              && r in rows
              && (p.eventType != "" ==> r.eventType == p.eventType)
              && (p.actorId != "" ==> r.actorId == p.actorId)
              && (p.since != None ==> p.since.value <= r.createdAt)
              && (p.until != None ==> r.createdAt <= p.until.value)
              && (before >= 1 ==> r.id < before)
  {
    NewestAreRows(rows, p, before);
  }

  /** A page has the asked number of rows from 1 to 200, else 50. */
  lemma PageLimits(p: ListParams)
    ensures PageLimit(p) == if 1 <= p.limit <= 200 then p.limit else 50
  {
  }

  ghost predicate OccursAt(text: string, needle: string, i: nat) {
    i + |needle| <= |text| && text[i..i + |needle|] == needle
  }

  /** The needle is a contiguous part of the text. */
  lemma {:induction false} ContainsIff(text: string, needle: string)
    ensures Contains(text, needle) <==> exists i: nat :: OccursAt(text, needle, i)
  {
    if needle <= text {
      assert OccursAt(text, needle, 0);
    } else if text != "" {
      ContainsIff(text[1..], needle);
      if i: nat :| OccursAt(text[1..], needle, i) {
        assert text[1..][i..i + |needle|] == text[i + 1..i + 1 + |needle|];
        assert OccursAt(text, needle, i + 1);
      }
      if i: nat :| OccursAt(text, needle, i) {
        assert i > 0;
        assert text[1..][i - 1..i - 1 + |needle|] == text[i..i + |needle|];
        assert OccursAt(text[1..], needle, i - 1);
      }
    }
  }

  /** The text, lower-cased, is not empty and has the needle in it. */
  ghost predicate Shows(reader: Reader, text: string, needle: string) {
    text != "" && exists i: nat :: OccursAt(reader.lower(text), needle, i)
  }

  function NameIn(reader: Reader, subject: string): string {
    if subject !in reader.names || reader.names[subject] == "" then ""
    else if reader.cipher.open(reader.names[subject]) == None then "<decryption failed>"
    else reader.cipher.open(reader.names[subject]).value
  }

  /** A search finds a logged entry exactly by its event type, the ids, emails and names of
      actor and target, and its details, as they were before encryption. */
  lemma SearchFinds(mac: string -> string, reader: Reader, p: LogParams, n1: nat, n2: nat, n3: nat, id: int,
                    now: int, prev: string, needle: string)
    requires Lawful(reader.cipher)
    ensures Hit(reader, needle)(LoggedRow(mac, Sealed(reader.cipher, p, n1, n2, n3), id, now, prev)) <==>
              || Shows(reader, p.eventType, needle)
              || Shows(reader, p.actorId, needle)
              || Shows(reader, p.actorEmail, needle)
              || Shows(reader, NameIn(reader, p.actorId), needle)
              || Shows(reader, p.targetId, needle)
              || Shows(reader, p.targetEmail, needle)
              || Shows(reader, NameIn(reader, p.targetId), needle)
              || Shows(reader, p.details, needle)
  {
    var row := LoggedRow(mac, Sealed(reader.cipher, p, n1, n2, n3), id, now, prev);
    LogWrites(mac, reader.cipher, p, n1, n2, n3, [row.(hash := prev)], id, now);
    var e := ToEntry(reader, row);
    assert e.actorName == NameIn(reader, p.actorId) && e.targetName == NameIn(reader, p.targetId);
    EntryMatchesIff(reader, e, needle);
    assert e.actorEmail == p.actorEmail && e.targetEmail == p.targetEmail && e.details == p.details;
  }

  lemma EntryMatchesIff(reader: Reader, e: Entry, needle: string)
    ensures EntryMatches(reader, e, needle) <==>
              || Shows(reader, e.eventType, needle) || Shows(reader, e.actorId, needle)
              || Shows(reader, e.actorEmail, needle) || Shows(reader, e.actorName, needle)
              || Shows(reader, e.targetId, needle) || Shows(reader, e.targetEmail, needle)
              || Shows(reader, e.targetName, needle) || Shows(reader, e.details, needle)
  {
    var fields := [e.eventType, e.actorId, e.actorEmail, e.actorName,
                   e.targetId, e.targetEmail, e.targetName, e.details];
    forall i | 0 <= i < |fields|
      ensures fields[i] != "" && Contains(reader.lower(fields[i]), needle) <==> Shows(reader, fields[i], needle)
    {
      ContainsIff(reader.lower(fields[i]), needle);
    }
    assert fields[0] == e.eventType && fields[1] == e.actorId && fields[2] == e.actorEmail;
    assert fields[3] == e.actorName && fields[4] == e.targetId && fields[5] == e.targetEmail;
    assert fields[6] == e.targetName && fields[7] == e.details;
  }
}
