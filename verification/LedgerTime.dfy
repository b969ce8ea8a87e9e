/**
 The one column a ledger hash covers as text but the database stores as an
 instant: the writer hashes the instant as text in UTC, the auditor the text of
 the instant its own session reads back.
 */
module LedgerTime {
  import opened Common
  import opened Unicode
  import opened Canonicalizers
  import opened LedgerFormat
  import opened LedgerBinding
  import opened Audit
  import opened LedgerClient

  /** datetime.isoformat in some session. */
  type Clock = int -> Text

  /** The same functions, but for the text of an instant. */
  function ReadBack(w: World, read: Clock): World {
    w.(isoformat := read)
  }

  // ---------------------------------------------------- the text is all that counts

  /** A row, and the row with another instant that another clock writes as the same text. */
  ghost predicate SameStamp(w: World, r: Row, v: World, s: Row) {
    && v == ReadBack(w, v.isoformat) && s == r.(timestamp := s.timestamp)
    && w.isoformat(r.timestamp) == v.isoformat(s.timestamp)
  }

  lemma SameColumns(w: World, r: Row, v: World, s: Row)
    requires SameStamp(w, r, v, s)
    ensures Values3(w, r) == Values3(v, s) && TenantColumns(r) == TenantColumns(s)
    ensures HasEvidence(w, r) <==> HasEvidence(v, s)
    ensures HasEvidence(w, r) ==> EvidenceColumns(w, r) == EvidenceColumns(v, s)
  {
  }

  lemma SamePayloads(w: World, r: Row, v: World, s: Row)
    requires SameStamp(w, r, v, s)
    ensures Payload3(w, r) == Payload3(v, s)
    ensures HasEvidence(w, r) <==> HasEvidence(v, s)
    ensures HasEvidence(w, r) ==>
              EvidencePayload4(w, r) == EvidencePayload4(v, s) && EvidencePayload5(w, r) == EvidencePayload5(v, s)
  {
    SameColumns(w, r, v, s);
  }

  lemma SameFormat(w: World, r: Row, v: World, s: Row)
    requires SameStamp(w, r, v, s)
    ensures EntryFormat(w, r) == EntryFormat(v, s)
    ensures EntryFormat(w, r) != 0 ==> Payload(w, r) == Payload(v, s)
  {
    SamePayloads(w, r, v, s);
  }

  lemma SameEncodable(w: World, r: Row, v: World, s: Row)
    requires SameStamp(w, r, v, s)
    ensures Encodable(w, r) <==> Encodable(v, s)
  {
    SameColumns(w, r, v, s);
  }

  // ------------------------------------------------- equal texts are enough

  lemma SameChecks(w: World, ring: KeyRing, read: Clock, r: Row)
    requires read(r.timestamp) == w.isoformat(r.timestamp)
    ensures Auditor(ReadBack(w, read), ring).format(r) == Auditor(w, ring).format(r)
    ensures Evidenced(Auditor(ReadBack(w, read), ring), r) <==> Evidenced(Auditor(w, ring), r)
  {
    SameFormat(w, r, ReadBack(w, read), r);
  }

  lemma RowsReadBack(w: World, ring: KeyRing, read: Clock, rows: seq<Row>)
    requires RowsHold(Auditor(w, ring), rows)
    requires forall i | 0 <= i < |rows| :: read(rows[i].timestamp) == w.isoformat(rows[i].timestamp)
    ensures RowsHold(Auditor(ReadBack(w, read), ring), rows)
  {
    forall i | 0 <= i < |rows| ensures RowHolds(Auditor(ReadBack(w, read), ring), rows, i) {
      assert RowHolds(Auditor(w, ring), rows, i);
      forall j | 0 <= j <= i
        ensures Auditor(ReadBack(w, read), ring).format(rows[j]) == Auditor(w, ring).format(rows[j])
      {
        SameChecks(w, ring, read, rows[j]);
      }
      SameChecks(w, ring, read, rows[i]);
    }
  }

  lemma CheckpointsReadBack(w: World, ring: KeyRing, read: Clock, cps: seq<Checkpoint>, hashes: seq<Bytes>)
    requires CheckpointsHold(w.sha, Auditor(w, ring), cps, hashes)
    ensures CheckpointsHold(w.sha, Auditor(ReadBack(w, read), ring), cps, hashes)
  {
    forall i | 0 <= i < |cps| ensures CheckpointHolds(w.sha, Auditor(ReadBack(w, read), ring), cps[i], hashes) {
      assert CheckpointHolds(w.sha, Auditor(w, ring), cps[i], hashes);
      AuditorCheckpoint(w, ring, cps[i]);
      AuditorCheckpoint(ReadBack(w, read), ring, cps[i]);
    }
  }

  // ---------------------------------------------------- and they are necessary

  /** Both clocks in one world: the writer's at even instants, the auditor's at odd ones. */
  function Both(w: World, read: Clock): World {
    ReadBack(w, (t: int) => if t % 2 == 0 then w.isoformat(t / 2) else read(t / 2))
  }

  /** The payloads one stored hash was verified with on either side. */
  ghost predicate StampsCollide(w: World, read: Clock, r: Row) {
    && EntryFormat(w, r) != 0 && EntryFormat(ReadBack(w, read), r) != 0
    && Collides(w.sha, Payload(w, r), Payload(ReadBack(w, read), r))
  }

  lemma Lifted(w: World, r: Row, u: World, a: Row)
    requires SameStamp(w, r, u, a) && Encodable(w, r) && EntryFormat(w, r) != 0
    ensures Encodable(u, a) && EntryFormat(u, a) == EntryFormat(w, r) && Payload(u, a) == Payload(w, r)
  {
    SameFormat(w, r, u, a);
    SameEncodable(w, r, u, a);
  }

  lemma ChainedStamps(format: nat, w: World, a: Row, b: Row)
    requires AgreeChained(format, w, a, b) && format in {3, 4, 5}
    ensures w.nfc(w.isoformat(a.timestamp)) == w.nfc(w.isoformat(b.timestamp))
  {
  }

  lemma BothStamps(w: World, read: Clock, r: Row)
    ensures SameStamp(w, r, Both(w, read), r.(timestamp := 2 * r.timestamp))
    ensures SameStamp(ReadBack(w, read), r, Both(w, read), r.(timestamp := 2 * r.timestamp + 1))
  {
    assert (2 * r.timestamp) / 2 == r.timestamp && (2 * r.timestamp + 1) / 2 == r.timestamp;
  }

  /** A row that verifies under both clocks has one text under both, or two payloads collide. */
  lemma StampBinds(w: World, read: Clock, r: Row)
    requires IsNfc(w.nfc) && Encodable(w, r) && Encodable(ReadBack(w, read), r)
    requires EntryFormat(w, r) != 0 && EntryFormat(ReadBack(w, read), r) != 0
    ensures StampsCollide(w, read, r) || w.nfc(w.isoformat(r.timestamp)) == w.nfc(read(r.timestamp))
  {
    var u := Both(w, read);
    var a, b := r.(timestamp := 2 * r.timestamp), r.(timestamp := 2 * r.timestamp + 1);
    BothStamps(w, read, r);
    Lifted(w, r, u, a);
    Lifted(ReadBack(w, read), r, u, b);
    HashBinds(u, a, b);
    if !Collides(w.sha, Payload(u, a), Payload(u, b)) {
      ChainedStamps(EntryFormat(u, a), u, a, b);
    }
  }

  /** The texts of a stored instant are plain ASCII. */
  ghost predicate PlainStamps(w: World, read: Clock, rows: seq<Row>) {
    forall i | 0 <= i < |rows| :: IsAscii(w.isoformat(rows[i].timestamp)) && IsAscii(read(rows[i].timestamp))
  }

  ghost predicate Storable(w: World, rows: seq<Row>) {
    forall i | 0 <= i < |rows| :: Encodable(w, rows[i])
  }

  ghost predicate SameStamps(w: World, read: Clock, rows: seq<Row>) {
    forall i | 0 <= i < |rows| :: read(rows[i].timestamp) == w.isoformat(rows[i].timestamp)
  }

  lemma SameStampsPass(w: World, ring: KeyRing, read: Clock, rows: seq<Row>, cps: seq<Checkpoint>)
    requires LedgerHolds(w.sha, Auditor(w, ring), rows, ring, cps) && SameStamps(w, read, rows)
    ensures LedgerHolds(w.sha, Auditor(ReadBack(w, read), ring), rows, ring, cps)
  {
    RowsReadBack(w, ring, read, rows);
    CheckpointsReadBack(w, ring, read, cps, Hashes(rows));
  }

  lemma RowStamp(w: World, ring: KeyRing, read: Clock, rows: seq<Row>, i: nat)
    requires RowsHold(Auditor(w, ring), rows) && RowsHold(Auditor(ReadBack(w, read), ring), rows) && i < |rows|
    requires IsNfc(w.nfc) && Encodable(w, rows[i]) && Encodable(ReadBack(w, read), rows[i])
    ensures || StampsCollide(w, read, rows[i])
            || w.nfc(w.isoformat(rows[i].timestamp)) == w.nfc(read(rows[i].timestamp))
  {
    assert RowHolds(Auditor(w, ring), rows, i) && RowHolds(Auditor(ReadBack(w, read), ring), rows, i);
    AuditorFormat(w, ring, rows[i]);
    AuditorFormat(ReadBack(w, read), ring, rows[i]);
    StampBinds(w, read, rows[i]);
  }

  ghost predicate SomeCollide(w: World, read: Clock, rows: seq<Row>) {
    exists i :: 0 <= i < |rows| && StampsCollide(w, read, rows[i])
  }

  lemma OnlySameStampsPass(w: World, ring: KeyRing, read: Clock, rows: seq<Row>)
    requires RowsHold(Auditor(w, ring), rows) && RowsHold(Auditor(ReadBack(w, read), ring), rows)
    requires IsNfc(w.nfc) && PlainStamps(w, read, rows) && Storable(w, rows) && Storable(ReadBack(w, read), rows)
    ensures SameStamps(w, read, rows) || SomeCollide(w, read, rows)
  {
    forall i | 0 <= i < |rows|
      ensures StampsCollide(w, read, rows[i]) || read(rows[i].timestamp) == w.isoformat(rows[i].timestamp)
    {
      RowStamp(w, ring, read, rows, i);
    }
  }

  /**
   Every run passes an audit in whose session the stored instants read back as
   the texts the writer hashed; and no other audit, unless payloads collide.
   */
  lemma RunsPassExactlyWhen(rt: Runtime, ring: KeyRing, read: Clock, steps: seq<Step>, l: Ledger)
    requires Registered(rt, ring) && MonotoneClock(steps) && l == Run(Client(rt), EMPTY, steps)
    requires IsNfc(rt.world.nfc) && PlainStamps(rt.world, read, l.rows)
    requires Storable(rt.world, l.rows) && Storable(ReadBack(rt.world, read), l.rows)
    ensures var holds := LedgerHolds(rt.world.sha, Auditor(ReadBack(rt.world, read), ring), l.rows, ring,
                                     l.checkpoints);
            && (SameStamps(rt.world, read, l.rows) ==> holds)
            && (holds ==> SameStamps(rt.world, read, l.rows) || SomeCollide(rt.world, read, l.rows))
  {
    RunsPassAudit(rt, ring, steps, l);
    if SameStamps(rt.world, read, l.rows) {
      SameStampsPass(rt.world, ring, read, l.rows, l.checkpoints);
    }
    if RowsHold(Auditor(ReadBack(rt.world, read), ring), l.rows) {
      OnlySameStampsPass(rt.world, ring, read, l.rows);
    }
  }
}
