/**
 The ledger writer: appends and two-transaction checkpoints as a state machine
 whose every run leaves a ledger that passes the audit.
 */
module LedgerClient {
  import opened Common
  import opened Unicode
  import opened LedgerFormat
  import opened Merkle
  import opened Audit

  datatype Signer = Signer(key: Key, sign: Bytes -> Text)

  datatype Runtime = Runtime(world: World, signer: Signer, tenantId: Text)

  /** What append_v3 is called with. */
  datatype Submission = Submission(
    verdict: Text,
    telemetryId: Text,
    telemetryHash: Text,
    ruleId: Option<Text>,
    kgVersion: Option<Text>,
    modelVersion: Text,
    reasoning: Option<Text>,
    track: Option<Text>,
    envelope: Text,
    transcript: Option<Text>,
    transcriptSignature: Option<Text>,
    signingKeyId: Option<Text>,
    verifierStatus: Option<Text>,
    kgVersionHash: Option<Text>,
    modelWeightHash: Option<Text>,
    transcriptId: Option<Text>
  )

  const SCHEMA_VERSION: string := "3.0.0"

  /** Both tables, the checkpoint read but not yet written, and the format switch. */
  datatype Ledger = Ledger(rows: seq<Row>, checkpoints: seq<Checkpoint>, pending: Option<Checkpoint>, format5: bool)

  const EMPTY: Ledger := Ledger([], [], None, false)

  // ------------------------------------------------------------------ append

  function NextSequence(rows: seq<Row>): nat {
    if rows == [] then 1 else rows[|rows| - 1].sequence + 1
  }

  function HeadHash(rows: seq<Row>): Digest {
    if rows == [] then GENESIS else rows[|rows| - 1].entryHash
  }

  /** The row before it is hashed and signed. */
  function Draft(rt: Runtime, rows: seq<Row>, s: Submission, now: int, envelopeHash: Option<Text>, format5: bool): Row {
    Row(NextSequence(rows), HeadHash(rows), GENESIS, now, s.verdict, s.telemetryId, s.telemetryHash, s.ruleId,
        s.kgVersion, s.modelVersion, s.reasoning, s.track, Some(s.envelope), envelopeHash, s.transcript,
        s.transcriptSignature, s.signingKeyId, s.verifierStatus,
        if format5 then Some(rt.tenantId) else None,
        if format5 then s.kgVersionHash else None,
        if format5 then s.modelWeightHash else None,
        if format5 then Some(T(SCHEMA_VERSION)) else None,
        None, None, s.transcriptId)
  }

  function Sign(rt: Runtime, r: Row): Option<Row> {
    var message := SigningBytes(rt.world, r);
    if message.None? then None
    else Some(r.(verdictSignature := Some(rt.signer.sign(message.value)),
                 verdictKeyId := Some(KeyId(rt.world, rt.signer.key))))
  }

  /** The row append_v3 inserts, or None where canonicalization raises and nothing is inserted. */
  function NewRow(rt: Runtime, rows: seq<Row>, s: Submission, now: int, format5: bool): Option<Row> {
    var w := rt.world;
    var digest := EvidenceHash(w, Some(s.envelope));
    if digest.None? || EvidenceHash(w, s.transcript).None? then None
    else
      var draft := Draft(rt, rows, s, now, digest.value, format5);
      var payload := if format5 then EvidencePayload5(w, draft) else EvidencePayload4(w, draft);
      if payload.None? then None
      else
        var hashed := draft.(entryHash := w.sha(payload.value));
        if format5 then Sign(rt, hashed) else Some(hashed)
  }

  // -------------------------------------------------------------- checkpoint

  function MaxSize(cps: seq<Checkpoint>): nat {
    if cps == [] then 0
    else
      var m := MaxSize(cps[..|cps| - 1]);
      if cps[|cps| - 1].size > m then cps[|cps| - 1].size else m
  }

  function EntriesSinceCheckpoint(l: Ledger): int {
    (if l.rows == [] then 0 else l.rows[|l.rows| - 1].sequence) - MaxSize(l.checkpoints)
  }

  /** The signed statement over all hashes so far; None where canonicalization raises. */
  function Checkpointed(rt: Runtime, hashes: seq<Bytes>, last: Digest, createdAt: Text): Option<Checkpoint>
    requires hashes != []
  {
    var root := MerkleRoot(rt.world.sha, hashes);
    var statement := Statement(rt.world, rt.tenantId, |hashes|, root, last, createdAt);
    if statement.None? then None
    else Some(Checkpoint(rt.tenantId, |hashes|, root, last, createdAt, KeyId(rt.world, rt.signer.key),
                         rt.signer.sign(statement.value), None))
  }

  /** The two computations of the client that the tables receive. */
  datatype Writer = Writer(
    newRow: (seq<Row>, Submission, int, bool) -> Option<Row>,
    checkpoint: (seq<Row>, Text) -> Option<Checkpoint>
  )

  function Client(rt: Runtime): Writer {
    Writer(
      (rows: seq<Row>, s: Submission, now: int, format5: bool) => NewRow(rt, rows, s, now, format5),
      (rows: seq<Row>, createdAt: Text) =>
        if rows == [] then None else Checkpointed(rt, Hashes(rows), HeadHash(rows), createdAt))
  }

  /** The write transaction: ON CONFLICT (tree_size) DO NOTHING. */
  function Insert(cps: seq<Checkpoint>, cp: Checkpoint): seq<Checkpoint> {
    if exists i :: 0 <= i < |cps| && cps[i].size == cp.size then cps else cps + [cp]
  }

  // ------------------------------------------------------------ state machine

  /** What the processes around the ledger do to it, in any order. */
  datatype Step =
    | Append(submission: Submission, now: int)
    | Migrate                            // the schema gains the format-5 columns
    | Read(createdAt: Text)              // a checkpoint task starts, unless one is running
    | Write                              // the running task commits
    | Abandon                            // the running task fails

  function Apply(writer: Writer, l: Ledger, step: Step): Ledger {
    match step
    case Append(s, now) =>
      var r := writer.newRow(l.rows, s, now, l.format5);
      if r.None? then l else l.(rows := l.rows + [r.value])
    case Migrate => l.(format5 := true)
    case Read(createdAt) =>
      if l.pending.Some? || !l.format5 || l.rows == [] || |l.rows| <= MaxSize(l.checkpoints) then l
      else l.(pending := writer.checkpoint(l.rows, createdAt))
    case Write =>
      if l.pending.None? then l else l.(checkpoints := Insert(l.checkpoints, l.pending.value), pending := None)
    case Abandon => l.(pending := None)
  }

  function Run(writer: Writer, l: Ledger, steps: seq<Step>): Ledger
    decreases |steps|
  {
    if steps == [] then l else Run(writer, Apply(writer, l, steps[0]), steps[1..])
  }

  // --------------------------------------------------------------- invariant

  ghost predicate SizesIncrease(cps: seq<Checkpoint>) {
    forall i, j | 0 <= i < j < |cps| :: cps[i].size < cps[j].size
  }

  ghost predicate Beyond(cp: Checkpoint, cps: seq<Checkpoint>) {
    forall i | 0 <= i < |cps| :: cps[i].size < cp.size
  }

  /** What every step keeps: both tables pass the audit and an uncommitted checkpoint would too. */
  ghost predicate Sound(sha: Sha, checks: Checks, l: Ledger) {
    && RowsHold(checks, l.rows)
    && CheckpointsHold(sha, checks, l.checkpoints, Hashes(l.rows))
    && SizesIncrease(l.checkpoints)
    && (l.pending.Some? ==>
          CheckpointHolds(sha, checks, l.pending.value, Hashes(l.rows)) && Beyond(l.pending.value, l.checkpoints))
    && (!l.format5 ==> forall i | 0 <= i < |l.rows| :: checks.format(l.rows[i]) <= 4)
    && forall i | 0 <= i < |l.rows| :: checks.format(l.rows[i]) <= 5
  }

  lemma HashesAppend(rows: seq<Row>, r: Row)
    ensures Hashes(rows + [r]) == Hashes(rows) + [r.entryHash]
  {
    assert Hashes(rows + [r]) == Hashes(rows) + [r.entryHash];
  }

  /** A checkpoint that holds keeps holding as entries are appended. */
  lemma CheckpointSurvives(sha: Sha, checks: Checks, cp: Checkpoint, hashes: seq<Bytes>, more: Bytes)
    requires CheckpointHolds(sha, checks, cp, hashes)
    ensures CheckpointHolds(sha, checks, cp, hashes + [more])
  {
    assert (hashes + [more])[..cp.size] == hashes[..cp.size];
  }

  /** What makes a row a valid successor. */
  ghost predicate Continues(checks: Checks, rows: seq<Row>, r: Row) {
    && r.sequence == NextSequence(rows)
    && r.previous == HeadHash(rows)
    && checks.format(r) != 0
    && (forall i | 0 <= i < |rows| :: checks.format(rows[i]) <= checks.format(r))
    && Evidenced(checks, r)
  }

  /** After such an append the audit passes exactly if the clock did not go back. */
  lemma AppendKeepsRows(checks: Checks, rows: seq<Row>, r: Row)
    requires RowsHold(checks, rows) && Continues(checks, rows, r)
    ensures RowsHold(checks, rows + [r]) <==> (rows != [] ==> rows[|rows| - 1].timestamp <= r.timestamp)
  {
    var all := rows + [r];
    var n := |rows|;
    if n > 0 {
      assert RowHolds(checks, rows, n - 1);
    }
    forall i | 0 <= i < n ensures RowHolds(checks, all, i) {
      assert RowHolds(checks, rows, i);
      assert all[i] == rows[i] && (i > 0 ==> all[i - 1] == rows[i - 1]);
      assert forall j | 0 <= j < i :: all[j] == rows[j];
    }
    assert all[n] == r && forall j | 0 <= j < n :: all[j] == rows[j];
    assert RowHolds(checks, all, n) <==> (n > 0 ==> rows[n - 1].timestamp <= r.timestamp);
  }

  lemma AppendKeepsSound(sha: Sha, checks: Checks, l: Ledger, r: Row)
    requires Sound(sha, checks, l) && Continues(checks, l.rows, r)
    requires l.rows != [] ==> l.rows[|l.rows| - 1].timestamp <= r.timestamp
    requires checks.format(r) == if l.format5 then 5 else 4
    ensures Sound(sha, checks, l.(rows := l.rows + [r]))
  {
    AppendKeepsRows(checks, l.rows, r);
    HashesAppend(l.rows, r);
    var hashes := Hashes(l.rows);
    forall i | 0 <= i < |l.checkpoints|
      ensures CheckpointHolds(sha, checks, l.checkpoints[i], hashes + [r.entryHash])
    {
      CheckpointSurvives(sha, checks, l.checkpoints[i], hashes, r.entryHash);
    }
    if l.pending.Some? {
      CheckpointSurvives(sha, checks, l.pending.value, hashes, r.entryHash);
    }
  }

  lemma {:induction false} MaxSizeBounds(cps: seq<Checkpoint>)
    ensures forall i | 0 <= i < |cps| :: cps[i].size <= MaxSize(cps)
    ensures cps != [] ==> exists i :: 0 <= i < |cps| && cps[i].size == MaxSize(cps)
    ensures cps == [] ==> MaxSize(cps) == 0
  {
    if cps != [] {
      var init := cps[..|cps| - 1];
      MaxSizeBounds(init);
      forall i | 0 <= i < |cps| ensures cps[i].size <= MaxSize(cps) {
        if i < |init| {
          assert cps[i] == init[i];
        }
      }
      if MaxSize(cps) == MaxSize(init) && init != [] {
        var i :| 0 <= i < |init| && init[i].size == MaxSize(init);
        assert cps[i].size == MaxSize(cps);
      } else {
        assert cps[|cps| - 1].size == MaxSize(cps);
      }
    }
  }

  lemma MaxSizeCovered(sha: Sha, checks: Checks, cps: seq<Checkpoint>, hashes: seq<Bytes>)
    requires CheckpointsHold(sha, checks, cps, hashes)
    ensures MaxSize(cps) <= |hashes|
  {
    MaxSizeBounds(cps);
    if cps != [] {
      var i :| 0 <= i < |cps| && cps[i].size == MaxSize(cps);
      assert CheckpointHolds(sha, checks, cps[i], hashes);
    }
  }

  /** entries_since_checkpoint is never negative and counts the uncovered rows. */
  lemma UncoveredIsCount(sha: Sha, checks: Checks, l: Ledger)
    requires Sound(sha, checks, l)
    ensures EntriesSinceCheckpoint(l) == |l.rows| - MaxSize(l.checkpoints) >= 0
  {
    MaxSizeCovered(sha, checks, l.checkpoints, Hashes(l.rows));
    if l.rows != [] {
      assert RowHolds(checks, l.rows, |l.rows| - 1);
    }
  }

  lemma InsertKeepsSound(sha: Sha, checks: Checks, l: Ledger)
    requires Sound(sha, checks, l) && l.pending.Some?
    ensures Sound(sha, checks, l.(checkpoints := Insert(l.checkpoints, l.pending.value), pending := None))
    ensures Insert(l.checkpoints, l.pending.value) == l.checkpoints + [l.pending.value]
  {
  }

  /** The row a writer adds, as the auditor expects it next. */
  ghost predicate RowFits(checks: Checks, rows: seq<Row>, now: int, format5: bool, r: Row) {
    && r.timestamp == now
    && r.sequence == NextSequence(rows)
    && r.previous == HeadHash(rows)
    && checks.format(r) == (if format5 then 5 else 4)
    && Evidenced(checks, r)
  }

  /** The checkpoint a writer signs over all rows. */
  ghost predicate CheckpointFits(sha: Sha, checks: Checks, rows: seq<Row>, cp: Checkpoint) {
    && cp.size == |rows|
    && cp.root == MerkleRoot(sha, Hashes(rows))
    && cp.last == HeadHash(rows)
    && checks.checkpointSigned(cp)
    && checks.checkpointTrusted(cp)
  }

  /** A writer whose rows and checkpoints a set of checks accepts. */
  ghost predicate Fits(sha: Sha, checks: Checks, writer: Writer) {
    && (forall rows, s, now, format5 :: writer.newRow(rows, s, now, format5).Some? ==>
          RowFits(checks, rows, now, format5, writer.newRow(rows, s, now, format5).value))
    && (forall rows, createdAt :: writer.checkpoint(rows, createdAt).Some? ==>
          CheckpointFits(sha, checks, rows, writer.checkpoint(rows, createdAt).value))
  }

  lemma ReadKeepsSound(sha: Sha, checks: Checks, l: Ledger, cp: Checkpoint)
    requires Sound(sha, checks, l) && l.rows != [] && |l.rows| > MaxSize(l.checkpoints)
    requires CheckpointFits(sha, checks, l.rows, cp)
    ensures Sound(sha, checks, l.(pending := Some(cp)))
  {
    MaxSizeBounds(l.checkpoints);
    assert Hashes(l.rows)[..cp.size] == Hashes(l.rows);
  }

  // -------------------------------------------------------------------- runs

  /** The clock never shows less than the newest row's timestamp. */
  ghost predicate NotBefore(rows: seq<Row>, step: Step) {
    step.Append? && rows != [] ==> rows[|rows| - 1].timestamp <= step.now
  }

  /** The clock never goes back during the run. */
  ghost predicate MonotoneClock(steps: seq<Step>) {
    forall i, j | 0 <= i < j < |steps| && steps[i].Append? && steps[j].Append? :: steps[i].now <= steps[j].now
  }

  lemma StepKeepsSound(sha: Sha, checks: Checks, writer: Writer, l: Ledger, step: Step)
    requires Fits(sha, checks, writer) && Sound(sha, checks, l) && NotBefore(l.rows, step)
    ensures Sound(sha, checks, Apply(writer, l, step))
  {
    match step
    case Append(s, now) =>
      if writer.newRow(l.rows, s, now, l.format5).Some? {
        AppendKeepsSound(sha, checks, l, writer.newRow(l.rows, s, now, l.format5).value);
      }
    case Read(createdAt) =>
      if Apply(writer, l, step) != l && writer.checkpoint(l.rows, createdAt).Some? {
        ReadKeepsSound(sha, checks, l, writer.checkpoint(l.rows, createdAt).value);
      }
    case Write =>
      if l.pending.Some? {
        InsertKeepsSound(sha, checks, l);
      }
    case _ =>
  }

  /** A step appends at most one row, stamped with the clock, and never touches a stored row or checkpoint. */
  lemma StepOnlyAppends(sha: Sha, checks: Checks, writer: Writer, l: Ledger, step: Step)
    requires Fits(sha, checks, writer)
    ensures l.rows <= Apply(writer, l, step).rows && l.checkpoints <= Apply(writer, l, step).checkpoints
    ensures var rows := Apply(writer, l, step).rows;
            rows == l.rows || (step.Append? && rows != [] && rows[|rows| - 1].timestamp == step.now)
  {
  }

  /** Safety over whole runs: every interleaving keeps a sound ledger sound and only adds to it. */
  lemma {:induction false} RunKeepsSound(sha: Sha, checks: Checks, writer: Writer, l: Ledger, steps: seq<Step>)
    requires Fits(sha, checks, writer) && Sound(sha, checks, l)
    requires MonotoneClock(steps) && forall i | 0 <= i < |steps| :: NotBefore(l.rows, steps[i])
    ensures Sound(sha, checks, Run(writer, l, steps))
    ensures l.rows <= Run(writer, l, steps).rows && l.checkpoints <= Run(writer, l, steps).checkpoints
    decreases |steps|
  {
    if steps != [] {
      var next, rest := Apply(writer, l, steps[0]), steps[1..];
      StepKeepsSound(sha, checks, writer, l, steps[0]);
      StepOnlyAppends(sha, checks, writer, l, steps[0]);
      ClockContinues(l.rows, next.rows, steps);
      RunKeepsSound(sha, checks, writer, next, rest);
    }
  }

  lemma ClockContinues(rows: seq<Row>, next: seq<Row>, steps: seq<Step>)
    requires steps != [] && MonotoneClock(steps) && forall i | 0 <= i < |steps| :: NotBefore(rows, steps[i])
    requires next == rows || (steps[0].Append? && next != [] && next[|next| - 1].timestamp == steps[0].now)
    ensures MonotoneClock(steps[1..]) && forall i | 0 <= i < |steps[1..]| :: NotBefore(next, steps[1..][i])
  {
    var rest := steps[1..];
    forall i | 0 <= i < |rest| ensures NotBefore(next, rest[i]) {
      assert rest[i] == steps[i + 1] && NotBefore(rows, steps[i + 1]);
    }
  }

  // ----------------------------------------------------- the runtime's own key

  /** The key table holds the runtime's key, the auditor trusts it, and Ed25519 accepts what it signs. */
  ghost predicate Registered(rt: Runtime, ring: KeyRing) {
    var id := KeyId(rt.world, rt.signer.key);
    && ring.badRows == []
    && ring.Get(id) == Some(rt.signer.key)
    && (ring.trusted.None? || id in ring.trusted.value)
    && forall m :: rt.signer.sign(m) != [] && rt.world.verifies(rt.signer.key, m, rt.signer.sign(m))
  }

  lemma OwnCheckpointSigned(rt: Runtime, ring: KeyRing, hashes: seq<Bytes>, last: Digest, createdAt: Text,
                            cp: Checkpoint)
    requires Registered(rt, ring) && hashes != [] && Checkpointed(rt, hashes, last, createdAt) == Some(cp)
    ensures cp.size == |hashes| && cp.root == MerkleRoot(rt.world.sha, hashes) && cp.last == last
    ensures CheckpointSigned(rt.world, cp, CheckpointKey(cp, ring)) && ring.Trusts(cp.keyId)
  {
  }

  lemma OwnCheckpointFits(rt: Runtime, ring: KeyRing, rows: seq<Row>, createdAt: Text, cp: Checkpoint)
    requires Registered(rt, ring) && rows != []
    requires Checkpointed(rt, Hashes(rows), HeadHash(rows), createdAt) == Some(cp)
    ensures CheckpointFits(rt.world.sha, Auditor(rt.world, ring), rows, cp)
  {
    OwnCheckpointSigned(rt, ring, Hashes(rows), HeadHash(rows), createdAt, cp);
    AuditorCheckpoint(rt.world, ring, cp);
  }

  /** Neither payload covers the entry hash, the signature or the key id. */
  lemma PayloadsIgnoreSeal(w: World, a: Row, b: Row, h: Digest, signature: Option<Text>, keyId: Option<Text>)
    requires b == a.(entryHash := h, verdictSignature := signature, verdictKeyId := keyId)
    ensures HasEvidence(w, a) <==> HasEvidence(w, b)
    ensures HasEvidence(w, a) ==> RowValues4(w, a, 4) == RowValues4(w, b, 4) && RowValues5(w, a) == RowValues5(w, b)
  {
    assert Values3(w, a) == Values3(w, b);
    assert TenantColumns(a) == TenantColumns(b);
    if HasEvidence(w, a) {
      assert EvidenceColumns(w, a) == EvidenceColumns(w, b);
    }
  }

  lemma Sealed5(w: World, draft: Row, r: Row, h: Digest, signature: Option<Text>, keyId: Option<Text>)
    requires HasEvidence(w, draft) && draft.tenantId.Some? && draft.schemaVersion.Some?
    requires EvidencePayload5(w, draft).Some? && h == w.sha(EvidencePayload5(w, draft).value)
    requires r == draft.(entryHash := h, verdictSignature := signature, verdictKeyId := keyId)
    ensures EntryFormat(w, r) == 5
  {
    PayloadsIgnoreSeal(w, draft, r, h, signature, keyId);
  }

  lemma Sealed4(w: World, draft: Row, r: Row, h: Digest)
    requires HasEvidence(w, draft) && draft.tenantId.None?
    requires EvidencePayload4(w, draft).Some? && h == w.sha(EvidencePayload4(w, draft).value)
    requires r == draft.(entryHash := h)
    ensures EntryFormat(w, r) == 4
  {
    PayloadsIgnoreSeal(w, draft, r, h, draft.verdictSignature, draft.verdictKeyId);
  }

  lemma SignedBySigner(rt: Runtime, ring: KeyRing, hashed: Row)
    requires Registered(rt, ring) && Sign(rt, hashed).Some?
    ensures VerdictSigned(rt.world, Sign(rt, hashed).value, ring)
  {
    assert SigningBytes(rt.world, Sign(rt, hashed).value) == SigningBytes(rt.world, hashed);
  }

  lemma NewRowFormat(rt: Runtime, ring: KeyRing, rows: seq<Row>, s: Submission, now: int, format5: bool, r: Row)
    requires Registered(rt, ring) && NewRow(rt, rows, s, now, format5) == Some(r)
    ensures r.timestamp == now && r.sequence == NextSequence(rows) && r.previous == HeadHash(rows)
    ensures EntryFormat(rt.world, r) == if format5 then 5 else 4
    ensures EvidenceHash(rt.world, r.envelope) == Some(r.envelopeHash)
    ensures format5 ==> VerdictSigned(rt.world, r, ring) && ring.Trusts(KeyName(r.verdictKeyId))
  {
    var w := rt.world;
    var draft := Draft(rt, rows, s, now, EvidenceHash(w, Some(s.envelope)).value, format5);
    assert HasEvidence(w, draft);
    if format5 {
      var h := w.sha(EvidencePayload5(w, draft).value);
      Sealed5(w, draft, r, h, r.verdictSignature, r.verdictKeyId);
      SignedBySigner(rt, ring, draft.(entryHash := h));
    } else {
      Sealed4(w, draft, r, w.sha(EvidencePayload4(w, draft).value));
    }
  }

  lemma JudgedFits(checks: Checks, rows: seq<Row>, now: int, format5: bool, r: Row, format: nat)
    requires r.timestamp == now && r.sequence == NextSequence(rows) && r.previous == HeadHash(rows)
    requires checks.format(r) == format && format == if format5 then 5 else 4
    requires checks.evidence(r) == Some(r.envelopeHash)
    requires format5 ==> checks.signed(r) && checks.trusted(r)
    ensures RowFits(checks, rows, now, format5, r)
  {
  }

  lemma OwnRowFits(rt: Runtime, ring: KeyRing, rows: seq<Row>, s: Submission, now: int, format5: bool, r: Row)
    requires Registered(rt, ring) && NewRow(rt, rows, s, now, format5) == Some(r)
    ensures RowFits(Auditor(rt.world, ring), rows, now, format5, r)
  {
    NewRowFormat(rt, ring, rows, s, now, format5, r);
    JudgedFits(Auditor(rt.world, ring), rows, now, format5, r, EntryFormat(rt.world, r));
  }

  /** The auditor accepts every row and checkpoint of a runtime whose key is registered. */
  lemma ClientFits(rt: Runtime, ring: KeyRing)
    requires Registered(rt, ring)
    ensures Fits(rt.world.sha, Auditor(rt.world, ring), Client(rt))
  {
    var (checks, writer) := (Auditor(rt.world, ring), Client(rt));
    forall rows, s, now, format5 | writer.newRow(rows, s, now, format5).Some?
      ensures RowFits(checks, rows, now, format5, writer.newRow(rows, s, now, format5).value)
    {
      OwnRowFits(rt, ring, rows, s, now, format5, writer.newRow(rows, s, now, format5).value);
    }
    forall rows, createdAt | writer.checkpoint(rows, createdAt).Some?
      ensures CheckpointFits(rt.world.sha, checks, rows, writer.checkpoint(rows, createdAt).value)
    {
      OwnCheckpointFits(rt, ring, rows, createdAt, writer.checkpoint(rows, createdAt).value);
    }
  }

  lemma EmptySound(sha: Sha, checks: Checks)
    ensures Sound(sha, checks, EMPTY)
  {
  }

  lemma SoundLedgerHolds(sha: Sha, checks: Checks, ring: KeyRing, l: Ledger)
    requires Sound(sha, checks, l) && ring.badRows == []
    ensures LedgerHolds(sha, checks, l.rows, ring, l.checkpoints)
    ensures SizesIncrease(l.checkpoints)
    ensures EntriesSinceCheckpoint(l) == |l.rows| - MaxSize(l.checkpoints) >= 0
  {
    UncoveredIsCount(sha, checks, l);
  }

  /** Every run from the empty ledger: the audit passes, checkpoint sizes grow, and nothing is over-counted. */
  lemma RunsPassAudit(rt: Runtime, ring: KeyRing, steps: seq<Step>, l: Ledger)
    requires Registered(rt, ring) && MonotoneClock(steps) && l == Run(Client(rt), EMPTY, steps)
    ensures LedgerHolds(rt.world.sha, Auditor(rt.world, ring), l.rows, ring, l.checkpoints)
    ensures SizesIncrease(l.checkpoints)
    ensures EntriesSinceCheckpoint(l) == |l.rows| - MaxSize(l.checkpoints) >= 0
  {
    ClientFits(rt, ring);
    EmptySound(rt.world.sha, Auditor(rt.world, ring));
    RunKeepsSound(rt.world.sha, Auditor(rt.world, ring), Client(rt), EMPTY, steps);
    SoundLedgerHolds(rt.world.sha, Auditor(rt.world, ring), ring, l);
  }

  lemma FirstStep(writer: Writer, l: Ledger, a: Step, rest: seq<Step>)
    ensures Run(writer, l, [a] + rest) == Run(writer, Apply(writer, l, a), rest)
  {
    var steps := [a] + rest;
    assert steps[0] == a && steps[1..] == rest;
  }

  lemma ThreeSteps(writer: Writer, l: Ledger, a: Step, b: Step, c: Step)
    ensures Run(writer, l, [a, b, c]) == Apply(writer, Apply(writer, Apply(writer, l, a), b), c)
  {
    assert [a, b, c] == [a] + [b, c] && [b, c] == [b] + [c];
    FirstStep(writer, l, a, [b, c]);
    FirstStep(writer, Apply(writer, l, a), b, [c]);
  }

  lemma LargestLast(cps: seq<Checkpoint>, cp: Checkpoint)
    requires MaxSize(cps) <= cp.size
    ensures MaxSize(cps + [cp]) == cp.size
  {
    assert (cps + [cp])[..|cps|] == cps;
  }

  lemma WriteCatchesUp(sha: Sha, checks: Checks, writer: Writer, l: Ledger)
    requires Sound(sha, checks, l) && l.pending.Some? && l.pending.value.size == |l.rows|
    ensures var done := Apply(writer, l, Write);
            done.rows == l.rows && done.pending.None? && MaxSize(done.checkpoints) == |l.rows|
  {
    MaxSizeCovered(sha, checks, l.checkpoints, Hashes(l.rows));
    InsertKeepsSound(sha, checks, l);
    LargestLast(l.checkpoints, l.pending.value);
  }

  lemma TaskCatchesUp(sha: Sha, checks: Checks, writer: Writer, l: Ledger, created: Text)
    requires Sound(sha, checks, l) && Fits(sha, checks, writer) && l.format5 && l.pending.None?
    requires l.rows != [] ==> writer.checkpoint(l.rows, created).Some?
    ensures var done := Apply(writer, Apply(writer, l, Read(created)), Write);
            && done.rows == l.rows && done.pending.None? && Sound(sha, checks, done)
            && MaxSize(done.checkpoints) == |l.rows|
  {
    var b := Apply(writer, l, Read(created));
    StepKeepsSound(sha, checks, writer, l, Read(created));
    StepKeepsSound(sha, checks, writer, b, Write);
    MaxSizeCovered(sha, checks, l.checkpoints, Hashes(l.rows));
    if b.pending.Some? {
      WriteCatchesUp(sha, checks, writer, b);
    }
  }

  /** A failed task blocks nothing: from every sound ledger a new one that can sign catches up with all entries. */
  lemma NextTaskCatchesUp(sha: Sha, checks: Checks, writer: Writer, l: Ledger, created: Text)
    requires Sound(sha, checks, l) && Fits(sha, checks, writer) && l.format5
    requires l.rows != [] ==> writer.checkpoint(l.rows, created).Some?
    ensures var done := Run(writer, l, [Abandon, Read(created), Write]);
            done.rows == l.rows && done.pending.None? && EntriesSinceCheckpoint(done) == 0
  {
    ThreeSteps(writer, l, Abandon, Read(created), Write);
    StepKeepsSound(sha, checks, writer, l, Abandon);
    TaskCatchesUp(sha, checks, writer, Apply(writer, l, Abandon), created);
    UncoveredIsCount(sha, checks, Run(writer, l, [Abandon, Read(created), Write]));
  }
}
