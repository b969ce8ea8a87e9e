/**
 The auditor: the signing-key ring, checkpoint checks and the verify_integrity
 loop, with a declarative statement of what a clean audit means.
 */
module Audit {
  import opened Common
  import opened Unicode
  import opened Canonical
  import opened Canonicalizers
  import opened LedgerFormat
  import opened Merkle

  datatype Issue =
    | SequenceGap(at: int)
    | HashMismatch(at: int)
    | EntryHashMismatch(at: int)
    | FormatDowngrade(at: int)
    | EvidenceHashMismatch(at: int)
    | VerdictSignatureInvalid(at: int)
    | UntrustedSigningKey(at: int)
    | TimestampOrder(at: int)
    | SigningKeyMismatch(keyId: Text)
    | CheckpointSignatureInvalid(at: int)
    | UntrustedCheckpointKey(at: int)
    | CheckpointBeyondLedger(at: int)
    | CheckpointMismatch(at: int)

  // ---------------------------------------------------------------- key ring

  function KeyId(w: World, key: Key): Text {
    T(SHA256_TAG) + Hex(w.sha(key))
  }

  /** A key id names the digest of the raw public key. */
  lemma KeyIdNames(w: World, key: Key)
    ensures NamesDigest(w.sha, KeyId(w, key), key)
  {
    TaggedHex(w.sha, key);
  }

  /** The keys that hash to their own id, the rows that do not, and the auditor's pins. */
  datatype KeyRing = KeyRing(keys: map<Text, Key>, badRows: seq<Text>, trusted: Option<set<Text>>) {
    predicate Trusts(keyId: Text) {
      trusted.None? || keyId in trusted.value
    }

    function Get(keyId: Text): Option<Key> {
      if keyId in keys then Some(keys[keyId]) else None
    }
  }

  function KeyName(id: Option<Text>): Text {
    if id.None? then [] else id.value
  }

  /** KeyRing.load over the key table; a row without a loadable key has None. */
  method LoadKeyRing(w: World, rows: seq<(Text, Option<Key>)>, pins: set<Text>) returns (ring: KeyRing)
    ensures ring.trusted == if pins == {} then None else Some(pins)
    ensures forall id | id in ring.keys :: KeyId(w, ring.keys[id]) == id
    ensures forall id | id in ring.keys :: (id, Some(ring.keys[id])) in rows
    ensures ring.badRows == [] <==>
            forall i | 0 <= i < |rows| :: rows[i].1.Some? && KeyId(w, rows[i].1.value) == rows[i].0
    ensures ring.badRows == [] ==> forall i | 0 <= i < |rows| :: rows[i].0 in ring.keys
  {
    var keys: map<Text, Key>, bad := map[], [];
    var i := 0;
    while i < |rows|
      invariant 0 <= i <= |rows|
      invariant forall id | id in keys :: KeyId(w, keys[id]) == id && (id, Some(keys[id])) in rows
      invariant bad == [] <==> forall j | 0 <= j < i :: rows[j].1.Some? && KeyId(w, rows[j].1.value) == rows[j].0
      invariant bad == [] ==> forall j | 0 <= j < i :: rows[j].0 in keys
    {
      var (id, key) := rows[i];
      if key.None? || KeyId(w, key.value) != id {
        bad := bad + [id];
      } else {
        assert rows[i] in rows;
        keys := keys[id := key.value];
      }
      i := i + 1;
    }
    ring := KeyRing(keys, bad, if pins == {} then None else Some(pins));
  }

  predicate SignatureValid(w: World, key: Option<Key>, message: Option<Bytes>, signature: Option<Text>) {
    key.Some? && message.Some? && signature.Some? && signature.value != [] &&
    w.verifies(key.value, message.value, signature.value)
  }

  // -------------------------------------------------------------- checkpoints

  /** The table's CHECK (tree_size > 0). */
  type Positive = n: nat | n > 0 witness 1

  /** A ledger_checkpoints row, or an exported file that carries its own key. */
  datatype Checkpoint = Checkpoint(
    tenantId: Text,
    size: Positive,
    root: Digest,
    last: Digest,
    createdAt: Text,
    keyId: Text,
    signature: Text,
    exportedKey: Option<Key>
  )

  const STATEMENT_NAMES: seq<string> := [
    "checkpoint_format", "tenant_id", "tree_size", "root_hash", "last_entry_hash", "created_at"]

  function StatementValues(tenantId: Text, size: nat, root: Digest, last: Digest, createdAt: Text): seq<Json> {
    [Integer(1), Str(tenantId), Integer(size), Str(Hex(root)), Str(Hex(last)), Str(createdAt)]
  }

  /** checkpoint_statement: the canonical bytes a checkpoint signature covers. */
  function Statement(w: World, tenantId: Text, size: nat, root: Digest, last: Digest, createdAt: Text): Option<Bytes> {
    Canonicalize(w.nfc, Obj(Record(STATEMENT_NAMES, StatementValues(tenantId, size, root, last, createdAt))))
  }

  function Hashes(rows: seq<Row>): (hs: seq<Bytes>)
    ensures |hs| == |rows|
    ensures forall i | 0 <= i < |rows| :: hs[i] == rows[i].entryHash
  {
    if rows == [] then [] else [rows[0].entryHash] + Hashes(rows[1..])
  }

  /** The key a checkpoint is checked with: its own when exported, else the ring's. */
  function CheckpointKey(cp: Checkpoint, ring: KeyRing): Option<Key> {
    if cp.exportedKey.Some? then cp.exportedKey else ring.Get(cp.keyId)
  }

  function CheckpointStatement(w: World, cp: Checkpoint): Option<Bytes> {
    Statement(w, cp.tenantId, cp.size, cp.root, cp.last, cp.createdAt)
  }

  predicate CheckpointSigned(w: World, cp: Checkpoint, key: Option<Key>) {
    && key.Some? && KeyId(w, key.value) == cp.keyId
    && SignatureValid(w, key, CheckpointStatement(w, cp), Some(cp.signature))
  }

  predicate VerdictSigned(w: World, r: Row, ring: KeyRing) {
    SignatureValid(w, ring.Get(KeyName(r.verdictKeyId)), SigningBytes(w, r), r.verdictSignature)
  }

  // ------------------------------------------------------------- the auditor

  /** Everything the audit recomputes about one row or one checkpoint on its own. */
  datatype Checks = Checks(
    format: Row -> nat,                         // the format that reproduces the stored hash, or 0
    evidence: Row -> Option<Option<Text>>,      // the digest of the stored envelope
    signed: Row -> bool,
    trusted: Row -> bool,
    checkpointSigned: Checkpoint -> bool,
    checkpointTrusted: Checkpoint -> bool
  )

  function Auditor(w: World, ring: KeyRing): Checks {
    Checks(
      (r: Row) => EntryFormat(w, r),
      (r: Row) => EvidenceHash(w, r.envelope),
      (r: Row) => VerdictSigned(w, r, ring),
      (r: Row) => ring.Trusts(KeyName(r.verdictKeyId)),
      (cp: Checkpoint) => CheckpointSigned(w, cp, CheckpointKey(cp, ring)),
      (cp: Checkpoint) => ring.Trusts(cp.keyId))
  }

  /** What a verified checkpoint means for the entries. */
  ghost predicate CheckpointHolds(sha: Sha, checks: Checks, cp: Checkpoint, hashes: seq<Bytes>) {
    && checks.checkpointSigned(cp)
    && checks.checkpointTrusted(cp)
    && cp.size <= |hashes|
    && MerkleRoot(sha, hashes[..cp.size]) == cp.root
    && hashes[cp.size - 1] == cp.last
  }

  ghost predicate CheckpointsHold(sha: Sha, checks: Checks, cps: seq<Checkpoint>, hashes: seq<Bytes>) {
    forall i | 0 <= i < |cps| :: CheckpointHolds(sha, checks, cps[i], hashes)
  }

  /** The first problem with a checkpoint, in the order it is looked for. */
  ghost predicate CheckpointProblem(sha: Sha, checks: Checks, cp: Checkpoint, hashes: seq<Bytes>, issue: Issue) {
    match issue
    case CheckpointSignatureInvalid(at) => at == cp.size && !checks.checkpointSigned(cp)
    case UntrustedCheckpointKey(at) => at == cp.size && checks.checkpointSigned(cp) && !checks.checkpointTrusted(cp)
    case CheckpointBeyondLedger(at) =>
      && at == cp.size && checks.checkpointSigned(cp) && checks.checkpointTrusted(cp)
      && cp.size > |hashes|
    case CheckpointMismatch(at) =>
      && at == cp.size && checks.checkpointSigned(cp) && checks.checkpointTrusted(cp)
      && cp.size <= |hashes|
      && (MerkleRoot(sha, hashes[..cp.size]) != cp.root || hashes[cp.size - 1] != cp.last)
    case _ => false
  }

  /** _check_one: the first problem with a checkpoint, if any. */
  method CheckOne(sha: Sha, checks: Checks, cp: Checkpoint, hashes: seq<Bytes>) returns (issue: Option<Issue>)
    ensures issue.None? <==> CheckpointHolds(sha, checks, cp, hashes)
    ensures forall x :: issue == Some(x) <==> CheckpointProblem(sha, checks, cp, hashes, x)
  {
    if !checks.checkpointSigned(cp) {
      return Some(CheckpointSignatureInvalid(cp.size));
    }
    if !checks.checkpointTrusted(cp) {
      return Some(UntrustedCheckpointKey(cp.size));
    }
    if cp.size > |hashes| {
      return Some(CheckpointBeyondLedger(cp.size));
    }
    var covered := hashes[..cp.size];
    if MerkleRoot(sha, covered) != cp.root || covered[|covered| - 1] != cp.last {
      return Some(CheckpointMismatch(cp.size));
    }
    return None;
  }

  ghost predicate SomeCheckpointProblem(sha: Sha, checks: Checks, cps: seq<Checkpoint>, hashes: seq<Bytes>,
                                        issue: Issue) {
    exists i :: 0 <= i < |cps| && CheckpointProblem(sha, checks, cps[i], hashes, issue)
  }

  lemma ProblemNext(sha: Sha, checks: Checks, cps: seq<Checkpoint>, hashes: seq<Bytes>, i: nat)
    requires i < |cps|
    ensures forall x :: SomeCheckpointProblem(sha, checks, cps[..i + 1], hashes, x) <==>
              SomeCheckpointProblem(sha, checks, cps[..i], hashes, x) ||
              CheckpointProblem(sha, checks, cps[i], hashes, x)
  {
    forall x
      ensures SomeCheckpointProblem(sha, checks, cps[..i + 1], hashes, x) <==>
              SomeCheckpointProblem(sha, checks, cps[..i], hashes, x) ||
              CheckpointProblem(sha, checks, cps[i], hashes, x)
    {
      if k :| 0 <= k < i && CheckpointProblem(sha, checks, cps[..i][k], hashes, x) {
        assert cps[..i + 1][k] == cps[..i][k];
      }
      if CheckpointProblem(sha, checks, cps[i], hashes, x) {
        assert cps[..i + 1][i] == cps[i];
      }
    }
  }

  method VerifyCheckpoints(sha: Sha, checks: Checks, checkpoints: seq<Checkpoint>, hashes: seq<Bytes>)
    returns (verified: nat, issues: seq<Issue>)
    ensures verified + |issues| == |checkpoints|
    ensures issues == [] <==> CheckpointsHold(sha, checks, checkpoints, hashes)
    ensures forall x :: x in issues <==> SomeCheckpointProblem(sha, checks, checkpoints, hashes, x)
  {
    verified, issues := 0, [];
    var i := 0;
    while i < |checkpoints|
      invariant 0 <= i <= |checkpoints|
      invariant verified + |issues| == i
      invariant issues == [] <==> forall j | 0 <= j < i :: CheckpointHolds(sha, checks, checkpoints[j], hashes)
      invariant forall x :: x in issues <==> SomeCheckpointProblem(sha, checks, checkpoints[..i], hashes, x)
    {
      var issue := CheckOne(sha, checks, checkpoints[i], hashes);
      ProblemNext(sha, checks, checkpoints, hashes, i);
      if issue.None? {
        verified := verified + 1;
      } else {
        issues := issues + [issue.value];
      }
      i := i + 1;
    }
    assert checkpoints[..i] == checkpoints;
  }

  // ------------------------------------------------------------ the row loop

  function PreviousHash(rows: seq<Row>, i: nat): Digest
    requires i <= |rows|
  {
    if i == 0 then GENESIS else rows[i - 1].entryHash
  }

  /** The chain: position, link and time. */
  ghost predicate Linked(rows: seq<Row>, i: nat)
    requires i < |rows|
  {
    && rows[i].sequence == i + 1
    && rows[i].previous == PreviousHash(rows, i)
    && (i > 0 ==> rows[i - 1].timestamp <= rows[i].timestamp)
  }

  /** The ratchet: the stored hash is right in some format, no older than any format before it. */
  ghost predicate Ratcheted(checks: Checks, rows: seq<Row>, i: nat)
    requires i < |rows|
  {
    && checks.format(rows[i]) != 0
    && forall j | 0 <= j < i :: checks.format(rows[j]) <= checks.format(rows[i])
  }

  /** The evidence column is the digest of the stored evidence, and a format-5 row is signed by a trusted key. */
  ghost predicate Evidenced(checks: Checks, r: Row) {
    && (checks.format(r) >= 4 ==> checks.evidence(r) == Some(r.envelopeHash))
    && (checks.format(r) == 5 ==> checks.signed(r) && checks.trusted(r))
  }

  /** The declarative check of row i, given the rows before it. */
  ghost predicate RowHolds(checks: Checks, rows: seq<Row>, i: nat)
    requires i < |rows|
  {
    Linked(rows, i) && Ratcheted(checks, rows, i) && Evidenced(checks, rows[i])
  }

  ghost predicate RowsHold(checks: Checks, rows: seq<Row>) {
    forall i | 0 <= i < |rows| :: RowHolds(checks, rows, i)
  }

  /** A ledger, its key ring and its checkpoints are in order. */
  ghost predicate LedgerHolds(sha: Sha, checks: Checks, rows: seq<Row>, ring: KeyRing, cps: seq<Checkpoint>) {
    && RowsHold(checks, rows)
    && ring.badRows == []
    && CheckpointsHold(sha, checks, cps, Hashes(rows))
  }

  datatype Verification = Verification(
    valid: bool,
    total: nat,
    chainLinks: nat,
    entryHashes: nat,
    signatures: nat,
    checkpoints: nat,
    issues: seq<Issue>
  )

  ghost predicate EvidenceProblem(checks: Checks, r: Row, issue: Issue) {
    match issue
    case EvidenceHashMismatch(at) =>
      at == r.sequence && checks.format(r) >= 4 && checks.evidence(r) != Some(r.envelopeHash)
    case VerdictSignatureInvalid(at) => at == r.sequence && checks.format(r) == 5 && !checks.signed(r)
    case UntrustedSigningKey(at) =>
      at == r.sequence && checks.format(r) == 5 && checks.signed(r) && !checks.trusted(r)
    case _ => false
  }

  /** What the evidence column and step 3b say about a row of a given format. */
  method CheckEvidence(checks: Checks, r: Row, format: nat) returns (issues: seq<Issue>, signed: bool)
    requires format == checks.format(r)
    ensures issues == [] <==> Evidenced(checks, r)
    ensures forall x :: x in issues <==> EvidenceProblem(checks, r, x)
    ensures signed <==> format == 5 && checks.signed(r) && checks.trusted(r)
  {
    issues, signed := [], false;
    if format >= 4 && Some(r.envelopeHash) != checks.evidence(r) {
      issues := [EvidenceHashMismatch(r.sequence)];
    }
    if format == 5 {
      if !checks.signed(r) {
        issues := issues + [VerdictSignatureInvalid(r.sequence)];
      } else if !checks.trusted(r) {
        issues := issues + [UntrustedSigningKey(r.sequence)];
      } else {
        signed := true;
      }
    }
  }

  /** max is the running maximum of the formats of the first n rows, never below 3. */
  ghost predicate IsMaxFormat(checks: Checks, rows: seq<Row>, n: nat, max: nat)
    requires n <= |rows|
  {
    && max >= 3
    && (forall j | 0 <= j < n :: checks.format(rows[j]) <= max)
    && (max == 3 || exists j | 0 <= j < n :: checks.format(rows[j]) == max)
  }

  /** One running maximum decides the comparison with every earlier row; a format is 0 or at least 3. */
  lemma RatchetByMax(checks: Checks, rows: seq<Row>, i: nat, max: nat)
    requires i < |rows| && IsMaxFormat(checks, rows, i, max)
    requires checks.format(rows[i]) == 0 || checks.format(rows[i]) >= 3
    ensures Ratcheted(checks, rows, i) <==> checks.format(rows[i]) != 0 && checks.format(rows[i]) >= max
    ensures IsMaxFormat(checks, rows, i + 1, if Ratcheted(checks, rows, i) then checks.format(rows[i]) else max)
  {
  }

  /** How many rows count as signed: format 5, valid signature, trusted key. */
  ghost function SignedRows(checks: Checks, rows: seq<Row>, n: nat): nat
    requires n <= |rows|
  {
    if n == 0 then 0
    else
      var r := rows[n - 1];
      SignedRows(checks, rows, n - 1) + if checks.format(r) == 5 && checks.signed(r) && checks.trusted(r) then 1 else 0
  }

  /** How many rows store a hash their payload reproduces, in a format no older than any before. */
  ghost function RatchetedRows(checks: Checks, rows: seq<Row>, n: nat): nat
    requires n <= |rows|
  {
    if n == 0 then 0 else RatchetedRows(checks, rows, n - 1) + if Ratcheted(checks, rows, n - 1) then 1 else 0
  }

  /** How many rows store the hash of the row before them. */
  ghost function ChainedRows(rows: seq<Row>, n: nat): nat
    requires n <= |rows|
  {
    if n == 0 then 0
    else ChainedRows(rows, n - 1) + if rows[n - 1].previous == PreviousHash(rows, n - 1) then 1 else 0
  }

  /** The three counters after n rows. */
  ghost predicate Counted(checks: Checks, rows: seq<Row>, n: nat, links: nat, hashes: nat, signed: nat)
    requires n <= |rows|
  {
    links == ChainedRows(rows, n) && hashes == RatchetedRows(checks, rows, n) && signed == SignedRows(checks, rows, n)
  }

  lemma CountNext(checks: Checks, rows: seq<Row>, i: nat, links: nat, hashes: nat, signed: nat)
    requires i < |rows| && Counted(checks, rows, i, links, hashes, signed)
    ensures var r := rows[i];
            Counted(checks, rows, i + 1,
                    links + if r.previous == PreviousHash(rows, i) then 1 else 0,
                    hashes + if Ratcheted(checks, rows, i) then 1 else 0,
                    signed + if checks.format(r) == 5 && checks.signed(r) && checks.trusted(r) then 1 else 0)
  {
  }

  function KeyIssues(ids: seq<Text>): (issues: seq<Issue>)
    ensures |issues| == |ids|
    ensures forall x :: x in issues <==> x.SigningKeyMismatch? && x.keyId in ids
  {
    if ids == [] then [] else [SigningKeyMismatch(ids[0])] + KeyIssues(ids[1..])
  }

  /** What the row loop carries from one row to the next. */
  datatype Carry = Carry(previous: Digest, expected: int, maxFormat: nat, lastTimestamp: Option<int>)

  /** The checks of one row, on the carried state. */
  ghost predicate Passes(checks: Checks, r: Row, c: Carry) {
    && r.sequence == c.expected
    && r.previous == c.previous
    && Newest(checks, r, c)
    && Evidenced(checks, r)
    && (c.lastTimestamp.Some? ==> c.lastTimestamp.value <= r.timestamp)
  }

  ghost predicate Newest(checks: Checks, r: Row, c: Carry) {
    checks.format(r) != 0 && checks.format(r) >= c.maxFormat
  }

  function Advance(r: Row, maxFormat: nat): Carry {
    Carry(r.entryHash, r.sequence + 1, maxFormat, Some(r.timestamp))
  }

  /** What is wrong with a row, on the carried state. */
  ghost predicate RowProblem(checks: Checks, r: Row, c: Carry, issue: Issue) {
    match issue
    case SequenceGap(at) => at == c.expected && r.sequence != c.expected
    case HashMismatch(at) => at == r.sequence && r.previous != c.previous
    case EntryHashMismatch(at) => at == r.sequence && checks.format(r) == 0
    case FormatDowngrade(at) => at == r.sequence && 0 < checks.format(r) < c.maxFormat
    case TimestampOrder(at) => at == r.sequence && c.lastTimestamp.Some? && r.timestamp < c.lastTimestamp.value
    case _ => EvidenceProblem(checks, r, issue)
  }

  /** The body of the row loop: the issues of one row, and which counters it raises. */
  method CheckRow(checks: Checks, r: Row, c: Carry)
    returns (issues: seq<Issue>, linked: bool, hashed: bool, signed: bool, next: Carry)
    ensures linked <==> r.previous == c.previous
    ensures hashed <==> Newest(checks, r, c)
    ensures signed <==> checks.format(r) == 5 && checks.signed(r) && checks.trusted(r)
    ensures issues == [] <==> Passes(checks, r, c)
    ensures forall x :: x in issues <==> RowProblem(checks, r, c, x)
    ensures next == Advance(r, if hashed then checks.format(r) else c.maxFormat)
  {
    issues := [];
    if r.sequence != c.expected {
      issues := issues + [SequenceGap(c.expected)];
    }
    linked := r.previous == c.previous;
    if !linked {
      issues := issues + [HashMismatch(r.sequence)];
    }
    var format, maxFormat := checks.format(r), c.maxFormat;
    hashed := false;
    if format == 0 {
      issues := issues + [EntryHashMismatch(r.sequence)];
    } else if format < maxFormat {
      issues := issues + [FormatDowngrade(r.sequence)];
    } else {
      hashed := true;
      maxFormat := if format > maxFormat then format else maxFormat;
    }
    var evidenceIssues;
    evidenceIssues, signed := CheckEvidence(checks, r, format);
    issues := issues + evidenceIssues;
    if c.lastTimestamp.Some? && r.timestamp < c.lastTimestamp.value {
      issues := issues + [TimestampOrder(r.sequence)];
    }
    next := Advance(r, maxFormat);
  }

  /** What the loop carries to row i, however many issues it met. */
  ghost predicate Carries(checks: Checks, rows: seq<Row>, i: nat, c: Carry)
    requires i <= |rows|
  {
    && c.previous == PreviousHash(rows, i)
    && c.expected == (if i == 0 then 1 else rows[i - 1].sequence + 1)
    && c.lastTimestamp == (if i == 0 then None else Some(rows[i - 1].timestamp))
    && IsMaxFormat(checks, rows, i, c.maxFormat)
  }

  lemma CarryNext(checks: Checks, rows: seq<Row>, i: nat, c: Carry)
    requires i < |rows| && Carries(checks, rows, i, c)
    requires checks.format(rows[i]) == 0 || checks.format(rows[i]) >= 3
    ensures Ratcheted(checks, rows, i) <==> Newest(checks, rows[i], c)
    ensures Carries(checks, rows, i + 1,
                    Advance(rows[i], if Newest(checks, rows[i], c) then checks.format(rows[i]) else c.maxFormat))
  {
    RatchetByMax(checks, rows, i, c.maxFormat);
  }

  ghost predicate HoldUpTo(checks: Checks, rows: seq<Row>, n: nat)
    requires n <= |rows|
  {
    forall j | 0 <= j < n :: RowHolds(checks, rows, j)
  }

  /** What is wrong with row i, given the rows before it. */
  ghost predicate LedgerProblem(checks: Checks, rows: seq<Row>, i: nat, issue: Issue)
    requires i < |rows|
  {
    var r := rows[i];
    match issue
    case SequenceGap(at) => at == (if i == 0 then 1 else rows[i - 1].sequence + 1) && r.sequence != at
    case HashMismatch(at) => at == r.sequence && r.previous != PreviousHash(rows, i)
    case EntryHashMismatch(at) => at == r.sequence && checks.format(r) == 0
    case FormatDowngrade(at) =>
      at == r.sequence && checks.format(r) != 0 && exists j :: 0 <= j < i && checks.format(rows[j]) > checks.format(r)
    case TimestampOrder(at) => at == r.sequence && i > 0 && r.timestamp < rows[i - 1].timestamp
    case _ => EvidenceProblem(checks, r, issue)
  }

  lemma ProblemMeans(checks: Checks, rows: seq<Row>, i: nat, c: Carry, issue: Issue)
    requires i < |rows| && Carries(checks, rows, i, c)
    requires checks.format(rows[i]) == 0 || checks.format(rows[i]) >= 3
    ensures RowProblem(checks, rows[i], c, issue) <==> LedgerProblem(checks, rows, i, issue)
  {
  }

  ghost predicate SomeProblem(checks: Checks, rows: seq<Row>, n: nat, issue: Issue)
    requires n <= |rows|
  {
    exists i :: 0 <= i < n && LedgerProblem(checks, rows, i, issue)
  }

  /** The issues found so far are the problems of the first n rows. */
  ghost predicate AllFound(checks: Checks, rows: seq<Row>, n: nat, issues: seq<Issue>)
    requires n <= |rows|
  {
    forall x :: x in issues <==> SomeProblem(checks, rows, n, x)
  }

  lemma FoundNext(checks: Checks, rows: seq<Row>, i: nat, c: Carry, issues: seq<Issue>, found: seq<Issue>)
    requires i < |rows| && Carries(checks, rows, i, c) && AllFound(checks, rows, i, issues)
    requires checks.format(rows[i]) == 0 || checks.format(rows[i]) >= 3
    requires forall x :: x in found <==> RowProblem(checks, rows[i], c, x)
    ensures AllFound(checks, rows, i + 1, issues + found)
  {
    forall x ensures x in issues + found <==> SomeProblem(checks, rows, i + 1, x) {
      ProblemMeans(checks, rows, i, c, x);
      assert SomeProblem(checks, rows, i + 1, x) <==>
        SomeProblem(checks, rows, i, x) || LedgerProblem(checks, rows, i, x);
    }
  }

  /** After rows that hold, the checks on the carried state are the declarative ones on all rows so far. */
  lemma PassesMeans(checks: Checks, rows: seq<Row>, i: nat, c: Carry)
    requires i < |rows| && Carries(checks, rows, i, c) && HoldUpTo(checks, rows, i)
    requires Ratcheted(checks, rows, i) <==> Newest(checks, rows[i], c)
    ensures Passes(checks, rows[i], c) <==> RowHolds(checks, rows, i)
  {
    if i > 0 {
      assert RowHolds(checks, rows, i - 1);
    }
  }

  lemma HoldNext(checks: Checks, rows: seq<Row>, i: nat)
    requires i < |rows|
    ensures HoldUpTo(checks, rows, i + 1) <==> HoldUpTo(checks, rows, i) && RowHolds(checks, rows, i)
  {
  }

  /** The row loop. */
  method CheckRows(checks: Checks, rows: seq<Row>) returns (issues: seq<Issue>, links: nat, hashes: nat, signed: nat)
    requires forall i | 0 <= i < |rows| :: checks.format(rows[i]) == 0 || checks.format(rows[i]) >= 3
    ensures issues == [] <==> RowsHold(checks, rows)
    ensures AllFound(checks, rows, |rows|, issues)
    ensures links == ChainedRows(rows, |rows|) && hashes == RatchetedRows(checks, rows, |rows|)
    ensures signed == SignedRows(checks, rows, |rows|)
  {
    issues, links, hashes, signed := [], 0, 0, 0;
    var carry := Carry(GENESIS, 1, 3, None);
    var i := 0;
    while i < |rows|
      invariant 0 <= i <= |rows| && Carries(checks, rows, i, carry)
      invariant issues == [] <==> HoldUpTo(checks, rows, i)
      invariant AllFound(checks, rows, i, issues)
      invariant Counted(checks, rows, i, links, hashes, signed)
    {
      var found, linked, hashed, ok, next := CheckRow(checks, rows[i], carry);
      CarryNext(checks, rows, i, carry);
      FoundNext(checks, rows, i, carry, issues, found);
      CountNext(checks, rows, i, links, hashes, signed);
      HoldNext(checks, rows, i);
      if issues == [] {
        PassesMeans(checks, rows, i, carry);
      }
      links := links + if linked then 1 else 0;
      hashes := hashes + if hashed then 1 else 0;
      signed := signed + if ok then 1 else 0;
      issues, carry := issues + found, next;
      i := i + 1;
    }
  }

  /** verify_integrity. The row loop keeps running state only; the contract is about all rows. */
  method VerifyIntegrity(sha: Sha, checks: Checks, rows: seq<Row>, ring: KeyRing, checkpoints: seq<Checkpoint>)
    returns (result: Verification)
    requires forall i | 0 <= i < |rows| :: checks.format(rows[i]) == 0 || checks.format(rows[i]) >= 3
    ensures result.valid <==> rows == [] || LedgerHolds(sha, checks, rows, ring, checkpoints)
    ensures result.valid <==> result.issues == []
    ensures rows != [] ==> forall x :: x in result.issues <==>
              || SomeProblem(checks, rows, |rows|, x)
              || SomeCheckpointProblem(sha, checks, checkpoints, Hashes(rows), x)
              || (x.SigningKeyMismatch? && x.keyId in ring.badRows)
    ensures result.total == |rows|
    ensures result.chainLinks == ChainedRows(rows, |rows|)
    ensures result.entryHashes == RatchetedRows(checks, rows, |rows|)
    ensures result.signatures == SignedRows(checks, rows, |rows|)
    ensures result.valid && rows != [] ==> result.checkpoints == |checkpoints|
  {
    if rows == [] {
      return Verification(true, 0, 0, 0, 0, 0, []);
    }
    var issues, links, hashes, signed := CheckRows(checks, rows);
    issues := issues + KeyIssues(ring.badRows);
    var verified, checkpointIssues := VerifyCheckpoints(sha, checks, checkpoints, Hashes(rows));
    issues := issues + checkpointIssues;
    result := Verification(issues == [], |rows|, links, hashes, signed, verified, issues);
  }

  /** The audit-ledger verify command on stored rows, keys and checkpoints. */
  method Audit(w: World, rows: seq<Row>, ring: KeyRing, checkpoints: seq<Checkpoint>) returns (result: Verification)
    ensures result.valid <==> rows == [] || LedgerHolds(w.sha, Auditor(w, ring), rows, ring, checkpoints)
    ensures result.total == |rows|
  {
    var checks := Auditor(w, ring);
    forall i | 0 <= i < |rows| ensures checks.format(rows[i]) == 0 || checks.format(rows[i]) >= 3 {
      AuditorFormat(w, ring, rows[i]);
    }
    result := VerifyIntegrity(w.sha, checks, rows, ring, checkpoints);
  }

  lemma AuditorFormat(w: World, ring: KeyRing, r: Row)
    ensures Auditor(w, ring).format(r) == EntryFormat(w, r)
    ensures Auditor(w, ring).format(r) in {0, 3, 4, 5}
  {
  }

  lemma AuditorCheckpoint(w: World, ring: KeyRing, cp: Checkpoint)
    ensures Auditor(w, ring).checkpointSigned(cp) == CheckpointSigned(w, cp, CheckpointKey(cp, ring))
    ensures Auditor(w, ring).checkpointTrusted(cp) == ring.Trusts(cp.keyId)
  {
  }

  lemma AuditorRow(w: World, ring: KeyRing, r: Row)
    ensures Auditor(w, ring).signed(r) == VerdictSigned(w, r, ring)
    ensures Auditor(w, ring).trusted(r) == ring.Trusts(KeyName(r.verdictKeyId))
  {
  }

  /** An exported checkpoint is checked with the key it carries, whatever the key table holds. */
  lemma ExportedNeedsNoRing(w: World, ring: KeyRing, cp: Checkpoint, key: Key)
    requires cp.exportedKey == Some(key)
    ensures Auditor(w, ring).checkpointSigned(cp) <==>
            && KeyId(w, key) == cp.keyId
            && SignatureValid(w, Some(key), CheckpointStatement(w, cp), Some(cp.signature))
  {
    AuditorCheckpoint(w, ring, cp);
  }
}
