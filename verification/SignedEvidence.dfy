/**
 What a valid signature proves: the bytes it covers name what was signed, so a
 checkpoint or verdict that verifies under the owner's key is one the owner signed.
 */
module SignedEvidence {
  import opened Common
  import opened Unicode
  import opened Canonicalizers
  import opened LedgerFormat
  import opened LedgerBinding
  import opened Merkle
  import opened Audit
  import opened LedgerMessages
  import opened TamperEvidence
  import LedgerClient

  // ------------------------------------------------ what the messages fix

  lemma WholeInjective(m: nat, n: nat)
    requires WholeValue(m) == WholeValue(n)
    ensures m == n
  {
    assert m as real == n as real;
  }

  lemma HexValueInjective(a: Bytes, b: Bytes)
    requires HexText(a) == HexText(b)
    ensures a == b
  {
    HexInjective(a, b);
  }

  lemma OptionalInjective(nfc: Normalizer, a: Option<Text>, b: Option<Text>)
    requires OptionalValue(nfc, a) == OptionalValue(nfc, b)
    ensures Opt(nfc, a) == Opt(nfc, b)
  {
  }

  /** What a checkpoint statement is made of; texts count up to NFC. */
  datatype Claim = Claim(tenantId: Text, size: nat, root: Digest, last: Digest, createdAt: Text)

  function ClaimBytes(w: World, c: Claim): Option<Bytes> {
    Statement(w, c.tenantId, c.size, c.root, c.last, c.createdAt)
  }

  ghost predicate SameClaim(nfc: Normalizer, a: Claim, b: Claim) {
    && a.size == b.size && a.root == b.root && a.last == b.last
    && nfc(a.tenantId) == nfc(b.tenantId) && nfc(a.createdAt) == nfc(b.createdAt)
  }

  /** One statement, one claim: nothing a checkpoint says can change under its signature. */
  lemma StatementBinds(w: World, a: Claim, b: Claim)
    requires IsNfc(w.nfc) && ClaimBytes(w, a).Some? && ClaimBytes(w, a) == ClaimBytes(w, b)
    ensures SameClaim(w.nfc, a, b)
  {
    var bytes := ClaimBytes(w, a).value;
    StatementReads(w, a.tenantId, a.size, a.root, a.last, a.createdAt, bytes);
    StatementReads(w, b.tenantId, b.size, b.root, b.last, b.createdAt, bytes);
    WholeInjective(a.size, b.size);
    HexValueInjective(a.root, b.root);
    HexValueInjective(a.last, b.last);
  }

  ghost predicate SameVerdict(nfc: Normalizer, a: Row, b: Row) {
    && a.sequence == b.sequence && a.entryHash == b.entryHash
    && nfc(a.telemetryId) == nfc(b.telemetryId) && Opt(nfc, a.transcriptId) == Opt(nfc, b.transcriptId)
  }

  /** One signing message, one verdict: position, entry hash, telemetry and transcript. */
  lemma SigningBinds(w: World, a: Row, b: Row)
    requires IsNfc(w.nfc) && SigningBytes(w, a).Some? && SigningBytes(w, a) == SigningBytes(w, b)
    ensures SameVerdict(w.nfc, a, b)
  {
    var bytes := SigningBytes(w, a).value;
    SigningReads(w, a, bytes);
    SigningReads(w, b, bytes);
    WholeInjective(a.sequence, b.sequence);
    HexValueInjective(a.entryHash, b.entryHash);
    OptionalInjective(w.nfc, a.transcriptId, b.transcriptId);
  }

  /** The two kinds of message are never the same bytes, so neither signature passes for the other. */
  lemma KindsDiffer(w: World, c: Claim, r: Row)
    requires IsNfc(w.nfc) && ClaimBytes(w, c).Some?
    ensures ClaimBytes(w, c) != SigningBytes(w, r)
  {
    if ClaimBytes(w, c) == SigningBytes(w, r) {
      StatementReads(w, c.tenantId, c.size, c.root, c.last, c.createdAt, ClaimBytes(w, c).value);
      SigningReads(w, r, ClaimBytes(w, c).value);
      assert false;
    }
  }

  // --------------------------------------------------------- ideal signatures

  /** What the owner of a key signs: checkpoints over its own rows, verdicts, and other messages. */
  datatype Act =
    | Checkpointing(tenantId: Text, rows: seq<Row>, createdAt: Text)
    | Verdict(row: Row)
    | Other(message: Bytes)

  /** The claim of a checkpoint over rows. */
  function ClaimOf(w: World, tenantId: Text, rows: seq<Row>, createdAt: Text): Claim
    requires rows != []
  {
    Claim(tenantId, |rows|, MerkleRoot(w.sha, Hashes(rows)), rows[|rows| - 1].entryHash, createdAt)
  }

  /** Neither a checkpoint statement nor a verdict's signing bytes. */
  ghost predicate IsOther(w: World, m: Bytes) {
    (forall c :: ClaimBytes(w, c) != Some(m)) && (forall r :: SigningBytes(w, r) != Some(m))
  }

  /** The bytes signed; other messages are of neither of the two kinds. */
  ghost predicate Covers(w: World, act: Act, message: Bytes) {
    match act
    case Checkpointing(tenantId, rows, createdAt) =>
      rows != [] && ClaimBytes(w, ClaimOf(w, tenantId, rows, createdAt)) == Some(message)
    case Verdict(row) => SigningBytes(w, row) == Some(message)
    case Other(m) => m == message && IsOther(w, m)
  }

  /** Ideal signatures: the key verifies only what its owner signed. */
  ghost predicate OnlySigned(w: World, key: Key, acts: iset<Act>) {
    forall m, signature | w.verifies(key, m, signature) :: exists act :: act in acts && Covers(w, act, m)
  }

  function CheckpointClaim(cp: Checkpoint): Claim {
    Claim(cp.tenantId, cp.size, cp.root, cp.last, cp.createdAt)
  }

  lemma ActBehind(w: World, key: Key, acts: iset<Act>, m: Bytes, signature: Text) returns (act: Act)
    requires OnlySigned(w, key, acts) && w.verifies(key, m, signature)
    ensures act in acts && Covers(w, act, m)
  {
    act :| act in acts && Covers(w, act, m);
  }

  lemma ClaimBehind(w: World, act: Act, claim: Claim, message: Bytes)
    requires IsNfc(w.nfc) && Covers(w, act, message) && ClaimBytes(w, claim) == Some(message)
    ensures act.Checkpointing? && act.rows != []
    ensures SameClaim(w.nfc, claim, ClaimOf(w, act.tenantId, act.rows, act.createdAt))
  {
    match act
    case Checkpointing(tenantId, rows, createdAt) =>
      StatementBinds(w, claim, ClaimOf(w, tenantId, rows, createdAt));
    case Verdict(row) => KindsDiffer(w, claim, row);
    case Other(_) => assert false;
  }

  lemma RowBehind(w: World, act: Act, r: Row, message: Bytes)
    requires IsNfc(w.nfc) && Covers(w, act, message) && SigningBytes(w, r) == Some(message)
    ensures act.Verdict? && SameVerdict(w.nfc, act.row, r)
  {
    match act
    case Checkpointing(tenantId, rows, createdAt) => KindsDiffer(w, ClaimOf(w, tenantId, rows, createdAt), r);
    case Verdict(row) => SigningBinds(w, row, r);
    case Other(_) => assert false;
  }

  /** A checkpoint that verifies under the key is, field by field, one the owner computed over rows. */
  lemma CheckpointWasSigned(w: World, key: Key, acts: iset<Act>, cp: Checkpoint) returns (act: Act)
    requires IsNfc(w.nfc) && OnlySigned(w, key, acts) && CheckpointSigned(w, cp, Some(key))
    ensures act in acts && act.Checkpointing? && act.rows != []
    ensures SameClaim(w.nfc, CheckpointClaim(cp), ClaimOf(w, act.tenantId, act.rows, act.createdAt))
  {
    var message := ClaimBytes(w, CheckpointClaim(cp)).value;
    act := ActBehind(w, key, acts, message, cp.signature);
    ClaimBehind(w, act, CheckpointClaim(cp), message);
  }

  /** A verdict that verifies under the key is one the owner signed for the same entry hash. */
  lemma VerdictWasSigned(w: World, key: Key, acts: iset<Act>, r: Row) returns (act: Act)
    requires IsNfc(w.nfc) && OnlySigned(w, key, acts)
    requires SignatureValid(w, Some(key), SigningBytes(w, r), r.verdictSignature)
    ensures act in acts && act.Verdict? && SameVerdict(w.nfc, act.row, r)
  {
    var message := SigningBytes(w, r).value;
    act := ActBehind(w, key, acts, message, r.verdictSignature.value);
    RowBehind(w, act, r, message);
  }

  /** A checkpoint task of the runtime signs exactly the claim over the rows it read. */
  lemma RuntimeCheckpoints(rt: LedgerClient.Runtime, rows: seq<Row>, createdAt: Text, cp: Checkpoint)
    requires rows != []
    requires LedgerClient.Checkpointed(rt, Hashes(rows), LedgerClient.HeadHash(rows), createdAt) == Some(cp)
    ensures CheckpointStatement(rt.world, cp).Some?
    ensures cp.signature == rt.signer.sign(CheckpointStatement(rt.world, cp).value)
    ensures Covers(rt.world, Checkpointing(rt.tenantId, rows, createdAt), CheckpointStatement(rt.world, cp).value)
  {
  }

  lemma SealedVerdict(rt: LedgerClient.Runtime, hashed: Row, r: Row)
    requires LedgerClient.Sign(rt, hashed) == Some(r)
    ensures SigningBytes(rt.world, r).Some?
    ensures r.verdictSignature == Some(rt.signer.sign(SigningBytes(rt.world, r).value))
  {
    assert SigningValues(r) == SigningValues(hashed);
  }

  lemma HashedRow(rt: LedgerClient.Runtime, rows: seq<Row>, s: LedgerClient.Submission, now: int, r: Row)
    returns (hashed: Row)
    requires LedgerClient.NewRow(rt, rows, s, now, true) == Some(r)
    ensures LedgerClient.Sign(rt, hashed) == Some(r)
  {
    var digest := EvidenceHash(rt.world, Some(s.envelope)).value;
    var draft := LedgerClient.Draft(rt, rows, s, now, digest, true);
    hashed := draft.(entryHash := rt.world.sha(EvidencePayload5(rt.world, draft).value));
  }

  /** A format-5 append of the runtime signs exactly the verdict it stores. */
  lemma RuntimeVerdicts(rt: LedgerClient.Runtime, rows: seq<Row>, s: LedgerClient.Submission, now: int, r: Row)
    requires LedgerClient.NewRow(rt, rows, s, now, true) == Some(r)
    ensures SigningBytes(rt.world, r).Some?
    ensures r.verdictSignature == Some(rt.signer.sign(SigningBytes(rt.world, r).value))
    ensures Covers(rt.world, Verdict(r), SigningBytes(rt.world, r).value)
  {
    var hashed := HashedRow(rt, rows, s, now, r);
    SealedVerdict(rt, hashed, r);
  }

  // ------------------------------------------------------------- pinned keys

  /** A key id names one key, or two keys collide. */
  lemma KeyIdBinds(w: World, a: Key, b: Key)
    requires KeyId(w, a) == KeyId(w, b)
    ensures a == b || Collides(w.sha, a, b)
  {
    CancelLeft(T(SHA256_TAG), Hex(w.sha(a)), Hex(w.sha(b)));
    HexInjective(w.sha(a), w.sha(b));
  }

  /** The auditor pins the owner's key, and the ring holds keys under their own ids. */
  ghost predicate Pinned(w: World, ring: KeyRing, owner: Key) {
    ring.trusted == Some({KeyId(w, owner)}) && forall id | id in ring.keys :: KeyId(w, ring.keys[id]) == id
  }

  /** Every checkpoint the owner signed covers the first entries of its ledger. */
  ghost predicate SignsPrefixes(acts: iset<Act>, ledger: seq<Row>) {
    forall act | act in acts && act.Checkpointing? :: act.rows <= ledger
  }

  lemma PrefixAudited(w: World, ring: KeyRing, rows: seq<Row>, k: nat)
    requires Audited(w, ring, rows) && k <= |rows|
    ensures Audited(w, ring, rows[..k])
  {
    PrefixHolds(Auditor(w, ring), rows, k);
  }

  lemma CheckpointKeyIsOwners(w: World, ring: KeyRing, owner: Key, cp: Checkpoint, hashes: seq<Bytes>)
    requires Pinned(w, ring, owner) && CheckpointHolds(w.sha, Auditor(w, ring), cp, hashes)
    ensures var key := CheckpointKey(cp, ring);
            && key.Some? && CheckpointSigned(w, cp, key)
            && (key.value == owner || Collides(w.sha, key.value, owner))
  {
    AuditorCheckpoint(w, ring, cp);
    KeyIdBinds(w, CheckpointKey(cp, ring).value, owner);
  }

  /** SHA-256 collides on two named tree nodes over the first hashes of the two ledgers. */
  ghost predicate TreesCollide(w: World, a: seq<Row>, b: seq<Row>)
    requires 0 < |a| <= |b|
  {
    var nodes := RootCollision(w.sha, Hashes(b)[..|a|], Hashes(a));
    Collides(w.sha, nodes.0, nodes.1)
  }

  lemma OwnersCheckpoint(w: World, owner: Key, acts: iset<Act>, a: seq<Row>, cp: Checkpoint)
    requires IsNfc(w.nfc) && OnlySigned(w, owner, acts) && SignsPrefixes(acts, a)
    requires CheckpointSigned(w, cp, Some(owner))
    ensures cp.size <= |a| && cp.root == MerkleRoot(w.sha, Hashes(a[..cp.size]))
  {
    var act := CheckpointWasSigned(w, owner, acts, cp);
    assert act.rows == a[..cp.size];
  }

  lemma OwnersEntries(w: World, ringA: KeyRing, a: seq<Row>, ring: KeyRing, b: seq<Row>, cp: Checkpoint)
    requires IsNfc(w.nfc) && Audited(w, ringA, a) && Audited(w, ring, b)
    requires cp.size <= |a| && cp.root == MerkleRoot(w.sha, Hashes(a[..cp.size]))
    requires CheckpointHolds(w.sha, Auditor(w, ring), cp, Hashes(b))
    ensures cp.size <= |b| && (SameEntries(w, a[..cp.size], b) || TreesCollide(w, a[..cp.size], b))
  {
    PrefixAudited(w, ringA, a, cp.size);
    CheckpointFixesEntries(w, ringA, ring, Auditor(w, ring), a[..cp.size], b, cp);
  }

  /**
   The point of checkpoints: a ledger b passes the audit, with the owner's key
   pinned and a checkpoint among its checkpoints. Then the owner's own ledger a
   is at least that long, and b starts with the same entries, field by field;
   unless two keys, two tree nodes or two payloads collide.
   */
  lemma AcceptedCheckpointFixesEntries(w: World, owner: Key, acts: iset<Act>, ringA: KeyRing, a: seq<Row>,
                                       ring: KeyRing, b: seq<Row>, cp: Checkpoint)
    requires IsNfc(w.nfc) && OnlySigned(w, owner, acts) && SignsPrefixes(acts, a) && Audited(w, ringA, a)
    requires Pinned(w, ring, owner) && Audited(w, ring, b)
    requires CheckpointHolds(w.sha, Auditor(w, ring), cp, Hashes(b))
    ensures CheckpointKey(cp, ring).Some?
    ensures || Collides(w.sha, CheckpointKey(cp, ring).value, owner)
            || (&& cp.size <= |a| && cp.size <= |b|
                && (SameEntries(w, a[..cp.size], b) || TreesCollide(w, a[..cp.size], b)))
  {
    CheckpointKeyIsOwners(w, ring, owner, cp, Hashes(b));
    if CheckpointKey(cp, ring).value == owner {
      OwnersCheckpoint(w, owner, acts, a, cp);
      OwnersEntries(w, ringA, a, ring, b, cp);
    }
  }

  /** Every verdict the owner signed is a row its own audit accepts. */
  ghost predicate SignsEntries(w: World, acts: iset<Act>) {
    forall act | act in acts && act.Verdict? :: EntryFormat(w, act.row) != 0 && Encodable(w, act.row)
  }

  lemma VerdictKeyIsOwners(w: World, ring: KeyRing, owner: Key, r: Row)
    requires Pinned(w, ring, owner) && EntryFormat(w, r) == 5 && Evidenced(Auditor(w, ring), r)
    ensures var key := ring.Get(KeyName(r.verdictKeyId));
            && key.Some? && SignatureValid(w, key, SigningBytes(w, r), r.verdictSignature)
            && (key.value == owner || Collides(w.sha, key.value, owner))
  {
    AuditorFormat(w, ring, r);
    AuditorRow(w, ring, r);
    KeyIdBinds(w, ring.Get(KeyName(r.verdictKeyId)).value, owner);
  }

  /** The owner signed this row: the same entry up to a collision of two payloads. */
  ghost predicate Vouches(w: World, act: Act, r: Row) {
    act.Verdict? && SameVerdict(w.nfc, act.row, r) && (SameEntry(w, act.row, r) || PayloadsCollide(w, act.row, r))
  }

  lemma OwnersVerdict(w: World, owner: Key, acts: iset<Act>, r: Row) returns (act: Act)
    requires IsNfc(w.nfc) && OnlySigned(w, owner, acts) && SignsEntries(w, acts)
    requires EntryFormat(w, r) != 0 && Encodable(w, r)
    requires SignatureValid(w, Some(owner), SigningBytes(w, r), r.verdictSignature)
    ensures act in acts && Vouches(w, act, r)
  {
    act := VerdictWasSigned(w, owner, acts, r);
    HashFixesEntry(w, act.row, r);
  }

  lemma SignedRowIsOwners(w: World, owner: Key, acts: iset<Act>, ring: KeyRing, r: Row)
    requires IsNfc(w.nfc) && OnlySigned(w, owner, acts) && SignsEntries(w, acts)
    requires Pinned(w, ring, owner) && EntryFormat(w, r) == 5 && Encodable(w, r) && Evidenced(Auditor(w, ring), r)
    ensures var key := ring.Get(KeyName(r.verdictKeyId));
            && key.Some?
            && (Collides(w.sha, key.value, owner) || exists act :: act in acts && Vouches(w, act, r))
  {
    VerdictKeyIsOwners(w, ring, owner, r);
    if ring.Get(KeyName(r.verdictKeyId)).value == owner {
      var act := OwnersVerdict(w, owner, acts, r);
    }
  }

  lemma AuditedEvidence(w: World, ring: KeyRing, rows: seq<Row>, i: nat)
    requires Audited(w, ring, rows) && i < |rows|
    ensures Evidenced(Auditor(w, ring), rows[i]) && Encodable(w, rows[i])
  {
    assert RowHolds(Auditor(w, ring), rows, i);
  }

  /**
   The point of verdict signatures: a format-5 row that passes the audit, with the
   owner's key pinned, is a row the owner signed, with every chained column the
   same; unless two keys or two payloads collide.
   */
  lemma AcceptedVerdictIsSigned(w: World, owner: Key, acts: iset<Act>, ring: KeyRing, rows: seq<Row>, i: nat)
    requires IsNfc(w.nfc) && OnlySigned(w, owner, acts) && SignsEntries(w, acts)
    requires Pinned(w, ring, owner) && Audited(w, ring, rows) && i < |rows| && EntryFormat(w, rows[i]) == 5
    ensures ring.Get(KeyName(rows[i].verdictKeyId)).Some?
    ensures || Collides(w.sha, ring.Get(KeyName(rows[i].verdictKeyId)).value, owner)
            || exists act :: act in acts && Vouches(w, act, rows[i])
  {
    AuditedEvidence(w, ring, rows, i);
    SignedRowIsOwners(w, owner, acts, ring, rows[i]);
  }
}
