/** What a clean audit proves: a verified ledger is fixed by its last hash, or by a checkpoint. */
module TamperEvidence {
  import opened Common
  import opened Canonicalizers
  import opened LedgerFormat
  import opened LedgerBinding
  import opened Merkle
  import opened Audit

  /** Two rows of one format that agree on everything that format chains. */
  ghost predicate SameEntry(w: World, a: Row, b: Row) {
    && a.entryHash == b.entryHash
    && EntryFormat(w, a) == EntryFormat(w, b)
    && AgreeChained(EntryFormat(w, a), w, a, b)
  }

  /** Two verified rows whose different payloads have one digest. */
  ghost predicate PayloadsCollide(w: World, a: Row, b: Row) {
    EntryFormat(w, a) != 0 && EntryFormat(w, b) != 0 && Collides(w.sha, Payload(w, a), Payload(w, b))
  }

  /** The first |a| entries of b are those of a, or two payloads at one position collide. */
  ghost predicate SameEntries(w: World, a: seq<Row>, b: seq<Row>)
    requires |a| <= |b|
  {
    || (forall i | 0 <= i < |a| :: SameEntry(w, a[i], b[i]))
    || (exists i :: 0 <= i < |a| && PayloadsCollide(w, a[i], b[i]))
  }

  lemma HashFixesEntry(w: World, a: Row, b: Row)
    requires IsNfc(w.nfc) && Encodable(w, a) && Encodable(w, b)
    requires EntryFormat(w, a) != 0 && EntryFormat(w, b) != 0
    ensures a.entryHash == b.entryHash ==>
              PayloadsCollide(w, a, b) || (SameEntry(w, a, b) && a.previous == b.previous)
  {
    if a.entryHash == b.entryHash {
      HashBinds(w, a, b);
    }
  }

  /** Equal hashes propagate down a hash chain. */
  lemma {:induction false} ChainBack(same: (Row, Row) -> bool, collide: (Row, Row) -> bool, a: seq<Row>, b: seq<Row>,
                                     n: nat)
    requires n <= |a| == |b|
    requires n > 0 ==> a[n - 1].entryHash == b[n - 1].entryHash
    requires forall i | 0 <= i < n :: Linked(a, i) && Linked(b, i)
    requires forall i | 0 <= i < n && a[i].entryHash == b[i].entryHash ::
               collide(a[i], b[i]) || (same(a[i], b[i]) && a[i].previous == b[i].previous)
    ensures (forall i | 0 <= i < n :: same(a[i], b[i])) || (exists i :: 0 <= i < n && collide(a[i], b[i]))
  {
    if n > 0 && !collide(a[n - 1], b[n - 1]) {
      assert Linked(a, n - 1) && Linked(b, n - 1);
      ChainBack(same, collide, a, b, n - 1);
    }
  }

  /** The rows the audit saw, with text a database can hold. */
  ghost predicate Audited(w: World, ring: KeyRing, rows: seq<Row>) {
    RowsHold(Auditor(w, ring), rows) && forall i | 0 <= i < |rows| :: Encodable(w, rows[i])
  }

  lemma AuditedRow(w: World, ring: KeyRing, rows: seq<Row>, i: nat)
    requires Audited(w, ring, rows) && i < |rows|
    ensures Linked(rows, i) && EntryFormat(w, rows[i]) != 0 && Encodable(w, rows[i])
  {
    assert RowHolds(Auditor(w, ring), rows, i);
    AuditorFormat(w, ring, rows[i]);
  }

  lemma HashesFixEntry(w: World, ringA: KeyRing, ringB: KeyRing, a: seq<Row>, b: seq<Row>, i: nat)
    requires IsNfc(w.nfc) && Audited(w, ringA, a) && Audited(w, ringB, b) && i < |a| && i < |b|
    ensures Linked(a, i) && Linked(b, i)
    ensures a[i].entryHash == b[i].entryHash ==>
              PayloadsCollide(w, a[i], b[i]) || (SameEntry(w, a[i], b[i]) && a[i].previous == b[i].previous)
  {
    AuditedRow(w, ringA, a, i);
    AuditedRow(w, ringB, b, i);
    HashFixesEntry(w, a[i], b[i]);
  }

  /** Row by row: where two audited ledgers store one hash they store one entry. */
  lemma HashesFixEntries(w: World, ringA: KeyRing, ringB: KeyRing, a: seq<Row>, b: seq<Row>,
                         same: (Row, Row) -> bool, collide: (Row, Row) -> bool, n: nat)
    requires IsNfc(w.nfc) && Audited(w, ringA, a) && Audited(w, ringB, b)
    requires n <= |a| && n <= |b|
    requires forall x, y :: SameEntry(w, x, y) ==> same(x, y)
    requires forall x, y :: PayloadsCollide(w, x, y) ==> collide(x, y)
    ensures forall i | 0 <= i < n :: Linked(a, i) && Linked(b, i)
    ensures forall i | 0 <= i < n && a[i].entryHash == b[i].entryHash ::
              collide(a[i], b[i]) || (same(a[i], b[i]) && a[i].previous == b[i].previous)
  {
    forall i | 0 <= i < n
      ensures Linked(a, i) && Linked(b, i)
      ensures a[i].entryHash == b[i].entryHash ==>
                collide(a[i], b[i]) || (same(a[i], b[i]) && a[i].previous == b[i].previous)
    {
      HashesFixEntry(w, ringA, ringB, a, b, i);
    }
  }

  /**
   Tamper evidence: two audited ledgers of one length that end in one hash hold
   the same entries, field by field, or two of their payloads collide.
   */
  lemma LastHashFixesLedger(w: World, ringA: KeyRing, ringB: KeyRing, a: seq<Row>, b: seq<Row>)
    requires IsNfc(w.nfc) && Audited(w, ringA, a) && Audited(w, ringB, b)
    requires |a| == |b| > 0 && a[|a| - 1].entryHash == b[|b| - 1].entryHash
    ensures SameEntries(w, a, b)
  {
    ghost var same := (x: Row, y: Row) => SameEntry(w, x, y);
    ghost var collide := (x: Row, y: Row) => PayloadsCollide(w, x, y);
    HashesFixEntries(w, ringA, ringB, a, b, same, collide, |a|);
    ChainBack(same, collide, a, b, |a|);
  }

  /** A checkpoint of a list fixes the first size hashes of every ledger it verifies against. */
  lemma CheckpointFixesHashes(sha: Sha, checks: Checks, cp: Checkpoint, signed: seq<Bytes>, hashes: seq<Bytes>)
    requires |signed| == cp.size && cp.root == MerkleRoot(sha, signed)
    requires CheckpointHolds(sha, checks, cp, hashes)
    ensures hashes[..cp.size] == signed ||
            Collides(sha, RootCollision(sha, hashes[..cp.size], signed).0,
                     RootCollision(sha, hashes[..cp.size], signed).1)
  {
    if hashes[..cp.size] != signed {
      RootBinds(sha, hashes[..cp.size], signed);
    }
  }

  lemma CoveredEntries(w: World, ringA: KeyRing, ringB: KeyRing, a: seq<Row>, b: seq<Row>)
    requires IsNfc(w.nfc) && Audited(w, ringA, a) && Audited(w, ringB, b)
    requires |a| <= |b| && Hashes(b)[..|a|] == Hashes(a)
    ensures SameEntries(w, a, b)
  {
    ghost var same := (x: Row, y: Row) => SameEntry(w, x, y);
    ghost var collide := (x: Row, y: Row) => PayloadsCollide(w, x, y);
    HashesFixEntries(w, ringA, ringB, a, b, same, collide, |a|);
    EqualHashes(same, collide, a, b);
  }

  lemma EqualHashes(same: (Row, Row) -> bool, collide: (Row, Row) -> bool, a: seq<Row>, b: seq<Row>)
    requires |a| <= |b| && Hashes(b)[..|a|] == Hashes(a)
    requires forall i | 0 <= i < |a| && a[i].entryHash == b[i].entryHash ::
               collide(a[i], b[i]) || (same(a[i], b[i]) && a[i].previous == b[i].previous)
    ensures (forall i | 0 <= i < |a| :: same(a[i], b[i])) || (exists i :: 0 <= i < |a| && collide(a[i], b[i]))
  {
    forall i | 0 <= i < |a| ensures a[i].entryHash == b[i].entryHash {
      assert Hashes(a)[i] == Hashes(b)[..|a|][i];
    }
  }

  /**
   A forward rewrite is caught: if a checkpoint signed over ledger a verifies
   against an audited ledger b, the first size entries of b are those of a,
   unless SHA-256 collides on two named tree nodes or on two payloads.
   */
  lemma CheckpointFixesEntries(w: World, ringA: KeyRing, ringB: KeyRing, checks: Checks, a: seq<Row>, b: seq<Row>,
                               cp: Checkpoint)
    requires IsNfc(w.nfc) && Audited(w, ringA, a) && Audited(w, ringB, b)
    requires |a| == cp.size && cp.root == MerkleRoot(w.sha, Hashes(a))
    requires CheckpointHolds(w.sha, checks, cp, Hashes(b))
    ensures |b| >= |a|
    ensures || SameEntries(w, a, b)
            || Collides(w.sha, RootCollision(w.sha, Hashes(b)[..|a|], Hashes(a)).0,
                               RootCollision(w.sha, Hashes(b)[..|a|], Hashes(a)).1)
  {
    CheckpointFixesHashes(w.sha, checks, cp, Hashes(a), Hashes(b));
    if Hashes(b)[..cp.size] == Hashes(a) {
      CoveredEntries(w, ringA, ringB, a, b);
    }
  }

  // -------------------------------------------------------------- truncation

  lemma PrefixHolds(checks: Checks, rows: seq<Row>, k: nat)
    requires RowsHold(checks, rows) && k <= |rows|
    ensures RowsHold(checks, rows[..k])
  {
    forall i | 0 <= i < k ensures RowHolds(checks, rows[..k], i) {
      assert RowHolds(checks, rows, i);
    }
  }

  lemma PrefixHashes(rows: seq<Row>, k: nat)
    requires k <= |rows|
    ensures Hashes(rows[..k]) == Hashes(rows)[..k]
  {
  }

  lemma CheckpointOnPrefix(sha: Sha, checks: Checks, cp: Checkpoint, hashes: seq<Bytes>, k: nat)
    requires k <= |hashes| && CheckpointHolds(sha, checks, cp, hashes)
    ensures CheckpointHolds(sha, checks, cp, hashes[..k]) <==> cp.size <= k
  {
    if cp.size <= k {
      assert hashes[..k][..cp.size] == hashes[..cp.size];
    }
  }

  /**
   Cutting entries off the end of an audited ledger goes unnoticed exactly if no
   checkpoint reaches past the cut, or if nothing at all is left: the audit
   reports an empty ledger valid before it looks at any checkpoint.
   */
  lemma TruncationUnnoticedExactlyWhen(sha: Sha, checks: Checks, rows: seq<Row>, ring: KeyRing, cps: seq<Checkpoint>,
                                       k: nat)
    requires LedgerHolds(sha, checks, rows, ring, cps) && k <= |rows|
    ensures rows[..k] == [] || LedgerHolds(sha, checks, rows[..k], ring, cps) <==>
            k == 0 || forall i | 0 <= i < |cps| :: cps[i].size <= k
  {
    PrefixHolds(checks, rows, k);
    PrefixHashes(rows, k);
    forall i | 0 <= i < |cps|
      ensures CheckpointHolds(sha, checks, cps[i], Hashes(rows)[..k]) <==> cps[i].size <= k
    {
      CheckpointOnPrefix(sha, checks, cps[i], Hashes(rows), k);
    }
  }
}
