/** The ledger client as an object over its two tables, and the evidence it hands out for one entry. */
module LedgerEvidence {
  import opened Common
  import opened Unicode
  import opened LedgerFormat
  import opened Merkle
  import opened Audit
  import opened LedgerClient

  datatype Evidence = Evidence(row: Row, checkpointHashes: Option<seq<Bytes>>)

  /** SELECT ... WHERE sequence_number = seq. */
  function RowAt(rows: seq<Row>, seq_: nat): Option<Row> {
    if rows == [] then None
    else if rows[0].sequence == seq_ then Some(rows[0])
    else RowAt(rows[1..], seq_)
  }

  /** SELECT MIN(tree_size) ... WHERE tree_size >= seq. */
  function MinCovering(cps: seq<Checkpoint>, seq_: nat): Option<nat> {
    if cps == [] then None
    else
      var size := cps[|cps| - 1].size;
      var best := MinCovering(cps[..|cps| - 1], seq_);
      if size >= seq_ && (best.None? || size < best.value) then Some(size) else best
  }

  /** SELECT entry_hash ... WHERE sequence_number <= n ORDER BY sequence_number. */
  function HashesUpTo(rows: seq<Row>, n: nat): seq<Bytes> {
    if rows == [] then []
    else
      var init := HashesUpTo(rows[..|rows| - 1], n);
      if rows[|rows| - 1].sequence <= n then init + [rows[|rows| - 1].entryHash] else init
  }

  function EvidenceFor(l: Ledger, seq_: nat): Option<Evidence> {
    var row := RowAt(l.rows, seq_);
    if row.None? then None
    else
      var size := MinCovering(l.checkpoints, seq_);
      Some(Evidence(row.value, if size.None? then None else Some(HashesUpTo(l.rows, size.value))))
  }

  lemma {:induction false} RowAtSequence(rows: seq<Row>, first: nat, seq_: nat)
    requires forall i | 0 <= i < |rows| :: rows[i].sequence == first + i
    ensures RowAt(rows, seq_) == if first <= seq_ < first + |rows| then Some(rows[seq_ - first]) else None
  {
    if rows != [] && rows[0].sequence != seq_ {
      RowAtSequence(rows[1..], first + 1, seq_);
    }
  }

  lemma {:induction false} MinCoveringIsMin(cps: seq<Checkpoint>, seq_: nat)
    ensures MinCovering(cps, seq_).None? <==> forall i | 0 <= i < |cps| :: cps[i].size < seq_
    ensures var m := MinCovering(cps, seq_); m.Some? ==>
              && (forall i | 0 <= i < |cps| && cps[i].size >= seq_ :: m.value <= cps[i].size)
              && (exists i :: 0 <= i < |cps| && cps[i].size == m.value >= seq_)
  {
    if cps != [] {
      var init := cps[..|cps| - 1];
      MinCoveringIsMin(init, seq_);
      var best := MinCovering(init, seq_);
      assert forall i | 0 <= i < |init| :: init[i] == cps[i];
      if best.Some? && MinCovering(cps, seq_) == best {
        var i :| 0 <= i < |init| && init[i].size == best.value >= seq_;
        assert cps[i].size == best.value;
      } else {
        assert cps[|cps| - 1].size >= seq_ ==> MinCovering(cps, seq_) == Some(cps[|cps| - 1].size as nat);
      }
    }
  }

  lemma TakeAppend(hs: seq<Bytes>, h: Bytes, n: nat)
    requires n <= |hs|
    ensures (hs + [h])[..n] == hs[..n]
  {
  }

  lemma LastHash(rows: seq<Row>)
    requires rows != []
    ensures Hashes(rows) == Hashes(rows[..|rows| - 1]) + [rows[|rows| - 1].entryHash]
  {
    var init, last := rows[..|rows| - 1], rows[|rows| - 1];
    HashesAppend(init, last);
    assert init + [last] == rows;
  }

  lemma {:induction false} HashesUpToAll(rows: seq<Row>, n: nat)
    requires Numbered(rows) && |rows| <= n
    ensures HashesUpTo(rows, n) == Hashes(rows)
  {
    if rows != [] {
      HashesUpToAll(rows[..|rows| - 1], n);
      LastHash(rows);
    }
  }

  lemma {:induction false} HashesUpToPrefix(rows: seq<Row>, n: nat)
    requires Numbered(rows) && n <= |rows|
    ensures HashesUpTo(rows, n) == Hashes(rows)[..n]
  {
    if n == |rows| {
      HashesUpToAll(rows, n);
    } else {
      var init := rows[..|rows| - 1];
      HashesUpToPrefix(init, n);
      LastHash(rows);
      TakeAppend(Hashes(init), rows[|rows| - 1].entryHash, n);
    }
  }

  ghost predicate Numbered(rows: seq<Row>) {
    forall i | 0 <= i < |rows| :: rows[i].sequence == i + 1
  }

  lemma RowsNumbered(checks: Checks, rows: seq<Row>)
    requires RowsHold(checks, rows)
    ensures Numbered(rows)
  {
    forall i | 0 <= i < |rows| ensures rows[i].sequence == i + 1 {
      assert RowHolds(checks, rows, i);
    }
  }

  lemma CoveringCheckpoint(sha: Sha, checks: Checks, cps: seq<Checkpoint>, all: seq<Bytes>, seq_: nat, size: nat)
    requires CheckpointsHold(sha, checks, cps, all) && MinCovering(cps, seq_) == Some(size)
    ensures seq_ <= size <= |all|
    ensures exists i :: 0 <= i < |cps| && Covers(sha, checks, cps[i], all[..size])
    ensures forall i | 0 <= i < |cps| && cps[i].size >= seq_ :: size <= cps[i].size
  {
    MinCoveringIsMin(cps, seq_);
    var i :| 0 <= i < |cps| && cps[i].size == size >= seq_;
    assert CheckpointHolds(sha, checks, cps[i], all);
    assert Covers(sha, checks, cps[i], all[..size]);
  }

  lemma PrefixInclusion(sha: Sha, all: seq<Bytes>, k: nat, size: nat)
    requires k < size <= |all|
    ensures VerifyInclusion(sha, all[k], k, size, AuditPath(sha, all[..size], k), MerkleRoot(sha, all[..size]))
  {
    AuditPathVerifies(sha, all[..size], k);
    assert all[..size][k] == all[k];
  }

  lemma ReceiptFromMin(sha: Sha, checks: Checks, l: Ledger, seq_: nat, size: nat)
    requires CheckpointsHold(sha, checks, l.checkpoints, Hashes(l.rows)) && Numbered(l.rows)
    requires 1 <= seq_ <= |l.rows| && MinCovering(l.checkpoints, seq_) == Some(size)
    ensures Receipt(sha, checks, l, seq_, l.rows[seq_ - 1], HashesUpTo(l.rows, size))
  {
    var all := Hashes(l.rows);
    CoveringCheckpoint(sha, checks, l.checkpoints, all, seq_, size);
    HashesUpToPrefix(l.rows, size);
    PrefixInclusion(sha, all, seq_ - 1, size);
  }

  /**
   The evidence for an entry is its row and the exact prefix of hashes whose
   Merkle root some stored checkpoint signs, with the entry inside it: the
   smallest such checkpoint, and its audit path leads to the signed root.
   */
  lemma EvidenceIsSigned(sha: Sha, checks: Checks, l: Ledger, seq_: nat)
    requires Sound(sha, checks, l) && 1 <= seq_ <= |l.rows|
    ensures EvidenceFor(l, seq_).Some? && EvidenceFor(l, seq_).value.row == l.rows[seq_ - 1]
    ensures EvidenceFor(l, seq_).value.checkpointHashes.None? <==>
            forall i | 0 <= i < |l.checkpoints| :: l.checkpoints[i].size < seq_
    ensures var e := EvidenceFor(l, seq_).value; e.checkpointHashes.Some? ==>
              Receipt(sha, checks, l, seq_, e.row, e.checkpointHashes.value)
  {
    RowsNumbered(checks, l.rows);
    RowAtSequence(l.rows, 1, seq_);
    MinCoveringIsMin(l.checkpoints, seq_);
    var size := MinCovering(l.checkpoints, seq_);
    if size.Some? {
      ReceiptFromMin(sha, checks, l, seq_, size.value);
    }
  }

  ghost predicate Covers(sha: Sha, checks: Checks, cp: Checkpoint, hashes: seq<Bytes>) {
    cp.size == |hashes| && cp.root == MerkleRoot(sha, hashes) && checks.checkpointSigned(cp)
  }

  /** What a receipt needs: a signed prefix of the ledger, the smallest that holds the entry, and its audit path. */
  ghost predicate Receipt(sha: Sha, checks: Checks, l: Ledger, seq_: nat, row: Row, hashes: seq<Bytes>) {
    && 1 <= seq_ <= |hashes| <= |l.rows|
    && hashes == Hashes(l.rows)[..|hashes|]
    && (exists i :: 0 <= i < |l.checkpoints| && Covers(sha, checks, l.checkpoints[i], hashes))
    && (forall i | 0 <= i < |l.checkpoints| && l.checkpoints[i].size >= seq_ :: |hashes| <= l.checkpoints[i].size)
    && VerifyInclusion(sha, row.entryHash, seq_ - 1, |hashes|, AuditPath(sha, hashes, seq_ - 1),
                       MerkleRoot(sha, hashes))
  }

  // ------------------------------------------------- which checkpoint it is

  ghost predicate CoveredBy(cps: seq<Checkpoint>, seq_: nat, i: int) {
    0 <= i < |cps| && cps[i].size >= seq_
  }

  /** The docstring promises the latest covering checkpoint: it is that exactly while only one covers the entry. */
  lemma LatestExactlyWhen(sha: Sha, checks: Checks, l: Ledger, seq_: nat)
    requires Sound(sha, checks, l) && 1 <= seq_ <= |l.rows|
    requires EvidenceFor(l, seq_).Some? && EvidenceFor(l, seq_).value.checkpointHashes.Some?
    ensures MaxSize(l.checkpoints) <= |l.rows|
    ensures EvidenceFor(l, seq_).value.checkpointHashes.value == Hashes(l.rows)[..MaxSize(l.checkpoints)] <==>
            forall i, j | CoveredBy(l.checkpoints, seq_, i) && CoveredBy(l.checkpoints, seq_, j) :: i == j
  {
    var cps := l.checkpoints;
    EvidenceIsSigned(sha, checks, l, seq_);
    MaxSizeCovered(sha, checks, cps, Hashes(l.rows));
    MaxSizeBounds(cps);
    MinCoveringIsMin(cps, seq_);
    var size := MinCovering(cps, seq_).value;
    RowsNumbered(checks, l.rows);
    CoveringCheckpoint(sha, checks, cps, Hashes(l.rows), seq_, size);
    HashesUpToPrefix(l.rows, size);
    SmallestIsLargest(cps, seq_, size);
  }

  lemma SmallestIsLargest(cps: seq<Checkpoint>, seq_: nat, size: nat)
    requires SizesIncrease(cps) && MinCovering(cps, seq_) == Some(size)
    ensures size == MaxSize(cps) <==> forall i, j | CoveredBy(cps, seq_, i) && CoveredBy(cps, seq_, j) :: i == j
  {
    MaxSizeBounds(cps);
    MinCoveringIsMin(cps, seq_);
    var low :| 0 <= low < |cps| && cps[low].size == size >= seq_;
    var high :| 0 <= high < |cps| && cps[high].size == MaxSize(cps);
    assert CoveredBy(cps, seq_, low) && CoveredBy(cps, seq_, high);
  }

  lemma SameMin(cps: seq<Checkpoint>, more: seq<Checkpoint>, seq_: nat)
    requires cps <= more && SizesIncrease(more) && MinCovering(cps, seq_).Some?
    ensures MinCovering(more, seq_) == MinCovering(cps, seq_)
  {
    MinCoveringIsMin(cps, seq_);
    MinCoveringIsMin(more, seq_);
    var i :| 0 <= i < |cps| && cps[i].size == MinCovering(cps, seq_).value >= seq_;
    assert more[i] == cps[i];
    var j :| 0 <= j < |more| && more[j].size == MinCovering(more, seq_).value >= seq_;
    if j < |cps| {
      assert cps[j] == more[j];
    }
  }

  lemma PrefixOfHashes(rows: seq<Row>, more: seq<Row>, n: nat)
    requires rows <= more && n <= |rows|
    ensures Hashes(more)[..n] == Hashes(rows)[..n]
  {
  }

  lemma SameHashes(rows: seq<Row>, more: seq<Row>, n: nat)
    requires rows <= more && Numbered(rows) && Numbered(more) && n <= |rows|
    ensures HashesUpTo(more, n) == HashesUpTo(rows, n)
  {
    HashesUpToPrefix(rows, n);
    HashesUpToPrefix(more, n);
    PrefixOfHashes(rows, more, n);
  }

  lemma SameRow(rows: seq<Row>, more: seq<Row>, seq_: nat)
    requires rows <= more && Numbered(rows) && Numbered(more) && 1 <= seq_ <= |rows|
    ensures RowAt(more, seq_) == RowAt(rows, seq_)
  {
    RowAtSequence(rows, 1, seq_);
    RowAtSequence(more, 1, seq_);
  }

  /** What a sound ledger grows into gives the same evidence. */
  lemma SameEvidence(sha: Sha, checks: Checks, l: Ledger, later: Ledger, seq_: nat)
    requires Sound(sha, checks, l) && Sound(sha, checks, later)
    requires l.rows <= later.rows && l.checkpoints <= later.checkpoints
    requires 1 <= seq_ <= |l.rows| && MinCovering(l.checkpoints, seq_).Some?
    ensures EvidenceFor(later, seq_) == EvidenceFor(l, seq_)
  {
    RowsNumbered(checks, l.rows);
    RowsNumbered(checks, later.rows);
    SameRow(l.rows, later.rows, seq_);
    SameMin(l.checkpoints, later.checkpoints, seq_);
    var size := MinCovering(l.checkpoints, seq_).value;
    CoveringCheckpoint(sha, checks, l.checkpoints, Hashes(l.rows), seq_, size);
    SameHashes(l.rows, later.rows, size);
  }

  /** Once a checkpoint covers an entry, no later step changes the evidence for it. */
  lemma EvidenceIsFinal(sha: Sha, checks: Checks, writer: Writer, l: Ledger, steps: seq<Step>, seq_: nat)
    requires Fits(sha, checks, writer) && Sound(sha, checks, l)
    requires MonotoneClock(steps) && forall i | 0 <= i < |steps| :: NotBefore(l.rows, steps[i])
    requires 1 <= seq_ <= |l.rows| && MinCovering(l.checkpoints, seq_).Some?
    ensures EvidenceFor(Run(writer, l, steps), seq_) == EvidenceFor(l, seq_)
  {
    RunKeepsSound(sha, checks, writer, l, steps);
    SameEvidence(sha, checks, l, Run(writer, l, steps), seq_);
  }

  lemma RunStep(writer: Writer, l: Ledger, steps: seq<Step>, k: nat)
    requires k < |steps|
    ensures Run(writer, l, steps[k..]) == Run(writer, Apply(writer, l, steps[k]), steps[k + 1..])
  {
    assert steps[k..][1..] == steps[k + 1..];
  }

  lemma ThreeSteps(writer: Writer, l: Ledger, steps: seq<Step>)
    requires |steps| == 3
    ensures Run(writer, l, steps) == Apply(writer, Apply(writer, Apply(writer, l, steps[0]), steps[1]), steps[2])
  {
    var once := Apply(writer, l, steps[0]);
    RunStep(writer, l, steps, 0);
    RunStep(writer, once, steps, 1);
    RunStep(writer, Apply(writer, once, steps[1]), steps, 2);
    assert steps[0..] == steps && steps[3..] == [];
  }

  /** Append, checkpoint read and checkpoint write, one after the other. */
  function Round(s: Submission, now: int, created: Text): seq<Step> {
    [Append(s, now), Read(created), Write]
  }

  lemma RoundAdds(sha: Sha, checks: Checks, writer: Writer, l: Ledger, s: Submission, now: int, created: Text, r: Row,
                  cp: Checkpoint)
    requires Fits(sha, checks, writer) && Sound(sha, checks, l) && l.format5 && l.pending.None?
    requires l.rows != [] ==> l.rows[|l.rows| - 1].timestamp <= now
    requires writer.newRow(l.rows, s, now, true) == Some(r) && writer.checkpoint(l.rows + [r], created) == Some(cp)
    ensures cp.size == |l.rows| + 1
    ensures Run(writer, l, Round(s, now, created)) == l.(rows := l.rows + [r], checkpoints := l.checkpoints + [cp])
    ensures Sound(sha, checks, Run(writer, l, Round(s, now, created)))
  {
    var steps := Round(s, now, created);
    var appended := Apply(writer, l, steps[0]);
    StepKeepsSound(sha, checks, writer, l, steps[0]);
    MaxSizeCovered(sha, checks, l.checkpoints, Hashes(l.rows));
    var read := Apply(writer, appended, steps[1]);
    StepKeepsSound(sha, checks, writer, appended, steps[1]);
    assert read == appended.(pending := Some(cp));
    StepKeepsSound(sha, checks, writer, read, steps[2]);
    InsertKeepsSound(sha, checks, read);
    ThreeSteps(writer, l, steps);
  }

  lemma {:induction false} RunConcat(writer: Writer, l: Ledger, first: seq<Step>, second: seq<Step>)
    ensures Run(writer, l, first + second) == Run(writer, Run(writer, l, first), second)
    decreases |first|
  {
    if first == [] {
      assert first + second == second;
    } else {
      assert (first + second)[1..] == first[1..] + second;
      RunConcat(writer, Apply(writer, l, first[0]), first[1..], second);
    }
  }

  /** Two entries with a checkpoint after each, where nothing raises. */
  ghost predicate TwoWritten(writer: Writer, s: Submission, t: Submission, now: int, later: int, created: Text,
                             l: Ledger) {
    && |l.rows| == |l.checkpoints| == 2 && l.pending.None? && l.format5 && now <= later
    && writer.newRow([], s, now, true) == Some(l.rows[0])
    && writer.checkpoint([l.rows[0]], created) == Some(l.checkpoints[0])
    && writer.newRow([l.rows[0]], t, later, true) == Some(l.rows[1])
    && writer.checkpoint(l.rows, created) == Some(l.checkpoints[1])
  }

  /** The ledger after the first round. */
  function AfterFirst(l: Ledger): Ledger
    requires l.rows != [] && l.checkpoints != []
  {
    Ledger([l.rows[0]], [l.checkpoints[0]], None, true)
  }

  lemma FirstRound(sha: Sha, checks: Checks, writer: Writer, s: Submission, t: Submission, now: int, later: int,
                   created: Text, l: Ledger)
    requires Fits(sha, checks, writer) && TwoWritten(writer, s, t, now, later, created, l)
    ensures Run(writer, EMPTY, [Migrate] + Round(s, now, created)) == AfterFirst(l)
    ensures Sound(sha, checks, AfterFirst(l)) && l.checkpoints[0].size == 1
    ensures l.rows[0].timestamp == now
  {
    var migrated := EMPTY.(format5 := true);
    RunStep(writer, EMPTY, [Migrate], 0);
    assert [Migrate][0..] == [Migrate] && [Migrate][1..] == [];
    assert [] + [l.rows[0]] == [l.rows[0]] && [] + [l.checkpoints[0]] == [l.checkpoints[0]];
    RoundAdds(sha, checks, writer, migrated, s, now, created, l.rows[0], l.checkpoints[0]);
    RunConcat(writer, EMPTY, [Migrate], Round(s, now, created));
  }

  lemma SecondRound(sha: Sha, checks: Checks, writer: Writer, s: Submission, t: Submission, now: int, later: int,
                    created: Text, l: Ledger)
    requires Fits(sha, checks, writer) && TwoWritten(writer, s, t, now, later, created, l)
    requires Sound(sha, checks, AfterFirst(l)) && l.rows[0].timestamp == now
    ensures Run(writer, AfterFirst(l), Round(t, later, created)) == l
    ensures Sound(sha, checks, l) && l.checkpoints[1].size == 2
  {
    assert [l.rows[0]] + [l.rows[1]] == l.rows && [l.checkpoints[0]] + [l.checkpoints[1]] == l.checkpoints;
    RoundAdds(sha, checks, writer, AfterFirst(l), t, later, created, l.rows[1], l.checkpoints[1]);
  }

  lemma TwoRounds(sha: Sha, checks: Checks, writer: Writer, s: Submission, t: Submission, now: int, later: int,
                  created: Text, l: Ledger)
    requires Fits(sha, checks, writer) && TwoWritten(writer, s, t, now, later, created, l)
    ensures l == Run(writer, EMPTY, [Migrate] + Round(s, now, created) + Round(t, later, created))
    ensures Sound(sha, checks, l) && l.checkpoints[0].size == 1 && l.checkpoints[1].size == 2
  {
    FirstRound(sha, checks, writer, s, t, now, later, created, l);
    SecondRound(sha, checks, writer, s, t, now, later, created, l);
    RunConcat(writer, EMPTY, [Migrate] + Round(s, now, created), Round(t, later, created));
  }

  lemma FirstOfTwo(cps: seq<Checkpoint>)
    requires |cps| == 2 && cps[0].size == 1 && cps[1].size == 2
    ensures MinCovering(cps, 1) == Some(1) && MaxSize(cps) == 2
  {
    MinCoveringIsMin(cps, 1);
    assert MinCovering(cps, 1).Some?;
    MaxSizeBounds(cps);
  }

  /** A reachable, sound ledger whose evidence for the first entry names the first checkpoint, not the latest. */
  lemma TwoCheckpoints(sha: Sha, checks: Checks, writer: Writer, s: Submission, t: Submission, now: int, later: int,
                       created: Text, l: Ledger)
    requires Fits(sha, checks, writer) && TwoWritten(writer, s, t, now, later, created, l)
    ensures l == Run(writer, EMPTY, [Migrate] + Round(s, now, created) + Round(t, later, created))
    ensures Sound(sha, checks, l) && MaxSize(l.checkpoints) == 2
    ensures EvidenceFor(l, 1) == Some(Evidence(l.rows[0], Some(Hashes(l.rows)[..1])))
  {
    TwoRounds(sha, checks, writer, s, t, now, later, created, l);
    FirstOfTwo(l.checkpoints);
    RowsNumbered(checks, l.rows);
    RowAtSequence(l.rows, 1, 1);
    HashesUpToPrefix(l.rows, 1);
  }

  // ------------------------------------------------------------- the client

  class Tables {
    const writer: Writer
    var rows: seq<Row>
    var checkpoints: seq<Checkpoint>
    var pending: Option<Checkpoint>
    var format5: bool

    constructor (writer: Writer)
      ensures this.writer == writer && State() == EMPTY
    {
      this.writer := writer;
      rows, checkpoints, pending, format5 := [], [], None, false;
    }

    function State(): Ledger
      reads this
    {
      Ledger(rows, checkpoints, pending, format5)
    }

    method AppendV3(s: Submission, now: int) returns (ok: bool)
      modifies this
      ensures State() == Apply(writer, old(State()), Append(s, now))
      ensures ok <==> rows != old(rows)
    {
      var r := writer.newRow(rows, s, now, format5);
      if r.None? {
        return false;
      }
      rows := rows + [r.value];
      assert |rows| != |old(rows)|;
      return true;
    }

    method MigrateSchema()
      modifies this
      ensures State() == Apply(writer, old(State()), Migrate)
    {
      format5 := true;
    }

    /** COALESCE(MAX(tree_size), 0). */
    method Covered() returns (covered: nat)
      ensures covered == MaxSize(checkpoints)
    {
      covered := 0;
      var i := 0;
      while i < |checkpoints|
        invariant 0 <= i <= |checkpoints|
        invariant covered == MaxSize(checkpoints[..i])
      {
        assert checkpoints[..i + 1][..i] == checkpoints[..i];
        if checkpoints[i].size > covered {
          covered := checkpoints[i].size;
        }
        i := i + 1;
      }
      assert checkpoints[..i] == checkpoints;
    }

    method Uncovered() returns (n: int)
      ensures n == EntriesSinceCheckpoint(State())
    {
      var covered := Covered();
      n := (if rows == [] then 0 else rows[|rows| - 1].sequence) - covered;
    }

    /** First transaction of checkpoint(); the server runs one checkpoint task at a time. */
    method StartCheckpoint(createdAt: Text)
      modifies this
      ensures State() == Apply(writer, old(State()), Read(createdAt))
    {
      if pending.Some? || !format5 {
        return;
      }
      var covered := Covered();
      if rows != [] && |rows| > covered {
        pending := writer.checkpoint(rows, createdAt);
      }
    }

    /** Second transaction: ON CONFLICT (tenant_id, tree_size) DO NOTHING. */
    method CommitCheckpoint()
      modifies this
      ensures State() == Apply(writer, old(State()), Write)
    {
      if pending.None? {
        return;
      }
      var conflict := false;
      var i := 0;
      while i < |checkpoints|
        invariant 0 <= i <= |checkpoints|
        invariant conflict <==> exists j :: 0 <= j < i && checkpoints[j].size == pending.value.size
        invariant State() == old(State())
      {
        if checkpoints[i].size == pending.value.size {
          conflict := true;
        }
        i := i + 1;
      }
      if !conflict {
        checkpoints := checkpoints + [pending.value];
      }
      pending := None;
    }

    /** evidence(): the row, and the hashes below the smallest checkpoint that covers it. */
    method GetEvidence(seq_: nat) returns (e: Option<Evidence>)
      ensures e == EvidenceFor(State(), seq_)
    {
      var row := RowAt(rows, seq_);
      if row.None? {
        return None;
      }
      var size: Option<nat> := None;
      var i := 0;
      while i < |checkpoints|
        invariant 0 <= i <= |checkpoints|
        invariant size == MinCovering(checkpoints[..i], seq_)
      {
        assert checkpoints[..i + 1][..i] == checkpoints[..i];
        if checkpoints[i].size >= seq_ && (size.None? || checkpoints[i].size < size.value) {
          size := Some(checkpoints[i].size);
        }
        i := i + 1;
      }
      assert checkpoints[..i] == checkpoints;
      if size.None? {
        return Some(Evidence(row.value, None));
      }
      var hashes: seq<Bytes> := [];
      var k := 0;
      while k < |rows|
        invariant 0 <= k <= |rows|
        invariant hashes == HashesUpTo(rows[..k], size.value)
      {
        assert rows[..k + 1][..k] == rows[..k];
        if rows[k].sequence <= size.value {
          hashes := hashes + [rows[k].entryHash];
        }
        k := k + 1;
      }
      assert rows[..k] == rows;
      return Some(Evidence(row.value, Some(hashes)));
    }
  }
}
