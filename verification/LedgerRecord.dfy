/** What an append writes: the bytes the new entry's hash commits to name everything that was submitted. */
module LedgerRecord {
  import opened Common
  import opened Unicode
  import opened Canonicalizers
  import opened LedgerFormat
  import opened Audit
  import opened LedgerClient
  import opened LedgerMessages

  /** The verdict line, in terms of what was submitted. */
  ghost predicate TellsLine(w: World, s: Submission, sequence: nat, previous: Digest, now: int, bytes: Bytes) {
    && Has(bytes, "sequence_number", WholeValue(sequence))
    && Has(bytes, "previous_hash", HexText(previous))
    && Has(bytes, "timestamp", TextValue(w.nfc, w.isoformat(now)))
    && Has(bytes, "verdict", TextValue(w.nfc, s.verdict))
    && Has(bytes, "telemetry_id", TextValue(w.nfc, s.telemetryId))
    && Has(bytes, "telemetry_hash", TextValue(w.nfc, s.telemetryHash))
    && Has(bytes, "rule_id", OptionalValue(w.nfc, s.ruleId))
    && Has(bytes, "kg_version", OptionalValue(w.nfc, s.kgVersion))
    && Has(bytes, "ski_model_version", TextValue(w.nfc, s.modelVersion))
    && Has(bytes, "reasoning", OptionalValue(w.nfc, s.reasoning))
    && Has(bytes, "track", OptionalValue(w.nfc, s.track))
  }

  /** The evidence: the digests of what was stored, and its signature. */
  ghost predicate TellsEvidence(w: World, s: Submission, bytes: Bytes)
    requires EvidenceHash(w, Some(s.envelope)).Some? && EvidenceHash(w, s.transcript).Some?
  {
    && Has(bytes, "envelope_hash", OptionalValue(w.nfc, EvidenceHash(w, Some(s.envelope)).value))
    && Has(bytes, "transcript_hash", OptionalValue(w.nfc, EvidenceHash(w, s.transcript).value))
    && Has(bytes, "transcript_signature", OptionalValue(w.nfc, s.transcriptSignature))
    && Has(bytes, "signing_key_id", OptionalValue(w.nfc, s.signingKeyId))
    && Has(bytes, "verifier_status", OptionalValue(w.nfc, s.verifierStatus))
  }

  ghost predicate TellsTenant(rt: Runtime, s: Submission, bytes: Bytes) {
    && Has(bytes, "tenant_id", TextValue(rt.world.nfc, rt.tenantId))
    && Has(bytes, "kg_version_hash", OptionalValue(rt.world.nfc, s.kgVersionHash))
    && Has(bytes, "model_weight_hash", OptionalValue(rt.world.nfc, s.modelWeightHash))
    && Has(bytes, "schema_version", TextValue(rt.world.nfc, T("3.0.0")))
  }

  lemma DraftIsSubmission(rt: Runtime, rows: seq<Row>, s: Submission, now: int, digest: Option<Text>, format5: bool,
                          bytes: Bytes)
    requires EvidenceHash(rt.world, Some(s.envelope)).Some? && EvidenceHash(rt.world, s.transcript).Some?
    ensures var draft := Draft(rt, rows, s, now, digest, format5);
            && HasEvidence(rt.world, draft)
            && (HasLine(rt.world, rt.world.nfc, draft, bytes) ==>
                  TellsLine(rt.world, s, NextSequence(rows), HeadHash(rows), now, bytes))
            && (HasEvidenceFields(rt.world, draft, bytes) ==> TellsEvidence(rt.world, s, bytes))
            && (format5 && HasTenantFields(rt.world, draft, bytes) ==> TellsTenant(rt, s, bytes))
  {
  }

  lemma SignKeepsHash(rt: Runtime, hashed: Row, r: Row)
    requires Sign(rt, hashed) == Some(r)
    ensures r.entryHash == hashed.entryHash
  {
  }

  lemma DraftHasEvidence(rt: Runtime, rows: seq<Row>, s: Submission, now: int, digest: Option<Text>, format5: bool)
    requires EvidenceHash(rt.world, Some(s.envelope)).Some? && EvidenceHash(rt.world, s.transcript).Some?
    ensures HasEvidence(rt.world, Draft(rt, rows, s, now, digest, format5))
  {
  }

  /** The payload an appended row is hashed from. */
  lemma AppendedPayload(rt: Runtime, rows: seq<Row>, s: Submission, now: int, format5: bool, r: Row)
    returns (draft: Row, bytes: Bytes)
    requires NewRow(rt, rows, s, now, format5) == Some(r)
    ensures EvidenceHash(rt.world, Some(s.envelope)).Some? && EvidenceHash(rt.world, s.transcript).Some?
    ensures draft == Draft(rt, rows, s, now, EvidenceHash(rt.world, Some(s.envelope)).value, format5)
    ensures HasEvidence(rt.world, draft) && r.entryHash == rt.world.sha(bytes)
    ensures (if format5 then EvidencePayload5(rt.world, draft) else EvidencePayload4(rt.world, draft)) == Some(bytes)
  {
    var w, digest := rt.world, EvidenceHash(rt.world, Some(s.envelope)).value;
    draft := Draft(rt, rows, s, now, digest, format5);
    DraftHasEvidence(rt, rows, s, now, digest, format5);
    var payload := if format5 then EvidencePayload5(w, draft) else EvidencePayload4(w, draft);
    bytes := payload.value;
    if format5 {
      SignKeepsHash(rt, draft.(entryHash := w.sha(bytes)), r);
    }
  }

  /** An appended row stores the digest of bytes that name every submitted field, its position and its time. */
  lemma AppendedReads(rt: Runtime, rows: seq<Row>, s: Submission, now: int, format5: bool, r: Row)
    returns (bytes: Bytes)
    requires IsNfc(rt.world.nfc) && NewRow(rt, rows, s, now, format5) == Some(r)
    ensures r.entryHash == rt.world.sha(bytes)
    ensures ObjectOf(bytes, if format5 then 21 else 17)
    ensures Has(bytes, "ledger_format", WholeValue(if format5 then 5 else 4))
    ensures TellsLine(rt.world, s, NextSequence(rows), HeadHash(rows), now, bytes)
    ensures EvidenceHash(rt.world, Some(s.envelope)).Some? && EvidenceHash(rt.world, s.transcript).Some?
    ensures TellsEvidence(rt.world, s, bytes)
    ensures format5 ==> TellsTenant(rt, s, bytes)
  {
    var draft;
    draft, bytes := AppendedPayload(rt, rows, s, now, format5, r);
    DraftIsSubmission(rt, rows, s, now, EvidenceHash(rt.world, Some(s.envelope)).value, format5, bytes);
    if format5 {
      Payload5Reads(rt.world, draft, bytes);
    } else {
      Payload4Reads(rt.world, draft, bytes);
    }
  }

  /** The columns an append fills besides: the stored texts as submitted, and what the verdict signature names. */
  lemma AppendedColumns(rt: Runtime, rows: seq<Row>, s: Submission, now: int, format5: bool, r: Row)
    requires NewRow(rt, rows, s, now, format5) == Some(r)
    ensures r.envelope == Some(s.envelope) && r.transcript == s.transcript && r.transcriptId == s.transcriptId
    ensures r.verdictKeyId == if format5 then Some(KeyId(rt.world, rt.signer.key)) else None
    ensures r.verdictSignature.Some? <==> format5
  {
  }
}
