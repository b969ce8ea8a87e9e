/**
 What a reader with standard JSON tooling finds in the messages the ledger
 hashes and signs: every field by its name.
 */
module LedgerMessages {
  import opened Common
  import opened Unicode
  import opened Numbers
  import opened Canonical
  import opened Canonicalizers
  import opened JsonReader
  import opened LedgerFormat
  import opened LedgerBinding
  import opened Audit

  // ------------------------------------------------------------------ fields

  /** The bytes are a JSON object of the given number of members. */
  ghost predicate ObjectOf(bytes: Bytes, size: nat) {
    ReadJson(bytes).Some? && ReadJson(bytes).value.VObj? && |ReadJson(bytes).value.members| == size
  }

  /** The object has the member. */
  ghost predicate Has(bytes: Bytes, name: string, v: Value) {
    && ReadJson(bytes).Some? && ReadJson(bytes).value.VObj?
    && T(name) in ReadJson(bytes).value.members && ReadJson(bytes).value.members[T(name)] == v
  }

  function TextValue(nfc: Normalizer, t: Text): Value {
    VStr(nfc(t))
  }

  function OptionalValue(nfc: Normalizer, t: Option<Text>): Value {
    if t.None? then VNull else VStr(nfc(t.value))
  }

  function WholeValue(n: nat): Value {
    VNum(n as real)
  }

  function HexText(b: Bytes): Value {
    VStr(Hex(b))
  }

  lemma IntegerReads(nfc: Normalizer, n: nat)
    ensures Denote(NfcValues(nfc, Integer(n))) == WholeValue(n)
  {
    assert Decimal(n) + [] == Decimal(n);
  }

  lemma HexIsNormal(nfc: Normalizer, b: Bytes)
    requires IsNfc(nfc)
    ensures Denote(NfcValues(nfc, Str(Hex(b)))) == HexText(b)
  {
    assert nfc(Hex(b)) == Hex(b);
  }

  lemma OptionalReads(nfc: Normalizer, t: Option<Text>)
    ensures Denote(NfcValues(nfc, OptionalText(t))) == OptionalValue(nfc, t)
  {
  }

  lemma {:induction false} RecordSize(names: seq<string>, values: seq<Json>)
    requires |names| == |values| && DistinctNames(Record(names, values))
    ensures |DenoteMembers(Record(names, values))| == |names|
  {
    if names != [] {
      var ms := Record(names, values);
      assert ms[1..] == Record(names[1..], values[1..]);
      NameNotRepeated(ms);
      RecordSize(names[1..], values[1..]);
    }
  }

  /** A record reads as an object with exactly its columns, each under its name. */
  lemma RecordReads(nfc: Normalizer, names: seq<string>, values: seq<Json>, bytes: Bytes)
    requires |names| == |values| && Distinct(names) && Scalars(values)
    requires Canonicalize(nfc, Obj(Record(names, values))) == Some(bytes)
    ensures ObjectOf(bytes, |names|)
    ensures forall i | 0 <= i < |names| :: Has(bytes, names[i], Denote(NfcValues(nfc, values[i])))
  {
    RecordIsMapping(names, values);
    CanonicalizeReads(nfc, Obj(Record(names, values)), bytes);
    NfcRecord(nfc, names, values);
    RecordDistinct(names, NfcItems(nfc, values));
    RecordSize(names, NfcItems(nfc, values));
    forall i | 0 <= i < |names| ensures Has(bytes, names[i], Denote(NfcValues(nfc, values[i]))) {
      RecordAt(names, NfcItems(nfc, values), i);
    }
  }

  /** The columns stand in the bytes under their names. */
  ghost predicate HasColumns(nfc: Normalizer, bytes: Bytes, names: seq<string>, values: seq<Json>) {
    |names| == |values| && forall i | 0 <= i < |names| :: Has(bytes, names[i], Denote(NfcValues(nfc, values[i])))
  }

  lemma SplitColumns(nfc: Normalizer, bytes: Bytes, a: seq<string>, b: seq<string>, xs: seq<Json>, ys: seq<Json>)
    requires |a| == |xs| && HasColumns(nfc, bytes, a + b, xs + ys)
    ensures HasColumns(nfc, bytes, a, xs) && HasColumns(nfc, bytes, b, ys)
  {
    forall i | 0 <= i < |a| ensures Has(bytes, a[i], Denote(NfcValues(nfc, xs[i]))) {
      assert Has(bytes, (a + b)[i], Denote(NfcValues(nfc, (xs + ys)[i])));
    }
    forall i | 0 <= i < |b| ensures Has(bytes, b[i], Denote(NfcValues(nfc, ys[i]))) {
      assert Has(bytes, (a + b)[|a| + i], Denote(NfcValues(nfc, (xs + ys)[|a| + i])));
    }
  }

  // ------------------------------------------------ statements and signatures

  lemma StatementDistinct()
    ensures Distinct(STATEMENT_NAMES)
  {
  }

  lemma StatementIsScalar(tenantId: Text, size: nat, root: Digest, last: Digest, createdAt: Text)
    ensures Scalars(StatementValues(tenantId, size, root, last, createdAt))
  {
  }

  /** A checkpoint statement names tenant, size, root, last hash and time of what it covers. */
  lemma StatementReads(w: World, tenantId: Text, size: nat, root: Digest, last: Digest, createdAt: Text, bytes: Bytes)
    requires IsNfc(w.nfc) && Statement(w, tenantId, size, root, last, createdAt) == Some(bytes)
    ensures ObjectOf(bytes, 6)
    ensures Has(bytes, "checkpoint_format", WholeValue(1)) && Has(bytes, "tenant_id", TextValue(w.nfc, tenantId))
    ensures Has(bytes, "tree_size", WholeValue(size)) && Has(bytes, "root_hash", HexText(root))
    ensures Has(bytes, "last_entry_hash", HexText(last)) && Has(bytes, "created_at", TextValue(w.nfc, createdAt))
  {
    StatementDistinct();
    StatementIsScalar(tenantId, size, root, last, createdAt);
    RecordReads(w.nfc, STATEMENT_NAMES, StatementValues(tenantId, size, root, last, createdAt), bytes);
    StatementFields(w, tenantId, size, root, last, createdAt, bytes, STATEMENT_NAMES);
  }

  lemma StatementFields(w: World, tenantId: Text, size: nat, root: Digest, last: Digest, createdAt: Text, bytes: Bytes,
                        names: seq<string>)
    requires IsNfc(w.nfc) && names == STATEMENT_NAMES
    requires HasColumns(w.nfc, bytes, names, StatementValues(tenantId, size, root, last, createdAt))
    ensures Has(bytes, "checkpoint_format", WholeValue(1)) && Has(bytes, "tenant_id", TextValue(w.nfc, tenantId))
    ensures Has(bytes, "tree_size", WholeValue(size)) && Has(bytes, "root_hash", HexText(root))
    ensures Has(bytes, "last_entry_hash", HexText(last)) && Has(bytes, "created_at", TextValue(w.nfc, createdAt))
  {
    var values := StatementValues(tenantId, size, root, last, createdAt);
    assert Has(bytes, names[0], Denote(NfcValues(w.nfc, values[0])));
    assert Has(bytes, names[1], Denote(NfcValues(w.nfc, values[1])));
    assert Has(bytes, names[2], Denote(NfcValues(w.nfc, values[2])));
    assert Has(bytes, names[3], Denote(NfcValues(w.nfc, values[3])));
    assert Has(bytes, names[4], Denote(NfcValues(w.nfc, values[4])));
    assert Has(bytes, names[5], Denote(NfcValues(w.nfc, values[5])));
    IntegerReads(w.nfc, 1);
    IntegerReads(w.nfc, size);
    HexIsNormal(w.nfc, root);
    HexIsNormal(w.nfc, last);
  }

  lemma SigningDistinct()
    ensures Distinct(SIGNING_NAMES)
  {
  }

  lemma SigningIsScalar(r: Row)
    ensures Scalars(SigningValues(r))
  {
  }

  lemma PurposeIsAscii()
    ensures IsAscii(T("ski.ledger.verdict-signature.v1"))
  {
    var tag := "ski.ledger.verdict-signature.v1";
    assert forall i | 0 <= i < |tag| :: T(tag)[i] == tag[i] as int;
  }

  /** A verdict signature covers purpose, position, entry hash, telemetry and transcript. */
  lemma SigningReads(w: World, r: Row, bytes: Bytes)
    requires IsNfc(w.nfc) && SigningBytes(w, r) == Some(bytes)
    ensures ObjectOf(bytes, 5)
    ensures Has(bytes, "purpose", VStr(T("ski.ledger.verdict-signature.v1")))
    ensures Has(bytes, "sequence_number", WholeValue(r.sequence)) && Has(bytes, "entry_hash", HexText(r.entryHash))
    ensures Has(bytes, "telemetry_id", TextValue(w.nfc, r.telemetryId))
    ensures Has(bytes, "transcript_id", OptionalValue(w.nfc, r.transcriptId))
  {
    SigningDistinct();
    SigningIsScalar(r);
    RecordReads(w.nfc, SIGNING_NAMES, SigningValues(r), bytes);
    SigningFields(w, r, bytes, SIGNING_NAMES, SigningValues(r));
  }

  lemma SigningFields(w: World, r: Row, bytes: Bytes, names: seq<string>, values: seq<Json>)
    requires IsNfc(w.nfc) && names == SIGNING_NAMES && values == SigningValues(r)
    requires HasColumns(w.nfc, bytes, names, values)
    ensures Has(bytes, "purpose", VStr(T("ski.ledger.verdict-signature.v1")))
    ensures Has(bytes, "sequence_number", WholeValue(r.sequence)) && Has(bytes, "entry_hash", HexText(r.entryHash))
    ensures Has(bytes, "telemetry_id", TextValue(w.nfc, r.telemetryId))
    ensures Has(bytes, "transcript_id", OptionalValue(w.nfc, r.transcriptId))
  {
    assert Has(bytes, names[0], Denote(NfcValues(w.nfc, values[0])));
    assert Has(bytes, names[1], Denote(NfcValues(w.nfc, values[1])));
    assert Has(bytes, names[2], Denote(NfcValues(w.nfc, values[2])));
    assert Has(bytes, names[3], Denote(NfcValues(w.nfc, values[3])));
    assert Has(bytes, names[4], Denote(NfcValues(w.nfc, values[4])));
    PurposeIsAscii();
    IntegerReads(w.nfc, r.sequence);
    HexIsNormal(w.nfc, r.entryHash);
    OptionalReads(w.nfc, r.transcriptId);
  }

  // ----------------------------------------------------------- entry payloads

  /** The verdict line, field by field. */
  ghost predicate HasLine(w: World, nfc: Normalizer, r: Row, bytes: Bytes) {
    && Has(bytes, "sequence_number", WholeValue(r.sequence))
    && Has(bytes, "previous_hash", HexText(r.previous))
    && Has(bytes, "timestamp", TextValue(nfc, w.isoformat(r.timestamp)))
    && Has(bytes, "verdict", TextValue(nfc, r.verdict))
    && Has(bytes, "telemetry_id", TextValue(nfc, r.telemetryId))
    && Has(bytes, "telemetry_hash", TextValue(nfc, r.telemetryHash))
    && Has(bytes, "rule_id", OptionalValue(nfc, r.ruleId))
    && Has(bytes, "kg_version", OptionalValue(nfc, r.kgVersion))
    && Has(bytes, "ski_model_version", TextValue(nfc, r.modelVersion))
    && Has(bytes, "reasoning", OptionalValue(nfc, r.reasoning))
    && Has(bytes, "track", OptionalValue(nfc, r.track))
  }

  /** The digests of the stored evidence, and who signed it. */
  ghost predicate HasEvidenceFields(w: World, r: Row, bytes: Bytes)
    requires HasEvidence(w, r)
  {
    && Has(bytes, "envelope_hash", OptionalValue(w.nfc, EvidenceHash(w, r.envelope).value))
    && Has(bytes, "transcript_hash", OptionalValue(w.nfc, EvidenceHash(w, r.transcript).value))
    && Has(bytes, "transcript_signature", OptionalValue(w.nfc, r.transcriptSignature))
    && Has(bytes, "signing_key_id", OptionalValue(w.nfc, r.signingKeyId))
    && Has(bytes, "verifier_status", OptionalValue(w.nfc, r.verifierStatus))
  }

  ghost predicate HasTenantFields(w: World, r: Row, bytes: Bytes) {
    && Has(bytes, "tenant_id", OptionalValue(w.nfc, r.tenantId))
    && Has(bytes, "kg_version_hash", OptionalValue(w.nfc, r.kgVersionHash))
    && Has(bytes, "model_weight_hash", OptionalValue(w.nfc, r.modelWeightHash))
    && Has(bytes, "schema_version", OptionalValue(w.nfc, r.schemaVersion))
  }

  lemma LineFields(w: World, nfc: Normalizer, r: Row, bytes: Bytes, values: seq<Json>)
    requires IsNfc(nfc) && values == Values3(w, r) && HasColumns(nfc, bytes, NAMES3, values)
    ensures HasLine(w, nfc, r, bytes)
  {
    var names := NAMES3;
    assert Has(bytes, names[0], Denote(NfcValues(nfc, values[0])));
    assert Has(bytes, names[1], Denote(NfcValues(nfc, values[1])));
    assert Has(bytes, names[2], Denote(NfcValues(nfc, values[2])));
    assert Has(bytes, names[3], Denote(NfcValues(nfc, values[3])));
    assert Has(bytes, names[4], Denote(NfcValues(nfc, values[4])));
    assert Has(bytes, names[5], Denote(NfcValues(nfc, values[5])));
    assert Has(bytes, names[6], Denote(NfcValues(nfc, values[6])));
    assert Has(bytes, names[7], Denote(NfcValues(nfc, values[7])));
    assert Has(bytes, names[8], Denote(NfcValues(nfc, values[8])));
    assert Has(bytes, names[9], Denote(NfcValues(nfc, values[9])));
    assert Has(bytes, names[10], Denote(NfcValues(nfc, values[10])));
    IntegerReads(nfc, r.sequence);
    HexIsNormal(nfc, r.previous);
    OptionalReads(nfc, r.ruleId);
    OptionalReads(nfc, r.kgVersion);
    OptionalReads(nfc, r.reasoning);
    OptionalReads(nfc, r.track);
  }

  const EVIDENCE_NAMES: seq<string> := [
    "envelope_hash", "transcript_hash", "transcript_signature", "signing_key_id", "verifier_status"]

  const TENANT_NAMES: seq<string> := ["tenant_id", "kg_version_hash", "model_weight_hash", "schema_version"]

  lemma EvidenceFields(w: World, r: Row, bytes: Bytes, names: seq<string>, values: seq<Json>)
    requires HasEvidence(w, r) && names == EVIDENCE_NAMES && values == EvidenceColumns(w, r)
    requires HasColumns(w.nfc, bytes, names, values)
    ensures HasEvidenceFields(w, r, bytes)
  {
    assert Has(bytes, names[0], Denote(NfcValues(w.nfc, values[0])));
    assert Has(bytes, names[1], Denote(NfcValues(w.nfc, values[1])));
    assert Has(bytes, names[2], Denote(NfcValues(w.nfc, values[2])));
    assert Has(bytes, names[3], Denote(NfcValues(w.nfc, values[3])));
    assert Has(bytes, names[4], Denote(NfcValues(w.nfc, values[4])));
    OptionalReads(w.nfc, EvidenceHash(w, r.envelope).value);
    OptionalReads(w.nfc, EvidenceHash(w, r.transcript).value);
    OptionalReads(w.nfc, r.transcriptSignature);
    OptionalReads(w.nfc, r.signingKeyId);
    OptionalReads(w.nfc, r.verifierStatus);
  }

  lemma TenantFields(w: World, r: Row, bytes: Bytes, names: seq<string>, values: seq<Json>)
    requires names == TENANT_NAMES && values == TenantColumns(r) && HasColumns(w.nfc, bytes, names, values)
    ensures HasTenantFields(w, r, bytes)
  {
    assert Has(bytes, names[0], Denote(NfcValues(w.nfc, values[0])));
    assert Has(bytes, names[1], Denote(NfcValues(w.nfc, values[1])));
    assert Has(bytes, names[2], Denote(NfcValues(w.nfc, values[2])));
    assert Has(bytes, names[3], Denote(NfcValues(w.nfc, values[3])));
    OptionalReads(w.nfc, r.tenantId);
    OptionalReads(w.nfc, r.kgVersionHash);
    OptionalReads(w.nfc, r.modelWeightHash);
    OptionalReads(w.nfc, r.schemaVersion);
  }

  lemma TagNames()
    ensures NAMES4 == ["ledger_format"] + NAMES3 + EVIDENCE_NAMES
  {
  }

  lemma TenantNames()
    ensures NAMES5 == NAMES4 + TENANT_NAMES
  {
  }

  lemma TaggedColumns(w: World, r: Row, bytes: Bytes, tag: seq<string>, line: seq<string>, evidence: seq<string>,
                      format: nat)
    requires HasEvidence(w, r) && |tag| == 1 && |line| == 11
    requires HasColumns(w.nfc, bytes, tag + line + evidence, RowValues4(w, r, format))
    ensures Has(bytes, tag[0], WholeValue(format))
    ensures HasColumns(w.nfc, bytes, line, Values3(w, r)) && HasColumns(w.nfc, bytes, evidence, EvidenceColumns(w, r))
  {
    var head := [Integer(format)];
    SplitColumns(w.nfc, bytes, tag + line, evidence, head + Values3(w, r), EvidenceColumns(w, r));
    SplitColumns(w.nfc, bytes, tag, line, head, Values3(w, r));
    IntegerReads(w.nfc, format);
    assert Has(bytes, tag[0], Denote(NfcValues(w.nfc, head[0])));
  }

  lemma TaggedFields(w: World, r: Row, bytes: Bytes, format: nat)
    requires IsNfc(w.nfc) && HasEvidence(w, r) && HasColumns(w.nfc, bytes, NAMES4, RowValues4(w, r, format))
    ensures Has(bytes, "ledger_format", WholeValue(format))
    ensures HasLine(w, w.nfc, r, bytes) && HasEvidenceFields(w, r, bytes)
  {
    TagNames();
    TaggedColumns(w, r, bytes, ["ledger_format"], NAMES3, EVIDENCE_NAMES, format);
    LineFields(w, w.nfc, r, bytes, Values3(w, r));
    EvidenceFields(w, r, bytes, EVIDENCE_NAMES, EvidenceColumns(w, r));
  }

  /** The format-3 payload is a JSON object of the verdict line, texts as stored. */
  lemma Payload3Reads(w: World, r: Row)
    requires Encodable(w, r)
    ensures ObjectOf(Payload3(w, r), 11) && HasLine(w, Same, r, Payload3(w, r))
  {
    NamesDistinct();
    ColumnsAreScalars(w, r);
    EncodableRecord(w, r);
    RecordReads(Same, NAMES3, Values3(w, r), Payload3(w, r));
    LineFields(w, Same, r, Payload3(w, r), Values3(w, r));
  }

  /** The format-4 payload: its tag, the verdict line and the evidence. */
  lemma Payload4Reads(w: World, r: Row, bytes: Bytes)
    requires IsNfc(w.nfc) && HasEvidence(w, r) && EvidencePayload4(w, r) == Some(bytes)
    ensures ObjectOf(bytes, 17) && Has(bytes, "ledger_format", WholeValue(4))
    ensures HasLine(w, w.nfc, r, bytes) && HasEvidenceFields(w, r, bytes)
  {
    NamesDistinct();
    ColumnsAreScalars(w, r);
    RecordReads(w.nfc, NAMES4, RowValues4(w, r, 4), bytes);
    TaggedFields(w, r, bytes, 4);
  }

  /** The format-5 payload: all that, and the tenant columns. */
  lemma Payload5Reads(w: World, r: Row, bytes: Bytes)
    requires IsNfc(w.nfc) && HasEvidence(w, r) && EvidencePayload5(w, r) == Some(bytes)
    ensures ObjectOf(bytes, 21) && Has(bytes, "ledger_format", WholeValue(5))
    ensures HasLine(w, w.nfc, r, bytes) && HasEvidenceFields(w, r, bytes) && HasTenantFields(w, r, bytes)
  {
    NamesDistinct();
    ColumnsAreScalars(w, r);
    RecordReads(w.nfc, NAMES5, RowValues5(w, r), bytes);
    TenantNames();
    SplitColumns(w.nfc, bytes, NAMES4, TENANT_NAMES, RowValues4(w, r, 5), TenantColumns(r));
    TaggedFields(w, r, bytes, 5);
    TenantFields(w, r, bytes, TENANT_NAMES, TenantColumns(r));
  }
}
