/**
 Ledger entries and the payloads their hashes commit to: format 3 (the verdict
 line), format 4 (plus the evidence) and format 5 (plus the tenant columns);
 and when two records of columns have one canonical form.
 */
module LedgerFormat {
  import opened Common
  import opened Unicode
  import opened Numbers
  import opened Strings
  import opened Canonical
  import opened CanonicalText
  import opened Canonicalizers

  // -------------------------------------------------------------- hex text

  function Hex(b: Bytes): (t: Text)
    ensures |t| == 2 * |b| && IsAscii(t)
  {
    if b == [] then [] else [HexDigit(b[0] / 16), HexDigit(b[0] % 16)] + Hex(b[1..])
  }

  lemma {:induction false} HexInjective(a: Bytes, b: Bytes)
    requires Hex(a) == Hex(b)
    ensures a == b
  {
    if a != [] && b != [] {
      var (x, y) := (Hex(a), Hex(b));
      assert x[0] == y[0] && x[1] == y[1];
      assert x[2..] == Hex(a[1..]) && y[2..] == Hex(b[1..]);
      HexInjective(a[1..], b[1..]);
      assert a == [a[0]] + a[1..] && b == [b[0]] + b[1..];
    }
  }

  /** bytes.fromhex. */
  function FromHex(t: Text): Option<Bytes> {
    if t == [] then Some([])
    else if |t| < 2 then None
    else
      var (high, low, rest) := (HexValue(t[0]), HexValue(t[1]), FromHex(t[2..]));
      if high.None? || low.None? || rest.None? then None else Some([16 * high.value + low.value] + rest.value)
  }

  /** Hex text is read back by bytes.fromhex, and has no upper-case digit. */
  lemma {:induction false} HexReads(b: Bytes)
    ensures FromHex(Hex(b)) == Some(b)
    ensures forall i | 0 <= i < |Hex(b)| :: !('A' as int <= Hex(b)[i] <= 'F' as int)
  {
    if b != [] {
      var t := Hex(b);
      assert t[0] == HexDigit(b[0] / 16) && t[1] == HexDigit(b[0] % 16) && t[2..] == Hex(b[1..]);
      HexDigitValue(b[0] / 16);
      HexDigitValue(b[0] % 16);
      HexReads(b[1..]);
      assert [b[0]] + b[1..] == b;
    }
  }

  // ----------------------------------------------------------- foreign code

  /** A signature key, by its raw public bytes. */
  type Key = Bytes

  /** The foreign functions the ledger is built on. */
  datatype World = World(
    sha: Sha,
    nfc: Normalizer,
    isoformat: int -> Text,               // datetime.isoformat
    parse: Text -> Option<Json>,          // parse_json, None where it raises
    verifies: (Key, Bytes, Text) -> bool  // Ed25519 verification of a hex signature
  )

  /** previous_hash of the first entry: 64 hex zeros. */
  const GENESIS: Digest := [
    0, 0, 0, 0, 0, 0, 0, 0, 0, 0, 0, 0, 0, 0, 0, 0,
    0, 0, 0, 0, 0, 0, 0, 0, 0, 0, 0, 0, 0, 0, 0, 0]

  lemma {:induction false} ZerosInHex(b: Bytes)
    requires forall i | 0 <= i < |b| :: b[i] == 0
    ensures forall i | 0 <= i < |Hex(b)| :: Hex(b)[i] == '0' as int
  {
    if b != [] {
      ZerosInHex(b[1..]);
    }
  }

  /** previous_hash of the first entry reads as 64 zeros. */
  lemma GenesisIsZeros()
    ensures |Hex(GENESIS)| == 64 && forall i | 0 <= i < 64 :: Hex(GENESIS)[i] == '0' as int
  {
    ZerosInHex(GENESIS);
  }

  // ---------------------------------------------------------------- columns

  /** The ledger_entries columns; hash columns hold raw digests. */
  datatype Row = Row(
    sequence: nat,
    previous: Digest,
    entryHash: Digest,
    timestamp: int,
    verdict: Text,
    telemetryId: Text,
    telemetryHash: Text,
    ruleId: Option<Text>,
    kgVersion: Option<Text>,
    modelVersion: Text,
    reasoning: Option<Text>,
    track: Option<Text>,
    envelope: Option<Text>,
    envelopeHash: Option<Text>,
    transcript: Option<Text>,
    transcriptSignature: Option<Text>,
    signingKeyId: Option<Text>,
    verifierStatus: Option<Text>,
    tenantId: Option<Text>,
    kgVersionHash: Option<Text>,
    modelWeightHash: Option<Text>,
    schemaVersion: Option<Text>,
    verdictSignature: Option<Text>,
    verdictKeyId: Option<Text>,
    transcriptId: Option<Text>
  )

  const SHA256_TAG: string := "sha256:"

  /** evidence_hash: None where it raises. */
  function EvidenceHash(w: World, text: Option<Text>): Option<Option<Text>> {
    if text.None? then Some(None)
    else
      var v := w.parse(text.value);
      if v.None? then None
      else
        var bytes := Canonicalize(w.nfc, v.value);
        if bytes.None? then None else Some(Some(T(SHA256_TAG) + Hex(w.sha(bytes.value))))
  }

  /** The text names SHA-256 and, in hex, the digest of the message. */
  ghost predicate NamesDigest(sha: Sha, t: Text, message: Bytes) {
    |t| == 71 && t[..7] == T("sha256:") && FromHex(t[7..]) == Some(sha(message))
  }

  lemma TaggedHex(sha: Sha, message: Bytes)
    ensures NamesDigest(sha, T(SHA256_TAG) + Hex(sha(message)), message)
  {
    HexReads(sha(message));
    var t := T(SHA256_TAG) + Hex(sha(message));
    assert t[..7] == T("sha256:") && t[7..] == Hex(sha(message));
  }

  /** Stored evidence is named by the digest of its canonical form. */
  lemma EvidenceIsNamed(w: World, text: Text)
    requires EvidenceHash(w, Some(text)).Some?
    ensures var (v, digest) := (w.parse(text), EvidenceHash(w, Some(text)).value);
            && v.Some? && Canonicalize(w.nfc, v.value).Some? && digest.Some?
            && NamesDigest(w.sha, digest.value, Canonicalize(w.nfc, v.value).value)
  {
    TaggedHex(w.sha, Canonicalize(w.nfc, w.parse(text).value).value);
  }

  // --------------------------------------------------------------- payloads

  const NAMES3: seq<string> := [
    "sequence_number", "previous_hash", "timestamp", "verdict", "telemetry_id", "telemetry_hash", "rule_id",
    "kg_version", "ski_model_version", "reasoning", "track"]

  const NAMES4: seq<string> := [
    "ledger_format",
    "sequence_number", "previous_hash", "timestamp", "verdict", "telemetry_id", "telemetry_hash", "rule_id",
    "kg_version", "ski_model_version", "reasoning", "track",
    "envelope_hash", "transcript_hash", "transcript_signature", "signing_key_id", "verifier_status"]

  const NAMES5: seq<string> := [
    "ledger_format",
    "sequence_number", "previous_hash", "timestamp", "verdict", "telemetry_id", "telemetry_hash", "rule_id",
    "kg_version", "ski_model_version", "reasoning", "track",
    "envelope_hash", "transcript_hash", "transcript_signature", "signing_key_id", "verifier_status",
    "tenant_id", "kg_version_hash", "model_weight_hash", "schema_version"]

  function Integer(n: nat): Json {
    Num(Finite(false, Repr(Decimal(n), [], 0)))
  }

  function OptionalText(t: Option<Text>): Json {
    if t.None? then Null else Str(t.value)
  }

  function Values3(w: World, r: Row): seq<Json> {
    [Integer(r.sequence), Str(Hex(r.previous)), Str(w.isoformat(r.timestamp)), Str(r.verdict), Str(r.telemetryId),
     Str(r.telemetryHash), OptionalText(r.ruleId), OptionalText(r.kgVersion), Str(r.modelVersion),
     OptionalText(r.reasoning), OptionalText(r.track)]
  }

  /** The stored evidence has a canonical form. */
  predicate HasEvidence(w: World, r: Row) {
    EvidenceHash(w, r.envelope).Some? && EvidenceHash(w, r.transcript).Some?
  }

  function EvidenceColumns(w: World, r: Row): seq<Json>
    requires HasEvidence(w, r)
  {
    [OptionalText(EvidenceHash(w, r.envelope).value), OptionalText(EvidenceHash(w, r.transcript).value),
     OptionalText(r.transcriptSignature), OptionalText(r.signingKeyId), OptionalText(r.verifierStatus)]
  }

  function TenantColumns(r: Row): seq<Json> {
    [OptionalText(r.tenantId), OptionalText(r.kgVersionHash), OptionalText(r.modelWeightHash),
     OptionalText(r.schemaVersion)]
  }

  function RowValues4(w: World, r: Row, format: nat): seq<Json>
    requires HasEvidence(w, r)
  {
    [Integer(format)] + Values3(w, r) + EvidenceColumns(w, r)
  }

  function RowValues5(w: World, r: Row): seq<Json>
    requires HasEvidence(w, r)
  {
    RowValues4(w, r, 5) + TenantColumns(r)
  }

  function Record(names: seq<string>, values: seq<Json>): (ms: seq<Member>)
    requires |names| == |values|
    ensures |ms| == |names|
    ensures forall i | 0 <= i < |names| :: ms[i] == Member(T(names[i]), values[i])
  {
    if names == [] then [] else [Member(T(names[0]), values[0])] + Record(names[1..], values[1..])
  }

  /**
   canonical_entry_payload: json.dumps with sorted keys, compact separators and
   no ASCII escaping. For these fixed ASCII names, text and whole numbers below
   2^53 it writes the RFC 8785 text: one order of names, the same escapes.
   */
  function Payload3(w: World, r: Row): Bytes {
    JcsBytes(Obj(Record(NAMES3, Values3(w, r))))
  }

  /** entry_payload_v4 over the digests of the stored evidence; None where it raises. */
  function EvidencePayload4(w: World, r: Row): Option<Bytes>
    requires HasEvidence(w, r)
  {
    Canonicalize(w.nfc, Obj(Record(NAMES4, RowValues4(w, r, 4))))
  }

  /** entry_payload_v5. */
  function EvidencePayload5(w: World, r: Row): Option<Bytes>
    requires HasEvidence(w, r)
  {
    Canonicalize(w.nfc, Obj(Record(NAMES5, RowValues5(w, r))))
  }

  const SIGNING_NAMES: seq<string> := ["purpose", "sequence_number", "entry_hash", "telemetry_id", "transcript_id"]

  function SigningValues(r: Row): seq<Json> {
    [Str(T("ski.ledger.verdict-signature.v1")), Integer(r.sequence), Str(Hex(r.entryHash)), Str(r.telemetryId),
     OptionalText(r.transcriptId)]
  }

  /** verdict_signing_bytes. */
  function SigningBytes(w: World, r: Row): Option<Bytes> {
    Canonicalize(w.nfc, Obj(Record(SIGNING_NAMES, SigningValues(r))))
  }

  /** The row has a payload in the format; format 5 needs its columns. */
  predicate HasPayload(w: World, r: Row, format: nat) {
    || format == 3
    || (format == 4 && HasEvidence(w, r) && EvidencePayload4(w, r).Some?)
    || (format == 5 && HasEvidence(w, r) && HasTenant(r) && EvidencePayload5(w, r).Some?)
  }

  predicate HasTenant(r: Row) {
    r.tenantId.Some? && r.schemaVersion.Some?
  }

  function PayloadAs(w: World, r: Row, format: nat): Bytes
    requires HasPayload(w, r, format)
  {
    if format == 3 then Payload3(w, r)
    else if format == 4 then EvidencePayload4(w, r).value
    else EvidencePayload5(w, r).value
  }

  /** The payload of the format hashes to the stored hash. */
  predicate Reproduces(w: World, r: Row, format: nat) {
    HasPayload(w, r, format) && w.sha(PayloadAs(w, r, format)) == r.entryHash
  }

  /** The format whose payload reproduces the stored hash, the newest first, or 0. */
  function EntryFormat(w: World, r: Row): (format: nat)
    ensures format in {0, 3, 4, 5}
    ensures format != 0 ==> Reproduces(w, r, format)
  {
    var legacy := if w.sha(Payload3(w, r)) == r.entryHash then 3 else 0;
    if !HasEvidence(w, r) then legacy
    else
      var p5 := EvidencePayload5(w, r);
      var p4 := EvidencePayload4(w, r);
      if HasTenant(r) && p5.None? then legacy
      else if HasTenant(r) && w.sha(p5.value) == r.entryHash then 5
      else if p4.Some? && w.sha(p4.value) == r.entryHash then 4
      else legacy
  }

  /** The bytes whose digest a verified row stores. */
  function Payload(w: World, r: Row): Bytes
    requires EntryFormat(w, r) != 0
  {
    PayloadAs(w, r, EntryFormat(w, r))
  }

  /** Format 4 is not tried where building the payload of format 5 raises. */
  predicate Tried(w: World, r: Row, format: nat) {
    format == 4 && HasEvidence(w, r) && HasTenant(r) ==> EvidencePayload5(w, r).Some?
  }

  /** A row is refused exactly if no format that is tried reproduces its hash. */
  lemma FormatFound(w: World, r: Row)
    ensures EntryFormat(w, r) != 0 <==> exists f: nat :: Reproduces(w, r, f) && Tried(w, r, f)
  {
    if EntryFormat(w, r) != 0 {
      assert Reproduces(w, r, EntryFormat(w, r)) && Tried(w, r, EntryFormat(w, r));
    }
  }

  /** Format 5 is for rows with a tenant and a schema version whose payload of format 5 reproduces the hash. */
  lemma Format5Exactly(w: World, r: Row)
    ensures EntryFormat(w, r) == 5 <==>
            && HasEvidence(w, r) && r.tenantId.Some? && r.schemaVersion.Some?
            && EvidencePayload5(w, r).Some? && w.sha(EvidencePayload5(w, r).value) == r.entryHash
  {
  }

  // -------------------------------------------------- what a payload binds

  lemma TInjective(a: string, b: string)
    requires T(a) == T(b)
    ensures a == b
  {
    forall i | 0 <= i < |a| ensures a[i] == b[i] {
      assert T(a)[i] == a[i] as int && T(b)[i] == b[i] as int;
    }
  }

  ghost predicate Distinct(names: seq<string>) {
    forall i, j | 0 <= i < j < |names| :: names[i] != names[j]
  }

  lemma DistinctConcat(a: seq<string>, b: seq<string>)
    requires Distinct(a) && Distinct(b) && forall i, j | 0 <= i < |a| && 0 <= j < |b| :: a[i] != b[j]
    ensures Distinct(a + b)
  {
  }

  lemma HeadDistinct()
    ensures Distinct(NAMES5[..12])
  {
  }

  lemma TailDistinct()
    ensures Distinct(NAMES5[12..])
  {
  }

  lemma HeadTailDiffer()
    ensures forall i, j | 0 <= i < 12 && 0 <= j < 9 :: NAMES5[..12][i] != NAMES5[12..][j]
  {
  }

  lemma Names5Distinct()
    ensures Distinct(NAMES5)
  {
    HeadDistinct();
    TailDistinct();
    HeadTailDiffer();
    DistinctConcat(NAMES5[..12], NAMES5[12..]);
    assert NAMES5 == NAMES5[..12] + NAMES5[12..];
  }

  lemma NamesDistinct()
    ensures Distinct(NAMES3) && Distinct(NAMES4) && Distinct(NAMES5)
  {
    Names5Distinct();
    var names := NAMES5;
    assert NAMES4 == names[..17] && NAMES3 == names[1..12];
    SublistDistinct(names, 0, 17);
    SublistDistinct(names, 1, 12);
  }

  lemma SublistDistinct(names: seq<string>, lo: nat, hi: nat)
    requires lo <= hi <= |names| && Distinct(names)
    ensures Distinct(names[lo..hi])
  {
  }

  lemma RecordDistinct(names: seq<string>, values: seq<Json>)
    requires |names| == |values| && Distinct(names)
    ensures DistinctNames(Record(names, values))
  {
    forall i, j | 0 <= i < j < |names| ensures T(names[i]) != T(names[j]) {
      if T(names[i]) == T(names[j]) {
        TInjective(names[i], names[j]);
      }
    }
  }

  lemma RecordAt(names: seq<string>, values: seq<Json>, i: nat)
    requires |names| == |values| && Distinct(names) && i < |names|
    ensures T(names[i]) in DenoteMembers(Record(names, values))
    ensures DenoteMembers(Record(names, values))[T(names[i])] == Denote(values[i])
  {
    RecordDistinct(names, values);
    var ms := Record(names, values);
    assert ms[i] in ms;
    ValueOfMember(ms, ms[i]);
  }

  lemma {:induction false} NfcRecord(nfc: Normalizer, names: seq<string>, values: seq<Json>)
    requires |names| == |values|
    ensures NfcMembers(nfc, Record(names, values)) == Record(names, NfcItems(nfc, values))
  {
  }

  /** What a column becomes: null, a string or an integer. */
  predicate IsScalar(v: Json) {
    v.Null? || v.Str? || (v.Num? && v.number.Finite?)
  }

  ghost predicate Scalars(values: seq<Json>) {
    forall i | 0 <= i < |values| :: IsScalar(values[i])
  }

  lemma LineIsScalar(w: World, r: Row)
    ensures Scalars(Values3(w, r))
  {
  }

  lemma OptionalsAreScalar(a: Option<Text>, b: Option<Text>, c: Option<Text>, d: Option<Text>, e: Option<Text>)
    ensures Scalars([OptionalText(a), OptionalText(b), OptionalText(c), OptionalText(d), OptionalText(e)])
  {
  }

  lemma EvidenceIsScalar(w: World, r: Row)
    requires HasEvidence(w, r)
    ensures Scalars(EvidenceColumns(w, r))
  {
    OptionalsAreScalar(EvidenceHash(w, r.envelope).value, EvidenceHash(w, r.transcript).value,
                       r.transcriptSignature, r.signingKeyId, r.verifierStatus);
  }

  lemma TenantIsScalar(r: Row)
    ensures Scalars(TenantColumns(r))
  {
  }

  lemma ScalarsConcat(xs: seq<Json>, ys: seq<Json>)
    requires Scalars(xs) && Scalars(ys)
    ensures Scalars(xs + ys)
  {
  }

  lemma TaggedIsScalar(w: World, r: Row, format: nat)
    requires HasEvidence(w, r)
    ensures Scalars(RowValues4(w, r, format))
  {
    LineIsScalar(w, r);
    EvidenceIsScalar(w, r);
    ScalarsConcat([Integer(format)], Values3(w, r));
    ScalarsConcat([Integer(format)] + Values3(w, r), EvidenceColumns(w, r));
  }

  lemma ColumnsAreScalars(w: World, r: Row)
    ensures Scalars(Values3(w, r))
    ensures HasEvidence(w, r) ==> Scalars(RowValues4(w, r, 4)) && Scalars(RowValues5(w, r))
  {
    LineIsScalar(w, r);
    if HasEvidence(w, r) {
      TaggedIsScalar(w, r, 4);
      TaggedIsScalar(w, r, 5);
      TenantIsScalar(r);
      ScalarsConcat(RowValues4(w, r, 5), TenantColumns(r));
    }
  }

  /** Columns are scalars, so a record of them is a JSON object. */
  lemma RecordIsMapping(names: seq<string>, values: seq<Json>)
    requires |names| == |values| && Distinct(names)
    requires Scalars(values)
    ensures IsMapping(Obj(Record(names, values)))
  {
    RecordDistinct(names, values);
  }

  lemma RecordAccepted(names: seq<string>, values: seq<Json>)
    requires |names| == |values|
    ensures Accepted(Obj(Record(names, values))) <==> forall i | 0 <= i < |values| :: Accepted(values[i])
  {
    var ms := Record(names, values);
    if forall i | 0 <= i < |values| :: Accepted(values[i]) {
      forall m | m in ms ensures ValidText(m.name) && Accepted(m.value) {
        var i :| 0 <= i < |ms| && ms[i] == m;
        assert Accepted(values[i]);
      }
    } else {
      var i :| 0 <= i < |values| && !Accepted(values[i]);
      assert ms[i] in ms && ms[i].value == values[i];
    }
  }

  /** Two scalars that canonicalize alike. */
  ghost predicate SameValue(nfc: Normalizer, x: Json, y: Json) {
    Denote(NfcValues(nfc, x)) == Denote(NfcValues(nfc, y))
  }

  ghost predicate SameValues(nfc: Normalizer, xs: seq<Json>, ys: seq<Json>) {
    |xs| == |ys| && forall i | 0 <= i < |xs| :: SameValue(nfc, xs[i], ys[i])
  }

  lemma SameAccepted(nfc: Normalizer, x: Json, y: Json)
    requires IsNfc(nfc) && IsScalar(x) && IsScalar(y) && SameValue(nfc, x, y)
    ensures Accepted(x) <==> Accepted(y)
  {
    if x.Str? {
      assert ValidText(x.text) <==> ValidText(nfc(x.text));
      assert ValidText(y.text) <==> ValidText(nfc(y.text));
    }
  }

  lemma {:induction false} SameMembers(names: seq<string>, xs: seq<Json>, ys: seq<Json>)
    requires |names| == |xs| == |ys| && forall i | 0 <= i < |xs| :: Denote(xs[i]) == Denote(ys[i])
    ensures DenoteMembers(Record(names, xs)) == DenoteMembers(Record(names, ys))
  {
    if names != [] {
      SameMembers(names[1..], xs[1..], ys[1..]);
      assert Record(names, xs)[1..] == Record(names[1..], xs[1..]);
      assert Record(names, ys)[1..] == Record(names[1..], ys[1..]);
    }
  }

  lemma RecordsAccepted(nfc: Normalizer, names: seq<string>, xs: seq<Json>, ys: seq<Json>)
    requires IsNfc(nfc) && |names| == |xs| == |ys| && Scalars(xs) && Scalars(ys) && SameValues(nfc, xs, ys)
    ensures Accepted(Obj(Record(names, xs))) <==> Accepted(Obj(Record(names, ys)))
  {
    RecordAccepted(names, xs);
    RecordAccepted(names, ys);
    forall i | 0 <= i < |xs| ensures Accepted(xs[i]) <==> Accepted(ys[i]) {
      SameAccepted(nfc, xs[i], ys[i]);
    }
  }

  /** Records whose columns agree after NFC canonicalize alike, or both fail to. */
  lemma RecordsAgree(nfc: Normalizer, names: seq<string>, xs: seq<Json>, ys: seq<Json>)
    requires IsNfc(nfc) && |names| == |xs| == |ys| && Distinct(names)
    requires Scalars(xs) && Scalars(ys) && SameValues(nfc, xs, ys)
    ensures Canonicalize(nfc, Obj(Record(names, xs))) == Canonicalize(nfc, Obj(Record(names, ys)))
  {
    var (x, y) := (Obj(Record(names, xs)), Obj(Record(names, ys)));
    RecordsAccepted(nfc, names, xs, ys);
    NfcIdempotent(nfc, x);
    NfcIdempotent(nfc, y);
    if Accepted(x) {
      RecordIsMapping(names, xs);
      RecordIsMapping(names, ys);
      NfcRecord(nfc, names, xs);
      NfcRecord(nfc, names, ys);
      forall i | 0 <= i < |xs| ensures Denote(NfcItems(nfc, xs)[i]) == Denote(NfcItems(nfc, ys)[i]) {
        assert SameValue(nfc, xs[i], ys[i]);
      }
      SameMembers(names, NfcItems(nfc, xs), NfcItems(nfc, ys));
      CanonicalizeComplete(nfc, x, y);
    }
  }

  /** Equal canonical records with the same names have equal normalised columns. */
  lemma RecordBinds(nfc: Normalizer, names: seq<string>, xs: seq<Json>, ys: seq<Json>)
    requires |names| == |xs| == |ys| && Distinct(names)
    requires Scalars(xs) && Scalars(ys)
    requires Canonicalize(nfc, Obj(Record(names, xs))).Some?
    requires Canonicalize(nfc, Obj(Record(names, xs))) == Canonicalize(nfc, Obj(Record(names, ys)))
    ensures SameValues(nfc, xs, ys)
  {
    RecordIsMapping(names, xs);
    RecordIsMapping(names, ys);
    CanonicalizeComplete(nfc, Obj(Record(names, xs)), Obj(Record(names, ys)));
    NfcRecord(nfc, names, xs);
    NfcRecord(nfc, names, ys);
    forall i | 0 <= i < |xs| ensures SameValue(nfc, xs[i], ys[i]) {
      RecordAt(names, NfcItems(nfc, xs), i);
      RecordAt(names, NfcItems(nfc, ys), i);
    }
  }
}
