/** What one entry hash pins down: the format, every chained column, and the stored evidence. */
module LedgerBinding {
  import opened Common
  import opened Unicode
  import opened Numbers
  import opened Canonical
  import opened CanonicalText
  import opened Canonicalizers
  import opened LedgerFormat

  /** The database holds UTF-8, so the verdict line can be encoded. */
  ghost predicate Encodable(w: World, r: Row) {
    forall v | v in Values3(w, r) :: Accepted(v)
  }

  function Same(t: Text): Text {
    t
  }

  function Opt(norm: Normalizer, o: Option<Text>): Option<Text> {
    if o.None? then None else Some(norm(o.value))
  }

  /** Two rows with the same verdict line, up to norm on its texts. */
  ghost predicate AgreeLine(norm: Normalizer, w: World, a: Row, b: Row) {
    && a.sequence == b.sequence
    && a.previous == b.previous
    && norm(w.isoformat(a.timestamp)) == norm(w.isoformat(b.timestamp))
    && norm(a.verdict) == norm(b.verdict)
    && norm(a.telemetryId) == norm(b.telemetryId)
    && norm(a.telemetryHash) == norm(b.telemetryHash)
    && Opt(norm, a.ruleId) == Opt(norm, b.ruleId)
    && Opt(norm, a.kgVersion) == Opt(norm, b.kgVersion)
    && norm(a.modelVersion) == norm(b.modelVersion)
    && Opt(norm, a.reasoning) == Opt(norm, b.reasoning)
    && Opt(norm, a.track) == Opt(norm, b.track)
  }

  ghost predicate AgreeEvidence(norm: Normalizer, w: World, a: Row, b: Row) {
    && EvidenceHash(w, a.envelope) == EvidenceHash(w, b.envelope)
    && EvidenceHash(w, a.transcript) == EvidenceHash(w, b.transcript)
    && Opt(norm, a.transcriptSignature) == Opt(norm, b.transcriptSignature)
    && Opt(norm, a.signingKeyId) == Opt(norm, b.signingKeyId)
    && Opt(norm, a.verifierStatus) == Opt(norm, b.verifierStatus)
  }

  ghost predicate AgreeTenant(norm: Normalizer, a: Row, b: Row) {
    && Opt(norm, a.tenantId) == Opt(norm, b.tenantId)
    && Opt(norm, a.kgVersionHash) == Opt(norm, b.kgVersionHash)
    && Opt(norm, a.modelWeightHash) == Opt(norm, b.modelWeightHash)
    && Opt(norm, a.schemaVersion) == Opt(norm, b.schemaVersion)
  }

  /** Agreement on everything the format chains: exactly in format 3, up to NFC in formats 4 and 5. */
  ghost predicate AgreeChained(format: nat, w: World, a: Row, b: Row) {
    && (format == 3 ==> AgreeLine(Same, w, a, b))
    && (format >= 4 ==> AgreeLine(w.nfc, w, a, b) && AgreeEvidence(w.nfc, w, a, b))
    && (format == 5 ==> AgreeTenant(w.nfc, a, b))
  }

  // --------------------------------------------------- columns from values

  lemma IntegerDenotes(nfc: Normalizer, m: nat, n: nat)
    requires SameValue(nfc, Integer(m), Integer(n))
    ensures m == n
  {
    assert Decimal(m) + [] == Decimal(m) && Decimal(n) + [] == Decimal(n);
    assert SignedValue(false, Repr(Decimal(m), [], 0)) == m as real;
    assert SignedValue(false, Repr(Decimal(n), [], 0)) == n as real;
  }

  lemma HexDenotes(nfc: Normalizer, a: Bytes, b: Bytes)
    requires IsNfc(nfc) && SameValue(nfc, Str(Hex(a)), Str(Hex(b)))
    ensures a == b
  {
    assert nfc(Hex(a)) == Hex(a) && nfc(Hex(b)) == Hex(b);
    HexInjective(a, b);
  }

  lemma TextDenotes(nfc: Normalizer, a: Text, b: Text)
    requires SameValue(nfc, Str(a), Str(b))
    ensures nfc(a) == nfc(b)
  {
  }

  lemma OptionalDenotes(nfc: Normalizer, a: Option<Text>, b: Option<Text>)
    requires SameValue(nfc, OptionalText(a), OptionalText(b))
    ensures Opt(nfc, a) == Opt(nfc, b)
  {
  }

  lemma EvidenceHashAscii(w: World, text: Option<Text>)
    requires EvidenceHash(w, text).Some? && EvidenceHash(w, text).value.Some?
    ensures IsAscii(EvidenceHash(w, text).value.value)
  {
    var tag := T(SHA256_TAG);
    assert forall i | 0 <= i < |SHA256_TAG| :: tag[i] == SHA256_TAG[i] as int;
  }

  lemma DigestDenotes(w: World, a: Option<Text>, b: Option<Text>)
    requires IsNfc(w.nfc) && EvidenceHash(w, a).Some? && EvidenceHash(w, b).Some?
    requires SameValue(w.nfc, OptionalText(EvidenceHash(w, a).value), OptionalText(EvidenceHash(w, b).value))
    ensures EvidenceHash(w, a) == EvidenceHash(w, b)
  {
    OptionalDenotes(w.nfc, EvidenceHash(w, a).value, EvidenceHash(w, b).value);
    if EvidenceHash(w, a).value.Some? {
      EvidenceHashAscii(w, a);
      EvidenceHashAscii(w, b);
    }
  }

  lemma LineHead(nfc: Normalizer, w: World, a: Row, b: Row)
    requires IsNfc(nfc) && SameValues(nfc, Values3(w, a)[..6], Values3(w, b)[..6])
    ensures a.sequence == b.sequence && a.previous == b.previous
    ensures nfc(w.isoformat(a.timestamp)) == nfc(w.isoformat(b.timestamp)) && nfc(a.verdict) == nfc(b.verdict)
    ensures nfc(a.telemetryId) == nfc(b.telemetryId) && nfc(a.telemetryHash) == nfc(b.telemetryHash)
  {
    var (xs, ys) := (Values3(w, a)[..6], Values3(w, b)[..6]);
    assert SameValue(nfc, xs[0], ys[0]) && SameValue(nfc, xs[1], ys[1]) && SameValue(nfc, xs[2], ys[2]);
    assert SameValue(nfc, xs[3], ys[3]) && SameValue(nfc, xs[4], ys[4]) && SameValue(nfc, xs[5], ys[5]);
    IntegerDenotes(nfc, a.sequence, b.sequence);
    HexDenotes(nfc, a.previous, b.previous);
    TextDenotes(nfc, w.isoformat(a.timestamp), w.isoformat(b.timestamp));
    TextDenotes(nfc, a.verdict, b.verdict);
    TextDenotes(nfc, a.telemetryId, b.telemetryId);
    TextDenotes(nfc, a.telemetryHash, b.telemetryHash);
  }

  lemma LineTail(nfc: Normalizer, w: World, a: Row, b: Row)
    requires SameValues(nfc, Values3(w, a)[6..], Values3(w, b)[6..])
    ensures Opt(nfc, a.ruleId) == Opt(nfc, b.ruleId) && Opt(nfc, a.kgVersion) == Opt(nfc, b.kgVersion)
    ensures nfc(a.modelVersion) == nfc(b.modelVersion) && Opt(nfc, a.reasoning) == Opt(nfc, b.reasoning)
    ensures Opt(nfc, a.track) == Opt(nfc, b.track)
  {
    var (xs, ys) := (Values3(w, a)[6..], Values3(w, b)[6..]);
    assert SameValue(nfc, xs[0], ys[0]) && SameValue(nfc, xs[1], ys[1]) && SameValue(nfc, xs[2], ys[2]);
    assert SameValue(nfc, xs[3], ys[3]) && SameValue(nfc, xs[4], ys[4]);
    OptionalDenotes(nfc, a.ruleId, b.ruleId);
    OptionalDenotes(nfc, a.kgVersion, b.kgVersion);
    TextDenotes(nfc, a.modelVersion, b.modelVersion);
    OptionalDenotes(nfc, a.reasoning, b.reasoning);
    OptionalDenotes(nfc, a.track, b.track);
  }

  lemma LineFromColumns(nfc: Normalizer, w: World, a: Row, b: Row)
    requires IsNfc(nfc) && SameValues(nfc, Values3(w, a), Values3(w, b))
    ensures AgreeLine(nfc, w, a, b)
  {
    LineHead(nfc, w, a, b);
    LineTail(nfc, w, a, b);
  }

  lemma EvidenceFromColumns(w: World, a: Row, b: Row, xs: seq<Json>, ys: seq<Json>)
    requires IsNfc(w.nfc) && HasEvidence(w, a) && HasEvidence(w, b)
    requires xs == EvidenceColumns(w, a) && ys == EvidenceColumns(w, b) && SameValues(w.nfc, xs, ys)
    ensures AgreeEvidence(w.nfc, w, a, b)
  {
    assert SameValue(w.nfc, xs[0], ys[0]) && SameValue(w.nfc, xs[1], ys[1]) && SameValue(w.nfc, xs[2], ys[2]);
    assert SameValue(w.nfc, xs[3], ys[3]) && SameValue(w.nfc, xs[4], ys[4]);
    DigestDenotes(w, a.envelope, b.envelope);
    DigestDenotes(w, a.transcript, b.transcript);
    OptionalDenotes(w.nfc, a.transcriptSignature, b.transcriptSignature);
    OptionalDenotes(w.nfc, a.signingKeyId, b.signingKeyId);
    OptionalDenotes(w.nfc, a.verifierStatus, b.verifierStatus);
  }

  lemma TenantFromColumns(nfc: Normalizer, a: Row, b: Row, xs: seq<Json>, ys: seq<Json>)
    requires xs == TenantColumns(a) && ys == TenantColumns(b) && SameValues(nfc, xs, ys)
    ensures AgreeTenant(nfc, a, b)
  {
    assert SameValue(nfc, xs[0], ys[0]) && SameValue(nfc, xs[1], ys[1]);
    assert SameValue(nfc, xs[2], ys[2]) && SameValue(nfc, xs[3], ys[3]);
    OptionalDenotes(nfc, a.tenantId, b.tenantId);
    OptionalDenotes(nfc, a.kgVersionHash, b.kgVersionHash);
    OptionalDenotes(nfc, a.modelWeightHash, b.modelWeightHash);
    OptionalDenotes(nfc, a.schemaVersion, b.schemaVersion);
  }

  lemma SubValues(nfc: Normalizer, xs: seq<Json>, ys: seq<Json>, lo: nat, hi: nat)
    requires SameValues(nfc, xs, ys) && lo <= hi <= |xs|
    ensures SameValues(nfc, xs[lo..hi], ys[lo..hi])
  {
    forall i | 0 <= i < hi - lo ensures SameValue(nfc, xs[lo..hi][i], ys[lo..hi][i]) {
      assert SameValue(nfc, xs[lo + i], ys[lo + i]);
    }
  }

  // ------------------------------------------------------- one format each

  lemma {:induction false} SameIsNeutral(v: Json)
    ensures NfcValues(Same, v) == v
  {
    match v
    case Arr(items) =>
      forall i | 0 <= i < |items| ensures NfcValues(Same, items[i]) == items[i] {
        SameIsNeutral(items[i]);
      }
      assert NfcItems(Same, items) == items;
    case Obj(ms) =>
      forall i | 0 <= i < |ms| ensures NfcValues(Same, ms[i].value) == ms[i].value {
        SameIsNeutral(ms[i].value);
      }
      assert NfcMembers(Same, ms) == ms;
    case _ =>
  }

  lemma LineAndEvidence(w: World, a: Row, b: Row, format: nat)
    requires IsNfc(w.nfc) && HasEvidence(w, a) && HasEvidence(w, b)
    requires SameValues(w.nfc, RowValues4(w, a, format), RowValues4(w, b, format))
    ensures AgreeLine(w.nfc, w, a, b) && AgreeEvidence(w.nfc, w, a, b)
  {
    var (xs, ys) := (RowValues4(w, a, format), RowValues4(w, b, format));
    SubValues(w.nfc, xs, ys, 1, 12);
    assert xs[1..12] == Values3(w, a) && ys[1..12] == Values3(w, b);
    LineFromColumns(w.nfc, w, a, b);
    SubValues(w.nfc, xs, ys, 12, 17);
    assert xs[12..17] == EvidenceColumns(w, a) && ys[12..17] == EvidenceColumns(w, b);
    EvidenceFromColumns(w, a, b, xs[12..17], ys[12..17]);
  }

  lemma AllColumns(w: World, a: Row, b: Row)
    requires IsNfc(w.nfc) && HasEvidence(w, a) && HasEvidence(w, b)
    requires SameValues(w.nfc, RowValues5(w, a), RowValues5(w, b))
    ensures AgreeLine(w.nfc, w, a, b) && AgreeEvidence(w.nfc, w, a, b) && AgreeTenant(w.nfc, a, b)
  {
    var (xs, ys) := (RowValues5(w, a), RowValues5(w, b));
    SubValues(w.nfc, xs, ys, 0, 17);
    assert xs[0..17] == RowValues4(w, a, 5) && ys[0..17] == RowValues4(w, b, 5);
    LineAndEvidence(w, a, b, 5);
    SubValues(w.nfc, xs, ys, 17, 21);
    assert xs[17..21] == TenantColumns(a) && ys[17..21] == TenantColumns(b);
    TenantFromColumns(w.nfc, a, b, xs[17..21], ys[17..21]);
  }

  /** Format 3 hashes the verdict line exactly as stored: one payload exactly for one line. */
  lemma V3Binds(w: World, a: Row, b: Row)
    requires Encodable(w, a) && Encodable(w, b)
    ensures Payload3(w, a) == Payload3(w, b) <==> AgreeLine(Same, w, a, b)
  {
    if Payload3(w, a) == Payload3(w, b) {
      V3Line(w, a, b);
    }
  }

  lemma V3Line(w: World, a: Row, b: Row)
    requires Encodable(w, a) && Encodable(w, b) && Payload3(w, a) == Payload3(w, b)
    ensures AgreeLine(Same, w, a, b)
  {
    NamesDistinct();
    ColumnsAreScalars(w, a);
    ColumnsAreScalars(w, b);
    EncodableRecord(w, a);
    EncodableRecord(w, b);
    RecordBinds(Same, NAMES3, Values3(w, a), Values3(w, b));
    LineFromColumns(Same, w, a, b);
  }

  lemma AcceptedLine(w: World, r: Row)
    requires Encodable(w, r)
    ensures Accepted(Obj(Record(NAMES3, Values3(w, r))))
  {
    var values := Values3(w, r);
    forall i | 0 <= i < |values| ensures Accepted(values[i]) {
      assert values[i] in values;
    }
    RecordAccepted(NAMES3, values);
  }

  lemma EncodableRecord(w: World, r: Row)
    requires Encodable(w, r)
    ensures Canonicalize(Same, Obj(Record(NAMES3, Values3(w, r)))) == Some(Payload3(w, r))
  {
    AcceptedLine(w, r);
    SameIsNeutral(Obj(Record(NAMES3, Values3(w, r))));
  }

  // --------------------------------------------------- values from columns

  lemma TextAgrees(nfc: Normalizer, a: Option<Text>, b: Option<Text>)
    requires Opt(nfc, a) == Opt(nfc, b)
    ensures SameValue(nfc, OptionalText(a), OptionalText(b))
  {
  }

  lemma HeadAgrees(nfc: Normalizer, w: World, a: Row, b: Row)
    requires AgreeLine(nfc, w, a, b)
    ensures SameValues(nfc, Values3(w, a)[..6], Values3(w, b)[..6])
  {
  }

  lemma TailAgrees(nfc: Normalizer, w: World, a: Row, b: Row)
    requires AgreeLine(nfc, w, a, b)
    ensures SameValues(nfc, Values3(w, a)[6..], Values3(w, b)[6..])
  {
    TextAgrees(nfc, a.ruleId, b.ruleId);
    TextAgrees(nfc, a.kgVersion, b.kgVersion);
    TextAgrees(nfc, a.reasoning, b.reasoning);
    TextAgrees(nfc, a.track, b.track);
  }

  lemma SameValuesConcat(nfc: Normalizer, xs: seq<Json>, ys: seq<Json>, us: seq<Json>, vs: seq<Json>)
    requires SameValues(nfc, xs, ys) && SameValues(nfc, us, vs)
    ensures SameValues(nfc, xs + us, ys + vs)
  {
  }

  lemma LineAgrees(nfc: Normalizer, w: World, a: Row, b: Row)
    requires AgreeLine(nfc, w, a, b)
    ensures SameValues(nfc, Values3(w, a), Values3(w, b))
  {
    var (xs, ys) := (Values3(w, a), Values3(w, b));
    HeadAgrees(nfc, w, a, b);
    TailAgrees(nfc, w, a, b);
    SameValuesConcat(nfc, xs[..6], ys[..6], xs[6..], ys[6..]);
    assert xs == xs[..6] + xs[6..] && ys == ys[..6] + ys[6..];
  }

  lemma EvidenceAgrees(w: World, a: Row, b: Row)
    requires HasEvidence(w, a) && HasEvidence(w, b) && AgreeEvidence(w.nfc, w, a, b)
    ensures SameValues(w.nfc, EvidenceColumns(w, a), EvidenceColumns(w, b))
  {
    TextAgrees(w.nfc, a.transcriptSignature, b.transcriptSignature);
    TextAgrees(w.nfc, a.signingKeyId, b.signingKeyId);
    TextAgrees(w.nfc, a.verifierStatus, b.verifierStatus);
  }

  lemma TenantAgrees(nfc: Normalizer, a: Row, b: Row)
    requires AgreeTenant(nfc, a, b)
    ensures SameValues(nfc, TenantColumns(a), TenantColumns(b))
  {
    TextAgrees(nfc, a.tenantId, b.tenantId);
    TextAgrees(nfc, a.kgVersionHash, b.kgVersionHash);
    TextAgrees(nfc, a.modelWeightHash, b.modelWeightHash);
    TextAgrees(nfc, a.schemaVersion, b.schemaVersion);
  }

  lemma TaggedAgrees(w: World, a: Row, b: Row, format: nat)
    requires HasEvidence(w, a) && HasEvidence(w, b) && AgreeLine(w.nfc, w, a, b) && AgreeEvidence(w.nfc, w, a, b)
    ensures SameValues(w.nfc, RowValues4(w, a, format), RowValues4(w, b, format))
  {
    LineAgrees(w.nfc, w, a, b);
    EvidenceAgrees(w, a, b);
    var tag := [Integer(format)];
    SameValuesConcat(w.nfc, tag, tag, Values3(w, a), Values3(w, b));
    SameValuesConcat(w.nfc, tag + Values3(w, a), tag + Values3(w, b), EvidenceColumns(w, a), EvidenceColumns(w, b));
  }

  // -------------------------------------------------- what formats 4 and 5 bind

  lemma V4Agrees(w: World, a: Row, b: Row)
    requires IsNfc(w.nfc) && HasEvidence(w, a) && HasEvidence(w, b)
    requires AgreeLine(w.nfc, w, a, b) && AgreeEvidence(w.nfc, w, a, b)
    ensures EvidencePayload4(w, a) == EvidencePayload4(w, b)
  {
    NamesDistinct();
    ColumnsAreScalars(w, a);
    ColumnsAreScalars(w, b);
    TaggedAgrees(w, a, b, 4);
    RecordsAgree(w.nfc, NAMES4, RowValues4(w, a, 4), RowValues4(w, b, 4));
  }

  lemma V4Columns(w: World, a: Row, b: Row)
    requires IsNfc(w.nfc) && HasEvidence(w, a) && HasEvidence(w, b)
    requires EvidencePayload4(w, a).Some? && EvidencePayload4(w, a) == EvidencePayload4(w, b)
    ensures AgreeLine(w.nfc, w, a, b) && AgreeEvidence(w.nfc, w, a, b)
  {
    NamesDistinct();
    ColumnsAreScalars(w, a);
    ColumnsAreScalars(w, b);
    RecordBinds(w.nfc, NAMES4, RowValues4(w, a, 4), RowValues4(w, b, 4));
    LineAndEvidence(w, a, b, 4);
  }

  /** Format 4 hashes line and evidence after NFC: one payload exactly for rows that agree up to NFC. */
  lemma V4Binds(w: World, a: Row, b: Row)
    requires IsNfc(w.nfc) && HasEvidence(w, a) && HasEvidence(w, b) && EvidencePayload4(w, a).Some?
    ensures EvidencePayload4(w, a) == EvidencePayload4(w, b) <==>
            AgreeLine(w.nfc, w, a, b) && AgreeEvidence(w.nfc, w, a, b)
  {
    if EvidencePayload4(w, a) == EvidencePayload4(w, b) {
      V4Columns(w, a, b);
    }
    if AgreeLine(w.nfc, w, a, b) && AgreeEvidence(w.nfc, w, a, b) {
      V4Agrees(w, a, b);
    }
  }

  lemma V5Agrees(w: World, a: Row, b: Row)
    requires IsNfc(w.nfc) && HasEvidence(w, a) && HasEvidence(w, b)
    requires AgreeLine(w.nfc, w, a, b) && AgreeEvidence(w.nfc, w, a, b) && AgreeTenant(w.nfc, a, b)
    ensures EvidencePayload5(w, a) == EvidencePayload5(w, b)
  {
    NamesDistinct();
    ColumnsAreScalars(w, a);
    ColumnsAreScalars(w, b);
    TaggedAgrees(w, a, b, 5);
    TenantAgrees(w.nfc, a, b);
    SameValuesConcat(w.nfc, RowValues4(w, a, 5), RowValues4(w, b, 5), TenantColumns(a), TenantColumns(b));
    RecordsAgree(w.nfc, NAMES5, RowValues5(w, a), RowValues5(w, b));
  }

  lemma V5Columns(w: World, a: Row, b: Row)
    requires IsNfc(w.nfc) && HasEvidence(w, a) && HasEvidence(w, b)
    requires EvidencePayload5(w, a).Some? && EvidencePayload5(w, a) == EvidencePayload5(w, b)
    ensures AgreeLine(w.nfc, w, a, b) && AgreeEvidence(w.nfc, w, a, b) && AgreeTenant(w.nfc, a, b)
  {
    NamesDistinct();
    ColumnsAreScalars(w, a);
    ColumnsAreScalars(w, b);
    RecordBinds(w.nfc, NAMES5, RowValues5(w, a), RowValues5(w, b));
    AllColumns(w, a, b);
  }

  /** Format 5 hashes the tenant columns as well. */
  lemma V5Binds(w: World, a: Row, b: Row)
    requires IsNfc(w.nfc) && HasEvidence(w, a) && HasEvidence(w, b) && EvidencePayload5(w, a).Some?
    ensures EvidencePayload5(w, a) == EvidencePayload5(w, b) <==>
            AgreeLine(w.nfc, w, a, b) && AgreeEvidence(w.nfc, w, a, b) && AgreeTenant(w.nfc, a, b)
  {
    if EvidencePayload5(w, a) == EvidencePayload5(w, b) {
      V5Columns(w, a, b);
    }
    if AgreeLine(w.nfc, w, a, b) && AgreeEvidence(w.nfc, w, a, b) && AgreeTenant(w.nfc, a, b) {
      V5Agrees(w, a, b);
    }
  }

  lemma Respelled(w: World, r: Row, t: Text, u: Text)
    requires IsNfc(w.nfc) && HasEvidence(w, r) && r.reasoning == Some(t) && w.nfc(t) == w.nfc(u)
    ensures var s := r.(reasoning := Some(u));
            && HasEvidence(w, s) && AgreeLine(w.nfc, w, s, r) && AgreeEvidence(w.nfc, w, s, r)
            && AgreeTenant(w.nfc, s, r)
  {
  }

  lemma FormatKept(w: World, r: Row, s: Row)
    requires HasEvidence(w, r) && HasEvidence(w, s) && s.entryHash == r.entryHash
    requires s.tenantId == r.tenantId && s.schemaVersion == r.schemaVersion
    requires EvidencePayload4(w, s) == EvidencePayload4(w, r) && EvidencePayload5(w, s) == EvidencePayload5(w, r)
    ensures EntryFormat(w, r) >= 4 ==> EntryFormat(w, s) == EntryFormat(w, r)
  {
  }

  /**
   Two spellings of one text: replacing one by the other keeps the payloads of
   formats 4 and 5, so the stored hash still verifies, and changes that of format 3.
   */
  lemma SpellingNotBound(w: World, r: Row, t: Text, u: Text)
    requires IsNfc(w.nfc) && HasEvidence(w, r) && r.reasoning == Some(t) && t != u && w.nfc(t) == w.nfc(u)
    ensures var s := r.(reasoning := Some(u));
            && s != r
            && EvidencePayload4(w, s) == EvidencePayload4(w, r) && EvidencePayload5(w, s) == EvidencePayload5(w, r)
            && (EntryFormat(w, r) >= 4 ==> EntryFormat(w, s) == EntryFormat(w, r))
            && (Encodable(w, r) && Encodable(w, s) ==> Payload3(w, s) != Payload3(w, r))
  {
    var s := r.(reasoning := Some(u));
    Respelled(w, r, t, u);
    V4Agrees(w, s, r);
    V5Agrees(w, s, r);
    FormatKept(w, r, s);
    if Encodable(w, r) && Encodable(w, s) {
      V3Binds(w, s, r);
    }
  }

  // -------------------------------------------- formats cannot be confused

  const TAG: string := "ledger_format"

  lemma NoTag(names: seq<string>, values: seq<Json>, tag: string)
    requires |values| == |names| && Distinct(names) && forall i | 0 <= i < |names| :: names[i] != tag
    ensures T(tag) !in DenoteMembers(Record(names, values))
  {
    var ms := Record(names, values);
    RecordDistinct(names, values);
    KeyOfMember(ms, T(tag));
    forall m | m in ms ensures m.name != T(tag) {
      var i :| 0 <= i < |ms| && ms[i] == m;
      if T(names[i]) == T(tag) {
        TInjective(names[i], tag);
      }
    }
  }

  lemma TagNotIn3()
    ensures forall i | 0 <= i < |NAMES3| :: NAMES3[i] != TAG
  {
  }

  /** The JSON object a payload of formats 4 and 5 is the canonical form of. */
  lemma TaggedObject(nfc: Normalizer, names: seq<string>, values: seq<Json>, format: nat) returns (x: Json)
    requires names == NAMES4 || names == NAMES5
    requires |names| == |values| && Scalars(values) && values[0] == Integer(format)
    requires Canonicalize(nfc, Obj(Record(names, values))).Some?
    ensures x.Obj? && Accepted(x) && IsMapping(x)
    ensures JcsBytes(x) == Canonicalize(nfc, Obj(Record(names, values))).value
    ensures T(TAG) in DenoteMembers(x.members) && DenoteMembers(x.members)[T(TAG)] == Denote(Integer(format))
  {
    NamesDistinct();
    x := NfcValues(nfc, Obj(Record(names, values)));
    RecordIsMapping(names, values);
    NfcIsMapping(nfc, Obj(Record(names, values)));
    NfcRecord(nfc, names, values);
    RecordAt(names, NfcItems(nfc, values), 0);
  }

  lemma DifferentTags(x: Json, y: Json, m: nat, n: nat)
    requires x.Obj? && y.Obj? && Accepted(x) && Accepted(y) && IsMapping(x) && IsMapping(y) && m != n
    requires T(TAG) in DenoteMembers(x.members) && DenoteMembers(x.members)[T(TAG)] == Denote(Integer(m))
    requires T(TAG) !in DenoteMembers(y.members) || DenoteMembers(y.members)[T(TAG)] == Denote(Integer(n))
    ensures JcsBytes(x) != JcsBytes(y)
  {
    if JcsBytes(x) == JcsBytes(y) {
      JcsComplete(x, y);
      assert NfcValues(Same, Integer(m)) == Integer(m) && NfcValues(Same, Integer(n)) == Integer(n);
      IntegerDenotes(Same, m, n);
    }
  }

  lemma PayloadObject(w: World, r: Row, f: nat) returns (x: Json)
    requires Encodable(w, r) && HasPayload(w, r, f)
    ensures x.Obj? && Accepted(x) && IsMapping(x) && JcsBytes(x) == PayloadAs(w, r, f)
    ensures f == 3 ==> T(TAG) !in DenoteMembers(x.members)
    ensures f > 3 ==> T(TAG) in DenoteMembers(x.members) && DenoteMembers(x.members)[T(TAG)] == Denote(Integer(f))
  {
    ColumnsAreScalars(w, r);
    NamesDistinct();
    if f == 3 {
      x := Obj(Record(NAMES3, Values3(w, r)));
      AcceptedLine(w, r);
      RecordIsMapping(NAMES3, Values3(w, r));
      TagNotIn3();
      NoTag(NAMES3, Values3(w, r), TAG);
    } else if f == 4 {
      x := TaggedObject(w.nfc, NAMES4, RowValues4(w, r, 4), 4);
    } else {
      x := TaggedObject(w.nfc, NAMES5, RowValues5(w, r), 5);
    }
  }

  lemma LowerFormatDiffers(w: World, a: Row, f: nat, b: Row, g: nat)
    requires Encodable(w, a) && Encodable(w, b) && HasPayload(w, a, f) && HasPayload(w, b, g) && f < g
    ensures PayloadAs(w, a, f) != PayloadAs(w, b, g)
  {
    var x := PayloadObject(w, a, f);
    var y := PayloadObject(w, b, g);
    DifferentTags(y, x, g, f);
  }

  /** Payloads of different formats are different bytes. */
  lemma FormatsDiffer(w: World, a: Row, f: nat, b: Row, g: nat)
    requires Encodable(w, a) && Encodable(w, b) && HasPayload(w, a, f) && HasPayload(w, b, g)
    requires PayloadAs(w, a, f) == PayloadAs(w, b, g)
    ensures f == g
  {
    if f < g {
      LowerFormatDiffers(w, a, f, b, g);
    } else if g < f {
      LowerFormatDiffers(w, b, g, a, f);
    }
  }

  /** A row has the one format that reproduces its hash, or two of its payloads collide. */
  lemma FormatIsUnique(w: World, r: Row, f: nat)
    requires Encodable(w, r) && Reproduces(w, r, f) && Tried(w, r, f)
    ensures EntryFormat(w, r) != 0
    ensures EntryFormat(w, r) == f || Collides(w.sha, Payload(w, r), PayloadAs(w, r, f))
  {
    FormatFound(w, r);
    if Payload(w, r) == PayloadAs(w, r, f) {
      FormatsDiffer(w, r, EntryFormat(w, r), r, f);
    }
  }

  /** One stored hash, two verified rows: they agree on all they chain, or their payloads collide. */
  lemma HashBinds(w: World, a: Row, b: Row)
    requires IsNfc(w.nfc) && Encodable(w, a) && Encodable(w, b)
    requires EntryFormat(w, a) != 0 && EntryFormat(w, b) != 0 && a.entryHash == b.entryHash
    ensures || Collides(w.sha, Payload(w, a), Payload(w, b))
            || (EntryFormat(w, a) == EntryFormat(w, b) && AgreeChained(EntryFormat(w, a), w, a, b))
  {
    if Payload(w, a) == Payload(w, b) {
      var f := EntryFormat(w, a);
      FormatsDiffer(w, a, f, b, EntryFormat(w, b));
      if f == 3 {
        V3Binds(w, a, b);
      } else if f == 4 {
        V4Binds(w, a, b);
      } else {
        V5Binds(w, a, b);
      }
    }
  }

  // ------------------------------------------------------ stored evidence

  /** json.loads with the duplicate check returns mappings. */
  ghost predicate ParsesMappings(w: World) {
    forall t :: w.parse(t).Some? ==> IsMapping(w.parse(t).value)
  }

  /** The canonical bytes whose digest stands for a stored JSON text. */
  function EvidenceBytes(w: World, text: Text): Bytes
    requires EvidenceHash(w, Some(text)).Some?
  {
    Canonicalize(w.nfc, w.parse(text).value).value
  }

  /** Two JSON texts with one evidence digest hold the same value up to NFC of strings, or collide. */
  lemma EvidenceBinds(w: World, x: Text, y: Text)
    requires ParsesMappings(w)
    requires EvidenceHash(w, Some(x)).Some? && EvidenceHash(w, Some(x)) == EvidenceHash(w, Some(y))
    ensures || Collides(w.sha, EvidenceBytes(w, x), EvidenceBytes(w, y))
            || Denote(NfcValues(w.nfc, w.parse(x).value)) == Denote(NfcValues(w.nfc, w.parse(y).value))
  {
    var (p, q) := (EvidenceBytes(w, x), EvidenceBytes(w, y));
    CancelLeft(T(SHA256_TAG), Hex(w.sha(p)), Hex(w.sha(q)));
    HexInjective(w.sha(p), w.sha(q));
    if p == q {
      CanonicalizeComplete(w.nfc, w.parse(x).value, w.parse(y).value);
    }
  }
}
