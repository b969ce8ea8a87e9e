# Dafny model of the SKI Framework's evidence and evaluation core

The SKI Framework evaluates measurements against a signed Knowledge Graph with a
language model that nothing trusts, and records every verdict in a hash-chained
ledger. This project models the parts that carry its promises and proves them:

* **Merkle checkpoints** (`Merkle.dfy`): tree head, audit path and the
  bit-shifting proof check of section 2.1 of RFC 9162.
* **Canonical JSON** (`Unicode`, `Numbers`, `Strings`, `Canonical`,
  `CanonicalText`, `Canonicalizers`, `JsonReader`, `SecondCanonicalizer`): RFC 8785
  plus NFC of string values, as a serializer over an output buffer; a reader of
  JSON text that takes it back; and the independent second implementation.
* **The ledger** (`LedgerFormat`, `LedgerBinding`, `LedgerMessages`, `Audit`,
  `TamperEvidence`, `SignedEvidence`, `LedgerClient`, `LedgerRecord`,
  `LedgerEvidence`, `LedgerTime`): three payload formats and what a reader finds
  in them, the `verify_integrity` loop, tamper evidence from hashes, checkpoints
  and signatures, and the writer as a state machine with a two-transaction
  checkpoint.
* **The verifier and evaluator** (`Values`, `Predicates`, `Grounding`,
  `Verifier`, `VerifierTheorems`, `Normalisation`, `Evaluator`,
  `EvaluatorTheorems`, `EvaluatorOutcome`, `RiskTier`): an arbitrary model
  response through guards, normalisation, tally, policy and fail-closed floor:
  what can never ship, and exactly when a verdict does.
* **The Knowledge Graph** (`Descendants`, `KgGraph`, `KgCompiler`, `KgScope`,
  `KgReach`, `KgValidator`, `KgAgreement`): compilation, scoping as reachability
  in the graph, and the authoring-time validator.
* **Telemetry, replay and prompt** (`Telemetry`, `Replay`, `Prompt`), and two
  kernels: DER framing (`Der`) and text chunking (`Chunking`).

`dafny verify dfyconfig.toml` checks everything.

## How foreign code appears

SHA-256 is an arbitrary function to 32-byte digests. No theorem assumes it is
free of collisions: where the source relies on that, the conclusion offers two
explicit messages that collide (`Forgery`, `RootCollision`, two payloads of one
row position). NFC is any function that is idempotent, leaves ASCII alone and
neither adds nor removes lone surrogates (`IsNfc`). Ed25519 is a relation that
accepts what the registered key signs (`Registered`); the theorems about
signatures add that the owner's key verifies nothing its owner did not sign, and
that the owner signs no third kind of message that reads as one of the two kinds
(`OnlySigned`). `json.dumps` and
`json.loads` of a prompt are any functions; a theorem about one prompt assumes
that its own two objects are written on one line and read back (`Faithful`). The
text of an instant is any function, and another one in the auditor's session
(`ReadBack`). Doubles are exact reals; `repr` is any digit text of the value. The
risk policy is an arbitrary function except where a theorem names its hypothesis
(`OnlyLowers`) or uses the runtime's own policy (`RiskTier`).

## What the proofs found

* `root_from_inclusion_proof` in the black-box checker refuses only
  `leaf_index >= tree_size`: into a tree that has entries every negative index is
  let through, and read modulo the size of the perfect tree (`NegativeIndexAccepted`, `NegativeIndexWraps`,
  `NegativeIndexProves`). `ski_schemas.merkle.verify_inclusion` refuses them.
* An empty ledger is reported valid before any checkpoint is looked at, so
  stored or exported checkpoints reveal every cut below them but the one that
  leaves nothing (`TruncationUnnoticedExactlyWhen`).
* Formats 4 and 5 chain text columns up to NFC only; format 3 chains them
  exactly (`V3Binds`, `V4Binds`, `V5Binds`, `SpellingNotBound`).
* `LedgerClient.evidence` speaks of the latest checkpoint covering an entry but
  selects `MIN(tree_size)`: the two differ as soon as a second checkpoint covers
  the entry (`LatestExactlyWhen`, `TwoCheckpoints`), and the evidence for an
  entry never changes again (`EvidenceIsFinal`).
* An entry hash covers the text of an instant that the database stores as an
  instant. An audit whose session reads it back as another text, as in another
  time zone than the writer's UTC, fails an untouched ledger
  (`RunsPassExactlyWhen`).
* The server buffers a record before evaluating it, so the freshness gate always
  finds that record's own sample: on the server's path it never says
  `NULL_STALE` unless buffering failed (`ServerGateNeverStale`,
  `GateStaleExactlyWhen`); then the entry does not replay either
  (`UnbufferedEntryMismatches`).
* `window_query` excludes a sample exactly `window_seconds` old and
  `has_fresh_sample` includes it (`NonEmptyWindowIsFresh`).
* The comment in `chunk_text` says `overlap < max_chunk_size` guarantees
  progress. It does not: the loop ends on all texts exactly if
  `overlap <= max_chunk_size // 2 + 1` (`FinishesExactlyWhen`, `StallExample`).
  Beyond that a start can lie before the text, where the slice is empty and text
  is lost (`LosslessExactlyWhen`). A chunk may hold one character more than the
  maximum (`LimitExceededExactlyWhen`).
* The validator's first duplicate loop runs over the keys of a dictionary and
  never reports; an id shared by two lists passes it and is refused by the
  compiler (`CheckDuplicateKeys`, `SharedIdIsClean`, `SharedIdIsRefused`).
* In `ReplayReport.is_clean` the comparison of replayed with matched entries
  follows from the other two conditions (`ReplayReport.Run`).

## Model

| member | source | states |
|---|---|---|
| Merkle.ComputeSplit | conformance/blackbox/checkers.py:160-162 | the doubling loop finds the split of RFC 9162: the power of two k with k < n <= 2k |
| Merkle.RootFromInclusionProof | conformance/blackbox/checkers.py:168-191 | the nested shift loops compute ImpliedRoot, with its three refusals, for every index and path |
| Merkle.LoopFollowsTree | conformance/blackbox/checkers.py:157-191 | the bottom-up bit loop is the top-down recursion of the tree head, for every path |
| Merkle.AuditPathVerifies | tools/ski-schemas/src/ski_schemas/merkle.py:86-100 | completeness: every audit path is accepted and implies exactly the tree head |
| Merkle.AcceptedLength | conformance/blackbox/checkers.py:176-191 | a path is accepted iff it has the length of the audit path |
| Merkle.DepthBound | conformance/blackbox/checkers.py:176-191 | no accepted path is longer than the rounded-up base-2 logarithm of the tree size |
| Merkle.SmallTrees | tools/ski-schemas/src/ski_schemas/merkle.py:50-83 | the heads of the first trees written out: leaves hashed behind 0, inner nodes behind 1, left child first, the empty tree as the digest of nothing |
| Merkle.InclusionSound | conformance/blackbox/checkers.py:152-191 | soundness: a path implying the head proves exactly entry i by exactly its audit path, or two named messages collide |
| Merkle.CheckInclusion | tools/ski-schemas/src/ski_schemas/merkle.py:103-128 | the second checker, with its own loops, computes VerifyInclusion: an index inside the tree and the same implied head |
| Merkle.VerifiedExactly | tools/ski-schemas/src/ski_schemas/merkle.py:103-128 | it accepts every audit path at its own index, and nothing else unless two named messages collide |
| Merkle.RootBinds | tools/ski-schemas/src/ski_schemas/merkle.py:72-83 | one head and size fix the whole list of entries, or two named messages collide |
| Merkle.NegativeIndexAccepted | conformance/blackbox/checkers.py:172-191 | for every negative index and every tree size: accepted iff the tree has entries and the path as many nodes as treeSize - 1 has bits; merkle.py refuses them all |
| Merkle.NegativeIndexWraps | conformance/blackbox/checkers.py:176-191 | for every entry and path, a negative index is read modulo the size of the perfect tree with as many levels |
| Merkle.NegativeIndexProves | conformance/blackbox/checkers.py:168-191 | for every tree: such a proof of the head proves entry i mod P, inside the tree and on its lowest level, by its audit path, or two named messages collide; and every such entry is proved |
| Unicode.Utf8Injective | tools/ski-schemas/src/ski_schemas/canonical.py:277-281 | UTF-8 encoding never merges two texts |
| Unicode.Utf8Decodes | tools/ski-schemas/src/ski_schemas/canonical.py:277-281 | a decoder of UTF-8, written from its own rules, reads every encoded text back |
| Unicode.NameLessIsUnitOrder | tools/ski-schemas/src/ski_schemas/canonical.py:228-231 | bytewise order of UTF-16BE is the order of UTF-16 code units |
| Unicode.UnitsDecode | tools/ski-schemas/src/ski_schemas/canonical.py:228-231 | the UTF-16 code units, surrogate pairs included, decode to the text |
| Unicode.LexLessMeans | tools/ski-schemas/src/ski_schemas/canonical.py:228-231 | one name precedes another iff it is smaller at the first differing code unit, or a prefix |
| Unicode.NameLessTotal | tools/ski-schemas/src/ski_schemas/canonical.py:228-231 | that order is total: two different names are always ordered |
| Numbers.ShortestDigitsExact | tools/ski-schemas/src/ski_schemas/canonical.py:149-166 | stripping zeros keeps the value 0.digits * 10^n and leaves no zero at either end |
| Numbers.ScaledInjective | tools/ski-schemas/src/ski_schemas/canonical.py:149-166 | a value has one normalised digit string and exponent |
| Numbers.LayoutExact | tools/ski-schemas/src/ski_schemas/canonical.py:185-194 | each of the four layouts is a number of section 6 of RFC 8259 denoting exactly 0.digits * 10^n |
| Numbers.NumberTextExact | tools/ski-schemas/src/ski_schemas/canonical.py:169-195 | the number text, sign and zero included, reads back as exactly the value |
| Numbers.NumberTextIffValue | tools/ski-schemas/src/ski_schemas/canonical.py:169-195 | two numbers have one text iff they have one value |
| Numbers.NotationByMagnitude | tools/ski-schemas/src/ski_schemas/canonical.py:185-194 | exponent notation is used iff the value lies outside [10^-6, 10^21) |
| Numbers.NoSuperfluousDigit | tools/ski-schemas/src/ski_schemas/canonical.py:149-195 | no number text carries a leading or trailing zero it could do without |
| Numbers.ExponentForm | tools/ski-schemas/src/ski_schemas/canonical.py:190-194 | an exponent is written with one digit before the point, the letter e, a sign, and no leading zero |
| Strings.QuotedSplit | tools/ski-schemas/src/ski_schemas/canonical.py:212-225 | escaped strings are self-delimiting: equal texts, whatever follows, mean equal strings |
| Strings.BodyClean | tools/ski-schemas/src/ski_schemas/canonical.py:212-225 | escaped text holds no control character and no lone surrogate |
| Strings.BodyCloses | tools/ski-schemas/src/ski_schemas/canonical.py:212-225 | no raw quote: a reader that skips escapes meets the first quote at the very end of the literal |
| Strings.QuotedReads | tools/ski-schemas/src/ski_schemas/canonical.py:113-121 | a reader of JSON strings (section 7 of RFC 8259) reads every written literal back as exactly its text, whatever follows |
| Strings.EscapeIsShortest | tools/ski-schemas/src/ski_schemas/canonical.py:113-121 | no escape is longer than need be: what can stand for itself does, and what has a two-character escape uses it |
| Strings.SerializeString | tools/ski-schemas/src/ski_schemas/canonical.py:203-225 | the loop refuses lone surrogates and otherwise writes the literal that QuotedReads reads back |
| CanonicalText.SortedNamesIncrease | tools/ski-schemas/src/ski_schemas/canonical.py:250-257 | sorting keeps exactly the members and makes their names strictly increase, so the order is unique |
| CanonicalText.UniqueValue | tools/ski-schemas/src/ski_schemas/canonical.py:239-274 | canonical text is prefix-free across all node kinds: what follows cannot blur two values |
| CanonicalText.SameText | tools/ski-schemas/src/ski_schemas/canonical.py:239-274 | equal values, whatever their insertion order, have one text |
| CanonicalText.JcsComplete | tools/ski-schemas/src/ski_schemas/canonical.py:277-281 | canonical bytes are equal iff the values are: numbers by value, objects as maps, names never merged |
| Canonicalizers.Serialize | tools/ski-schemas/src/ski_schemas/canonical.py:239-274 | the appending serializer writes exactly the canonical text, and fails exactly on values without one |
| Canonicalizers.JcsCanonicalize | tools/ski-schemas/src/ski_schemas/canonical.py:277-281 | bytes exactly for accepted values, the bytes that BytesReadBack reads as the value |
| Canonicalizers.CanonicalizeComplete | tools/ski-schemas/src/ski_schemas/canonical.py:284-303 | canonicalize is injective up to NFC of string values, member names untouched |
| Canonicalizers.NfcIdempotent | tools/ski-schemas/src/ski_schemas/canonical.py:284-298 | normalising twice is normalising once, and keeps acceptance |
| Canonicalizers.CanonicalizeIdempotent | tools/ski-schemas/src/ski_schemas/canonical.py:301-303 | a stored normalised value hashes like the value it came from |
| JsonReader.BytesReadBack | tools/ski-schemas/src/ski_schemas/canonical.py:239-281 | a reader of JSON text, written from RFC 8259 and RFC 7493, reads the canonical bytes of every accepted value as that value |
| JsonReader.CanonicalizeReads | tools/ski-schemas/src/ski_schemas/canonical.py:284-303 | what canonicalize writes is a JSON text of the value with its strings in NFC |
| SecondCanonicalizer.SecondNumberAgrees | conformance/blackbox/checkers.py:35-63 | the independent number writer emits the same text |
| SecondCanonicalizer.CanonicalizersAgree | conformance/blackbox/checkers.py:84-107 | the independent canonicalizer accepts the same values and emits the same bytes |
| LedgerFormat.HexInjective | tools/ski-schemas/src/ski_schemas/ledger.py:88-96 | hex text fixes the digest |
| LedgerFormat.HexReads | tools/ski-schemas/src/ski_schemas/ledger.py:88-96 | hex text is read back as the digest, and has no upper-case digit |
| LedgerFormat.EvidenceIsNamed | tools/ski-schemas/src/ski_schemas/ledger.py:88-96 | an evidence hash is "sha256:" and, in hex, the digest of the canonical form of the stored text |
| LedgerFormat.GenesisIsZeros | tools/audit-ledger/src/audit_ledger/ledger.py:51 | the previous hash of the first entry reads as 64 zeros |
| LedgerFormat.Format5Exactly | tools/audit-ledger/src/audit_ledger/ledger.py:249-258 | a row verifies in format 5 iff it has tenant, schema version and evidence, and that payload reproduces its hash |
| LedgerFormat.RecordBinds | tools/ski-schemas/src/ski_schemas/ledger.py:99-180 | equal canonical records have equal normalised columns |
| LedgerFormat.RecordsAgree | tools/ski-schemas/src/ski_schemas/ledger.py:99-180 | records whose columns agree after NFC have one canonical form, or none |
| LedgerFormat.EntryFormat | tools/audit-ledger/src/audit_ledger/ledger.py:226-296 | a row has format 3, 4 or 5, whose payload then reproduces its hash, or none |
| LedgerFormat.FormatFound | tools/audit-ledger/src/audit_ledger/ledger.py:226-296 | a row is refused iff no format that is tried reproduces its hash; format 4 is not tried where building payload 5 raises |
| LedgerBinding.V3Binds | reference-implementation/src/ski_model/ledger_client.py:44-76 | two rows have one format-3 payload iff their verdict lines are exactly equal |
| LedgerBinding.V4Binds | tools/ski-schemas/src/ski_schemas/ledger.py:140-180 | two rows have one format-4 payload iff verdict lines and evidence agree up to NFC |
| LedgerBinding.V5Binds | tools/ski-schemas/src/ski_schemas/ledger.py:183-232 | two rows have one format-5 payload iff verdict lines, evidence and tenant columns agree up to NFC |
| LedgerBinding.SpellingNotBound | tools/ski-schemas/src/ski_schemas/ledger.py:140-232 | respelling a text NFC-equivalently keeps payloads 4 and 5 and the verified format, and changes payload 3 |
| LedgerBinding.FormatsDiffer | tools/ski-schemas/src/ski_schemas/ledger.py:37-39 | payloads of different formats, of any two rows, are never the same bytes |
| LedgerBinding.FormatIsUnique | tools/audit-ledger/src/audit_ledger/ledger.py:226-296 | a row has the one format that reproduces its hash, or two of its payloads collide |
| LedgerBinding.HashBinds | tools/audit-ledger/src/audit_ledger/ledger.py:222-296 | one stored hash, two verified rows: same format and same chained columns, or their payloads collide |
| LedgerBinding.EvidenceBinds | tools/ski-schemas/src/ski_schemas/ledger.py:88-96 | one evidence digest: one JSON value up to NFC of strings, or a named collision |
| LedgerMessages.StatementReads | tools/ski-schemas/src/ski_schemas/merkle.py:131-145 | the signed bytes of a checkpoint are a JSON object of six members that name format, tenant, size, root, last hash and time |
| LedgerMessages.SigningReads | tools/ski-schemas/src/ski_schemas/ledger.py:235-247 | the signed bytes of a verdict are a JSON object of five members that name purpose, position, entry hash, telemetry and transcript |
| LedgerMessages.Payload3Reads | reference-implementation/src/ski_model/ledger_client.py:44-76 | the format-3 payload is a JSON object that holds each column of the verdict line under its name |
| LedgerMessages.Payload4Reads | tools/ski-schemas/src/ski_schemas/ledger.py:140-180 | the format-4 payload holds its tag, the verdict line and the evidence, each under its name |
| LedgerMessages.Payload5Reads | tools/ski-schemas/src/ski_schemas/ledger.py:183-232 | the format-5 payload holds all that and the tenant columns, each under its name |
| Audit.LoadKeyRing | tools/audit-ledger/src/audit_ledger/evidence.py:81-93 | the ring holds only keys that hash to their own id, and is free of bad rows iff every row does |
| Audit.KeyIdNames | tools/audit-ledger/src/audit_ledger/evidence.py:46-47 | a key id is "sha256:" and, in hex, the digest of the raw public key |
| Audit.CheckOne | tools/audit-ledger/src/audit_ledger/evidence.py:133-184 | no issue iff the checkpoint is signed, trusted, inside the ledger and matches root and last hash; else exactly the first of the four problems |
| Audit.ExportedNeedsNoRing | tools/audit-ledger/src/audit_ledger/evidence.py:145-148 | an exported checkpoint is checked with the key it carries, whatever the key table holds |
| Audit.VerifyCheckpoints | tools/audit-ledger/src/audit_ledger/evidence.py:187-219 | every checkpoint is counted verified or reported; no issue iff all hold |
| Audit.RatchetByMax | tools/audit-ledger/src/audit_ledger/ledger.py:297-314 | a running maximum decides the comparison with every earlier format |
| Audit.CheckEvidence | tools/audit-ledger/src/audit_ledger/ledger.py:317-368 | evidence column and verdict signature: no issue iff both hold for the format, else exactly the issues that apply |
| Audit.VerifyIntegrity | tools/audit-ledger/src/audit_ledger/ledger.py:128-447 | valid iff empty or every row is linked, ratcheted and evidenced, all keys match their ids and all checkpoints hold; on every ledger the issues are exactly the problems of its rows, keys and checkpoints, each kind at its place, and the three counters count the chained, the ratcheted and the signed rows |
| Audit.Audit | tools/audit-ledger/src/audit_ledger/ledger.py:96-135 | the same, for the checks made of the real payloads and signatures |
| TamperEvidence.ChainBack | tools/audit-ledger/src/audit_ledger/ledger.py:202-220 | equal hashes propagate down two linked chains |
| TamperEvidence.LastHashFixesLedger | tools/audit-ledger/src/audit_ledger/ledger.py:148-384 | two audited ledgers of one length and last hash agree on every chained field of every entry, or two payloads collide |
| TamperEvidence.CheckpointFixesHashes | tools/audit-ledger/src/audit_ledger/evidence.py:168-182 | a checkpoint fixes the first tree_size hashes of every ledger it verifies against, or two named messages collide |
| TamperEvidence.CheckpointFixesEntries | tools/audit-ledger/src/audit_ledger/evidence.py:133-184 | a rewrite below a signed checkpoint is caught, field by field |
| SignedEvidence.StatementBinds | tools/ski-schemas/src/ski_schemas/merkle.py:131-145 | two equal checkpoint statements have equal size, root and last hash, and equal tenant and time up to NFC |
| SignedEvidence.SigningBinds | tools/ski-schemas/src/ski_schemas/ledger.py:235-247 | two equal signing messages have equal position and entry hash, and equal telemetry and transcript up to NFC |
| SignedEvidence.KindsDiffer | tools/ski-schemas/src/ski_schemas/ledger.py:235-247 | a checkpoint statement is never the signing message of a verdict |
| SignedEvidence.CheckpointWasSigned | tools/audit-ledger/src/audit_ledger/evidence.py:133-157 | under ideal signatures a checkpoint that verifies has the size, root and last hash its signer computed over rows of its own |
| SignedEvidence.VerdictWasSigned | tools/audit-ledger/src/audit_ledger/ledger.py:333-368 | under ideal signatures a verdict that verifies is one the owner signed for the same position and entry hash |
| SignedEvidence.KeyIdBinds | tools/audit-ledger/src/audit_ledger/evidence.py:46-47 | one key id names one key, or two keys collide |
| SignedEvidence.AcceptedCheckpointFixesEntries | tools/audit-ledger/src/audit_ledger/evidence.py:133-184 | a ledger that passes the audit with the owner's key pinned starts with the owner's own entries, field by field, up to the size of any accepted checkpoint; or keys, tree nodes or payloads collide |
| SignedEvidence.AcceptedVerdictIsSigned | tools/audit-ledger/src/audit_ledger/ledger.py:317-368 | an audited format-5 row is, column by column, a row the owner signed; or keys or payloads collide |
| SignedEvidence.RuntimeCheckpoints | reference-implementation/src/ski_model/ledger_client.py:417-456 | the runtime signs exactly the claim over the rows it read |
| SignedEvidence.RuntimeVerdicts | reference-implementation/src/ski_model/ledger_client.py:337-361 | the runtime signs exactly the verdict it stores |
| TamperEvidence.TruncationUnnoticedExactlyWhen | tools/audit-ledger/src/audit_ledger/ledger.py:128-447 | cutting entries off an audited ledger goes unnoticed iff no checkpoint reaches past the cut or nothing at all is left |
| LedgerClient.NewRowFormat | reference-implementation/src/ski_model/ledger_client.py:294-388 | an appended row continues the chain, reproduces its hash in its own format and carries a valid signature |
| LedgerRecord.AppendedReads | reference-implementation/src/ski_model/ledger_client.py:294-388 | the bytes an appended row commits to are a JSON object that names every submitted field, the position, the time and the previous hash |
| LedgerRecord.AppendedColumns | reference-implementation/src/ski_model/ledger_client.py:294-388 | the stored evidence is the submitted text, and a format-5 row names transcript and signing key |
| LedgerClient.ClientFits | reference-implementation/src/ski_model/ledger_client.py:294-456 | every row and checkpoint the runtime writes is one the auditor accepts |
| LedgerClient.AppendKeepsRows | reference-implementation/src/ski_model/ledger_client.py:302-310 | after an append the rows pass the audit iff the clock did not go back |
| LedgerClient.CheckpointSurvives | tools/audit-ledger/src/audit_ledger/evidence.py:133-184 | a checkpoint that holds keeps holding as entries are appended |
| LedgerClient.UncoveredIsCount | reference-implementation/src/ski_model/ledger_client.py:402-415 | entries_since_checkpoint counts the uncovered rows and is never negative |
| LedgerClient.StepKeepsSound | reference-implementation/src/ski_model/server.py:889-920 | append, migration, checkpoint read, write and failure each keep a sound ledger sound |
| LedgerClient.NextTaskCatchesUp | reference-implementation/src/ski_model/server.py:889-920 | a failed checkpoint task blocks nothing: the next one leaves no entry uncovered |
| LedgerClient.RunKeepsSound | reference-implementation/src/ski_model/server.py:889-920 | every interleaving keeps it sound and never changes a stored row or checkpoint |
| LedgerClient.RunsPassAudit | reference-implementation/src/ski_model/ledger_client.py:294-471 | every run from the empty ledger passes the audit with strictly increasing checkpoint sizes, where instants read back as the text the writer hashed |
| LedgerTime.StampBinds | tools/audit-ledger/src/audit_ledger/ledger.py:222-224 | a row that verifies under the text of its instant on both sides has one text on both, or two payloads collide |
| LedgerTime.RunsPassExactlyWhen | tools/audit-ledger/src/audit_ledger/ledger.py:222-296 | a run passes the audit of a session iff its instants read back there as the texts the writer hashed, or payloads collide |
| LedgerEvidence.Tables.AppendV3 | reference-implementation/src/ski_model/ledger_client.py:294-388 | inserts the one computed row, or nothing where canonicalization raises |
| LedgerEvidence.Tables.Covered | reference-implementation/src/ski_model/ledger_client.py:410-415 | the loop computes MAX(tree_size), 0 for none |
| LedgerEvidence.Tables.StartCheckpoint | reference-implementation/src/ski_model/ledger_client.py:417-456 | the read transaction, one task at a time |
| LedgerEvidence.Tables.CommitCheckpoint | reference-implementation/src/ski_model/ledger_client.py:457-471 | the write transaction with ON CONFLICT DO NOTHING |
| LedgerEvidence.Tables.GetEvidence | reference-implementation/src/ski_model/ledger_client.py:473-533 | computes the evidence of EvidenceFor |
| LedgerEvidence.EvidenceIsSigned | reference-implementation/src/ski_model/ledger_client.py:473-533 | the evidence of a covered entry is the exact prefix some stored checkpoint signs, the smallest one, with leaf index seq-1 inside and a working audit path |
| LedgerEvidence.EvidenceIsFinal | reference-implementation/src/ski_model/ledger_client.py:473-533 | once a checkpoint covers an entry, no run of later steps changes the evidence for it |
| LedgerEvidence.LatestExactlyWhen | reference-implementation/src/ski_model/ledger_client.py:474-475 | the prefix is that of the latest covering checkpoint, as the docstring says, iff exactly one checkpoint covers the entry |
| LedgerEvidence.TwoCheckpoints | reference-implementation/src/ski_model/ledger_client.py:506-512 | a reachable, sound ledger whose evidence for entry 1 names the first of two covering checkpoints |
| Values.PyEqTransitive | reference-implementation/src/ski_model/v3/verifier.py:231-236 | Python equality across int, float, bool and containers is transitive |
| Values.EqualNormals | reference-implementation/src/ski_model/v3/verifier.py:231-236 | Python equality is equality of normal forms, every bool and number replaced by its real value, of NaN-free values |
| Predicates.PredicateDuals | reference-implementation/src/ski_model/v3/verifier.py:239-328 | four pairs of handlers are each other's negation |
| Predicates.NumbersAreDecided | reference-implementation/src/ski_model/v3/verifier.py:216-228 | a comparison decides iff both operands are finite numbers that are no bools |
| Predicates.CapLaw | reference-implementation/src/ski_model/v3/verifier.py:239-292 | a cap is kept at the cap and by everything below a reading that keeps it, and broken strictly above |
| Predicates.FloorLaw | reference-implementation/src/ski_model/v3/verifier.py:247-300 | a floor mirrors a cap |
| Predicates.OrderIsTotal | reference-implementation/src/ski_model/v3/verifier.py:239-300 | of two finite numbers exactly one of below, equal and above holds, across int and float |
| Predicates.EqualityDecides | reference-implementation/src/ski_model/v3/verifier.py:271-284 | equality is true iff the comparison is unambiguous and the normal forms are one; of a value with itself unless it is infinite or holds a NaN |
| Predicates.AmbiguousMeans | reference-implementation/src/ski_model/v3/verifier.py:231-236 | a comparison is ambiguous iff a side is NaN or infinite, or one is a bool and the other a number |
| Predicates.MembersPass | reference-implementation/src/ski_model/v3/verifier.py:303-314 | a decided membership is true iff some member equals the observation |
| Predicates.ListsDecide | reference-implementation/src/ski_model/v3/verifier.py:303-314 | membership is decided iff the list is not empty and no member is ambiguous |
| Predicates.WithinIsTwoBounds | reference-implementation/src/ski_model/v3/verifier.py:255-268 | a range is its two inclusive bounds |
| Predicates.OneOfSingleton | reference-implementation/src/ski_model/v3/verifier.py:303-314 | membership in a singleton is equality |
| Predicates.UnusableNeverDecides | reference-implementation/src/ski_model/v3/verifier.py:216-236 | booleans, NaN and infinities never decide a comparison with numbers |
| Predicates.EqualOperandsAgree | reference-implementation/src/ski_model/v3/verifier.py:239-328 | operands equal in Python's sense never give two different decisions |
| Predicates.Max | reference-implementation/src/ski_model/v3/verifier.py:433-437 | the peak is one of the samples and none is larger |
| Predicates.PeakIsEverySample | reference-implementation/src/ski_model/v3/verifier.py:535-588 | the window peak check is a check of every numeric sample |
| Predicates.ShapesRead | reference-implementation/src/ski_model/v3/verifier.py:365-392 | samples are read in order, whether bare, in a pair or as the value of an object |
| Predicates.WindowNeeded | reference-implementation/src/ski_model/v3/verifier.py:440-474 | without buffer, subject, instant and positive window no windowed predicate decides |
| Predicates.AggregateIsReading | reference-implementation/src/ski_model/v3/verifier.py:409-437 | an aggregate's average and peak are checked like readings, and a missing peak is never taken from the average |
| Predicates.AverageIsMean | reference-implementation/src/ski_model/v3/verifier.py:481-532 | the average check is a check of the sum of the numeric samples |
| Predicates.AverageFollowsSamples | reference-implementation/src/ski_model/v3/verifier.py:481-532 | samples all inside the range keep it on average, samples all on one side break it |
| Grounding.GroundedAgrees | reference-implementation/src/ski_model/v3/verifier.py:609-717 | a grounded assertion cannot be decided differently from the verifier's own evaluation of the cited obligation |
| Grounding.FabricatedExactly | reference-implementation/src/ski_model/v3/verifier.py:663-717 | an observation passes iff the metric is in the record and it is the measured value, across int and float, bool for bool |
| Grounding.NothingObserved | reference-implementation/src/ski_model/v3/verifier.py:663-717 | a windowed assertion, or one without an observation, is never called fabricated |
| Grounding.MisquotesExactly | reference-implementation/src/ski_model/v3/verifier.py:609-656 | a claim passes iff it quotes an obligation of the index under the id it cites |
| Grounding.SplitJoined | reference-implementation/src/ski_model/v3/verifier.py:723-740 | a dotted metric is split into exactly its parts |
| Grounding.ReadingMeans | reference-implementation/src/ski_model/v3/verifier.py:723-740 | a metric is the key of that name, or else the leaf its dotted path leads to |
| Grounding.KeepsMeans | reference-implementation/src/ski_model/v3/verifier.py:784-788 | an obligation keeps its id iff that is a string no later obligation bears |
| Grounding.EnumerateSound | reference-implementation/src/ski_model/v3/verifier.py:753-768 | exactly the evaluable, present obligations are enumerated |
| Grounding.LastPositions | reference-implementation/src/ski_model/v3/verifier.py:784-788 | the position map decides which occurrence keeps an id |
| Grounding.IndexObligations | reference-implementation/src/ski_model/v3/verifier.py:771-805 | the loop returns the index and the positions of the evaluable obligations it hides |
| Grounding.NothingLost | reference-implementation/src/ski_model/v3/verifier.py:771-805 | every evaluable obligation is enumerated, under an id no other is enumerated under, or reported as hidden |
| Verifier.Tally.Precheck | reference-implementation/src/ski_model/v3/verifier.py:985-1010 | settles exactly outlawed and ungrounded assertions, with these totals |
| Verifier.Tally.RecordAssertion | reference-implementation/src/ski_model/v3/verifier.py:1012-1035 | what a mechanical outcome adds to the totals |
| Verifier.Tally.RecordObligation | reference-implementation/src/ski_model/v3/verifier.py:1042-1072 | what the verifier's own evaluation adds to the totals |
| Verifier.Verify | reference-implementation/src/ski_model/v3/verifier.py:1261-1342 | the two loops produce the folded report |
| VerifierTheorems.ReportMeaning | reference-implementation/src/ski_model/v3/verifier.py:1074-1104 | the report is declarative: status by first match over existential conditions, counts, breached ids, fail-closed |
| VerifierTheorems.Accounting | reference-implementation/src/ski_model/v3/verifier.py:956-1104 | checked + unverifiable = assertions + omitted enumerated obligations + unit mismatches |
| VerifierTheorems.AgreedIsSilent | reference-implementation/src/ski_model/v3/verifier.py:1074-1104 | a report lists no divergence iff its status is AGREED |
| VerifierTheorems.NotesMean | reference-implementation/src/ski_model/v3/verifier.py:1042-1072 | the report notes exactly the omitted obligations it checked and found satisfied |
| VerifierTheorems.OrderInvariant | reference-implementation/src/ski_model/v3/verifier.py:956-1104 | with a slice or without, reordering assertions or obligations changes neither status, count, breached ids nor fail-closed |
| VerifierTheorems.SyncIsAsync | reference-implementation/src/ski_model/v3/verifier.py:1261-1342 | sync and async reports coincide when no predicate in play is stateful |
| Normalisation.NormalizeSatisfied | reference-implementation/src/ski_model/v3/verifier.py:1162-1226 | the loop corrects exactly the decidable, grounded flags and notes them |
| Normalisation.CorrectionsMean | reference-implementation/src/ski_model/v3/verifier.py:1212-1222 | a flag is corrected iff it disagrees with a decidable check |
| Normalisation.NormaliseIdempotent | reference-implementation/src/ski_model/v3/verifier.py:1162-1226 | normalising is idempotent and changes no other field |
| Normalisation.SatisfiedIsIrrelevant | reference-implementation/src/ski_model/v3/verifier.py:1162-1226 | lists that differ only in decidable satisfied flags yield one report |
| Normalisation.NormalisedNeverDisagrees | reference-implementation/src/ski_model/v3/verifier.py:1171-1189 | after normalisation no stateless assertion disagrees with the arithmetic |
| Evaluator.MissingTelemetry | reference-implementation/src/ski_model/v3/evaluator.py:228-266 | found iff some mapped, non-windowed obligation or assertion lacks a usable reading |
| Evaluator.RunFreshnessGate | reference-implementation/src/ski_model/v3/evaluator.py:502-571 | stale wins over undecidable; silent iff every gated obligation has a fresh sample |
| Evaluator.Evaluate | reference-implementation/src/ski_model/v3/evaluator.py:741-1031 | the stepwise evaluator computes Outcome, for every response, policy and buffer |
| EvaluatorTheorems.ReportSeesObligation | reference-implementation/src/ski_model/v3/verifier.py:771-805 | every breached evaluable obligation is in the report, or the report fails closed |
| EvaluatorTheorems.FloorHolds | reference-implementation/src/ski_model/v3/evaluator.py:609-649 | the floor lets no breach ship unflagged and requires attestation where it acts |
| EvaluatorTheorems.GateIsFinal | reference-implementation/src/ski_model/v3/evaluator.py:574-599 | the freshness gate only moves verdicts to NULL_STALE or DISCRETIONARY |
| EvaluatorTheorems.BreachFloor | reference-implementation/src/ski_model/v3/evaluator.py:808-1031 | an obligation the verifier computes as breached, whatever its id, ships as FLAG, DISCRETIONARY or NULL_STALE on every path |
| EvaluatorTheorems.UnaccountableGoesToHuman | reference-implementation/src/ski_model/v3/evaluator.py:808-1031 | a unit mismatch or hidden obligation ships as DISCRETIONARY or NULL_STALE on every path |
| EvaluatorTheorems.ClearIsEarned | reference-implementation/src/ski_model/v3/evaluator.py:816-1031 | under policies that only keep or lower, CLEAR means the model said so with assertions, known citations, fresh and present telemetry, nothing breached, mismatched or hidden |
| EvaluatorOutcome.FailsClosedExactly | reference-implementation/src/ski_model/v3/verifier.py:771-805 | the report fails closed iff an obligation is unaccountable or a predicate is outlawed |
| EvaluatorOutcome.BreachedExactly | reference-implementation/src/ski_model/v3/verifier.py:1042-1072 | the report lists a breach iff an accountable obligation is breached |
| EvaluatorOutcome.CitationPath | reference-implementation/src/ski_model/v3/evaluator.py:833-884 | a citation outside the slice ships as NULL_UNMAPPED, unless the gate or the slice itself demands otherwise |
| EvaluatorOutcome.ContractPath | reference-implementation/src/ski_model/v3/evaluator.py:899-930 | a response of the wrong shape ships as DISCRETIONARY, or NULL_STALE where the gate says so |
| EvaluatorOutcome.GatedPath | reference-implementation/src/ski_model/v3/evaluator.py:574-603 | a gate that speaks decides, but never softens an established NULL_STALE |
| EvaluatorOutcome.NormalPath | reference-implementation/src/ski_model/v3/evaluator.py:605-649 | otherwise the verdict of the policy ships iff the floor lets it stand |
| EvaluatorOutcome.FloorActsExactly | reference-implementation/src/ski_model/v3/evaluator.py:605-649 | a kept verdict is moved iff the report fails closed and it is CLEAR, FLAG or NULL_UNMAPPED, or something is breached and it is CLEAR or NULL_UNMAPPED |
| EvaluatorOutcome.FlagShips | reference-implementation/src/ski_model/v3/evaluator.py:605-633 | a FLAG on accountable obligations ships as FLAG |
| EvaluatorOutcome.OpenVerdictShips | reference-implementation/src/ski_model/v3/evaluator.py:606-633 | a DISCRETIONARY or NULL_STALE of the model ships |
| EvaluatorOutcome.ClearShips | reference-implementation/src/ski_model/v3/evaluator.py:605-649 | a CLEAR with assertions and usable readings, nothing breached and nothing unaccountable ships as CLEAR |
| EvaluatorOutcome.ClearExactly | reference-implementation/src/ski_model/v3/evaluator.py:741-1031 | CLEAR ships iff it is earned, no predicate is outlawed and no sensor silent |
| EvaluatorOutcome.FailClosedIsUnsettled | reference-implementation/src/ski_model/v3/verifier.py:932-949 | a report that fails closed is a contradiction or unverifiable |
| EvaluatorOutcome.CitationStatus | reference-implementation/src/ski_model/v3/evaluator.py:842-868 | for unknown citations the status is a contradiction iff an obligation is breached |
| EvaluatorOutcome.CitationsNamed | reference-implementation/src/ski_model/v3/evaluator.py:853-868 | every unknown citation is named by its position |
| EvaluatorOutcome.StatusKept | reference-implementation/src/ski_model/v3/evaluator.py:574-649 | neither gate nor floor touches the status |
| EvaluatorOutcome.HiddenNamed | reference-implementation/src/ski_model/v3/verifier.py:771-805 | an evaluable obligation the index cannot show is named by its position, and no other is |
| EvaluatorOutcome.DraftNotes | reference-implementation/src/ski_model/v3/evaluator.py:962-1013 | the envelope notes every corrected flag and every independent check |
| EvaluatorOutcome.GateIsNoted | reference-implementation/src/ski_model/v3/evaluator.py:574-603 | a gate that speaks notes the verdict it gave, or that NULL_STALE was kept |
| EvaluatorOutcome.HumanIsAsked | reference-implementation/src/ski_model/v3/evaluator.py:574-649 | what gate or floor sends to a human demands attestation |
| EvaluatorOutcome.OwnCheckMeans | reference-implementation/src/ski_model/v3/verifier.py:896-912 | what the verifier computes for an obligation is the check of its predicate on the measured reading |
| EvaluatorOutcome.UnitsMean | reference-implementation/src/ski_model/v3/verifier.py:884-893 | a reading is in other units iff reading and obligation both name one and they differ |
| EvaluatorOutcome.BareReadingHasNoUnit | reference-implementation/src/ski_model/v3/verifier.py:743-750 | a bare reading is never in other units |
| EvaluatorOutcome.ExceededCapNeverShips | reference-implementation/src/ski_model/v3/evaluator.py:605-649 | a reading above a must_not_exceed cap never ships as CLEAR or NULL_UNMAPPED, whatever model, policy and buffer say |
| EvaluatorOutcome.ClearKeepsCaps | reference-implementation/src/ski_model/v3/evaluator.py:741-1031 | under a CLEAR every capped metric in the record reads a number at or below its cap |
| EvaluatorOutcome.ClearNeedsReadings | reference-implementation/src/ski_model/v3/evaluator.py:208-266 | under a CLEAR every current reading and observation is usable for its predicate |
| EvaluatorOutcome.KnownMeans | reference-implementation/src/ski_model/v3/evaluator.py:816-825 | a cited id is known iff it names an obligation or a definition of the slice |
| EvaluatorOutcome.FreshOnEvidence | reference-implementation/src/ski_model/v3/evaluator.py:485-556 | an obligation is fresh exactly on the buffer's word about its own subject, instant and window |
| EvaluatorOutcome.StaleOnEvidence | reference-implementation/src/ski_model/v3/evaluator.py:485-556 | and stale exactly on its word to the contrary: an answer the gate cannot read is undecidable |
| RiskTier.TiersAreOrdered | reference-implementation/src/ski_model/v3/policies/risk_tier.py:98-183 | what ships as CLEAR at one tier ships alike, notes apart, at every more permissive one |
| RiskTier.UnknownTierIsStrict | reference-implementation/src/ski_model/v3/policies/risk_tier.py:74-95 | under an absent or unrecognised tier only that ships as CLEAR which does so, notes apart, under every tier |
| RiskTier.RiskPolicyOnlyLowers | reference-implementation/src/ski_model/v3/policies/risk_tier.py:98-183 | the runtime's policy keeps a verdict or lowers it to DISCRETIONARY |
| RiskTier.ShipsExactly | reference-implementation/src/ski_model/v3/policies/risk_tier.py:102-162 | a regular response ships the guarded verdict iff the tier accepts the status and the floor lets it stand |
| RiskTier.AgreedFlagShips | reference-implementation/src/ski_model/v3/policies/risk_tier.py:102-162 | an agreed FLAG on accountable obligations ships at every tier |
| RiskTier.AliasesMean | reference-implementation/src/ski_model/v3/policies/risk_tier.py:57-71 | the spellings of each tier |
| RiskTier.ClearIsVerified | reference-implementation/src/ski_model/v3/policies/risk_tier.py:98-183 | at every tier a CLEAR rests only on grounded, satisfied, unrefuted assertions; at tier-1 on agreement |
| RiskTier.FlagsDoNotMatter | reference-implementation/src/ski_model/v3/evaluator.py:975-1004 | wrong satisfied flags on decidable assertions change nothing in the final envelope but its notes |
| Descendants.WithDescendants | reference-implementation/src/ski_model/kg_graph.py:127-135 | the worklist ends on every parent map, cycles included, with exactly the reflexive-transitive closure |
| KgGraph.IndexNodes | reference-implementation/src/ski_model/kg_graph.py:78-88 | accepts exactly arrays of nodes with non-empty, globally distinct ids |
| KgGraph.IndexEdges | reference-implementation/src/ski_model/kg_graph.py:94-110 | accepts exactly well-formed edges between known nodes and files the three relations |
| KgCompiler.ScopeRoots | reference-implementation/src/ski_model/kg_graph.py:151-154 | the jurisdictions an obligation names itself or through its rules |
| KgCompiler.StrictestTier | reference-implementation/src/ski_model/kg_graph.py:157-160 | the strictest tier any owning rule declares |
| KgCompiler.Routing | reference-implementation/src/ski_model/kg_graph.py:161-164 | subjects only if every owning rule names some, and then exactly those |
| KgCompiler.CompileGraph | reference-implementation/src/ski_model/kg_graph.py:68-170 | accepted iff Acceptable, and then one obligation per node in order, each as the edges of the graph say; else refused with the error of the first check that fails |
| KgReach.ScopeMeans | reference-implementation/src/ski_model/kg_graph.py:121-155 | a compiled scope holds exactly the jurisdictions from which a path of parent fields, node by node of the graph, leads to a named one |
| KgReach.TierMeans | reference-implementation/src/ski_model/kg_graph.py:156-159 | the compiled tier is the first of high, medium, low that a rule of the obligation declares in the graph |
| KgReach.ScopeIsReachability | reference-implementation/src/ski_model/kg_loader.py:395-503 | kept iff the node is in force, the request names a universal jurisdiction or one a path of parent fields leads up from to a named one, or none is named, and its rules concern the subject |
| KgScope.ScopeMembers | reference-implementation/src/ski_model/kg_loader.py:425-431 | scoping keeps exactly the obligations in scope |
| KgScope.ScopeKeepsOrder | reference-implementation/src/ski_model/kg_loader.py:425-431 | scoping preserves order |
| KgValidator.V3Validator.CheckDuplicateKeys | tools/kg-validator/src/kg_validator/validator.py:131-144 | the loop over dict keys never reports a duplicate |
| KgValidator.V3Validator.CheckDuplicatesInLists | tools/kg-validator/src/kg_validator/validator.py:146-173 | duplicates are reported iff some list repeats an id |
| KgValidator.V3Validator.CheckDanglingEdges | tools/kg-validator/src/kg_validator/validator.py:175-198 | dangling edges are reported iff there is one |
| KgValidator.V3Validator.CheckEdgeTargetTypes | tools/kg-validator/src/kg_validator/validator.py:200-224 | wrong target types are reported iff there is one |
| KgValidator.V3Validator.CheckRuleObligationCoverage | tools/kg-validator/src/kg_validator/validator.py:226-262 | uncovered rules and unowned obligations are reported iff there are any, and only the former block |
| KgValidator.V3Validator.CheckUnderTiered | tools/kg-validator/src/kg_validator/validator.py:264-315 | under-tiered rules are reported iff a rule below high has an edge to an obligation no predicate can check; blocking iff strict |
| KgValidator.V3Validator.Run | tools/kg-validator/src/kg_validator/validator.py:98-125 | a run is clean iff no hard structural issue exists and, when strict, no rule is under-tiered; each of the six kinds of issue is raised iff its condition holds |
| KgAgreement.CleanMeansAccepted | reference-implementation/src/ski_model/kg_graph.py:68-168 | a clean graph compiles iff its ids are non-empty and distinct across lists and it has an obligation |
| KgAgreement.AcceptedMeansNoStructuralIssue | tools/kg-validator/src/kg_validator/validator.py:131-262 | a graph the runtime accepts raises no duplicate, dangling-edge or uncovered-rule issue |
| KgAgreement.NoEdgeIgnored | reference-implementation/src/ski_model/kg_graph.py:105-110 | on a clean graph every edge ends in a node of the kind its relation names, so the compiler passes over none it reads |
| KgAgreement.SameEnumeration | tools/kg-validator/src/kg_validator/validator.py:56-78 | the validator's checkable types are exactly those the verifier evaluates, and both know the same types |
| KgAgreement.UncheckedMeans | tools/kg-validator/src/kg_validator/validator.py:281-297 | an edge counts as unchecked iff its obligation is of a type the verifier does not evaluate |
| KgAgreement.AcceptedIds | reference-implementation/src/ski_model/kg_graph.py:84-85 | the ids of an accepted graph are not empty |
| KgAgreement.SharedIdIsClean | tools/kg-validator/src/kg_validator/loader.py:84-103 | one id in two lists passes the validator |
| KgAgreement.SharedIdIsRefused | reference-implementation/src/ski_model/kg_graph.py:86-87 | and is refused by the compiler |
| Telemetry.TelemetryBuffer.QueryLastRecord | reference-implementation/src/telemetry_buffer/buffer.py:241-273 | the newest timestamp at or before as_of |
| Telemetry.FreshMeansSample | reference-implementation/src/telemetry_buffer/buffer.py:275-292 | fresh iff some sample lies in the closed window |
| Telemetry.PeakIsEveryRow | reference-implementation/src/telemetry_buffer/buffer.py:137-239 | a windowed cap is broken iff some stored row in the window reads a number above it, and decided iff some row reads a number |
| Telemetry.AverageIsOfRows | reference-implementation/src/telemetry_buffer/buffer.py:137-239 | a windowed average is decided on the mean of the numbers in the window |
| Telemetry.CountIsOfRows | reference-implementation/src/telemetry_buffer/buffer.py:137-239 | a query without a metric only counts the rows in the window |
| Telemetry.NonEmptyWindowIsFresh | reference-implementation/src/telemetry_buffer/buffer.py:137-292 | a non-empty window implies a fresh sample; fresh with an empty window iff the newest sample is exactly window_seconds old |
| Telemetry.LaterRowsInvisible | reference-implementation/src/telemetry_buffer/buffer.py:158-189 | rows after as_of, about other subjects or before the horizon change no answer |
| Telemetry.LastRecordIgnores | reference-implementation/src/telemetry_buffer/buffer.py:253-273 | rows after as_of do not change last_record_ts |
| Telemetry.FetchFinds | reference-implementation/src/telemetry_buffer/buffer.py:298-329 | fetch_at finds the record a hash names |
| Telemetry.FetchIsNewest | reference-implementation/src/telemetry_buffer/buffer.py:298-329 | fetch_at answers with a row no other row of the hash is newer than |
| Replay.ReplayReport.ReplayOne | tools/audit-ledger/src/audit_ledger/replay.py:287-447 | one entry is skipped, matched or mismatched for the first failing check |
| Replay.ReplayReport.Run | tools/audit-ledger/src/audit_ledger/replay.py:267-460 | entries are partitioned, replayed = matched + mismatches, and clean iff nothing mismatched and something matched |
| Replay.MatchedExactly | tools/audit-ledger/src/audit_ledger/replay.py:361-447 | an entry matches iff its transcript is trusted, its newest buffered record is what the prompt was rendered from, and evaluating that record gives the recorded verdict and status |
| Replay.EvaluateMeasurement | reference-implementation/src/ski_model/server.py:806-871 | the server buffers the record first, passes over a failed append, and records the evaluation of the buffer as it then stands |
| Replay.SameOutcome | reference-implementation/src/ski_model/v3/evaluator.py:741-1031 | the evaluation depends on the buffer only through the windows it asks for |
| Replay.GateStaleExactlyWhen | reference-implementation/src/ski_model/v3/evaluator.py:502-571 | on any buffer table the gate says NULL_STALE iff some mapped obligation with a well-formed freshness window has no sample in it |
| Replay.ServerGateNeverStale | reference-implementation/src/ski_model/server.py:806-849 | on any table that holds the record under evaluation the gate is never stale, and undecidable iff a freshness window is malformed |
| Replay.RecordedEntryReplays | reference-implementation/src/ski_model/server.py:806-871 | what the server recorded replays as matched, whatever the model answered and other requests buffered before, if no row was added inside the windows since |
| Replay.UnbufferedEntryMismatches | reference-implementation/src/ski_model/server.py:811-821 | replay reports a missing buffer row iff no row carries the recorded hash, as where buffering failed |
| Prompt.FindMeasurement | tools/audit-ledger/src/audit_ledger/replay.py:156 | the first marker is where the template puts it |
| Prompt.PromptRoundTrip | tools/audit-ledger/src/audit_ledger/replay.py:149-164 | recovering a rendered prompt gives back measurement and snapshot, for every pair that JSON itself carries |
| Der.WidthsSuffice | reference-implementation/src/ski_model/timestamping.py:40-52 | both byte counts taken from bit_length are wide enough, so to_bytes never raises |
| Der.IntegerIsMinimal | reference-implementation/src/ski_model/timestamping.py:50-52 | the byte count max(1, (bit_length + 8) // 8) gives the minimal non-negative encoding of the value |
| Der.LengthIsShortest | reference-implementation/src/ski_model/timestamping.py:40-47 | the byte count (bit_length + 7) // 8 gives the shortest form of a length |
| Der.ReadsBack | reference-implementation/src/ski_model/timestamping.py:61-69 | any element, short or long, is read back at any offset |
| Der.ElementsParse | reference-implementation/src/ski_model/timestamping.py:40-69 | concatenated elements parse back in order |
| Der.StatusReadsBack | reference-implementation/src/ski_model/timestamping.py:72-86 | a response built with the encoder yields its status and token presence |
| Der.ShortResponse | reference-implementation/src/ski_model/timestamping.py:72-86 | a short response byte by byte: tags 48 and 2, the status, and a token or none |
| Der.WrongTagsRefused | reference-implementation/src/ski_model/timestamping.py:72-86 | an element of another tag in one of the three places is refused, each with its own error |
| Der.CutShort | reference-implementation/src/ski_model/timestamping.py:61-86 | a response that stops before a length octet is truncated, one cut short inside is no sequence |
| Chunking.ChunkText | tools/kg-extractor/src/kg_extractor/utils.py:112-163 | refuses bad sizes, and otherwise returns the chunking on every text on which the loop ends |
| Chunking.ChunkingIsUnique | tools/kg-extractor/src/kg_extractor/utils.py:126-163 | text and sizes determine the chunks |
| Chunking.FinishesUnlessStuck | tools/kg-extractor/src/kg_extractor/utils.py:134-161 | the loop runs for ever iff it visits an end with no later break in the next window, under an overlap beyond max_chunk_size // 2 + 1 |
| Chunking.FinishesExactlyWhen | tools/kg-extractor/src/kg_extractor/utils.py:126-161 | the loop ends on all texts iff overlap <= max_chunk_size // 2 + 1 |
| Chunking.StallExample | tools/kg-extractor/src/kg_extractor/utils.py:126-161 | sizes 100 and 52, allowed by the guard, re-read one text from position 0 for ever |
| Chunking.LosslessExactlyWhen | tools/kg-extractor/src/kg_extractor/utils.py:134-163 | dropping each later overlap and joining gives back the text iff the second round does not start before the text |
| Chunking.ChunkingIsLossless | tools/kg-extractor/src/kg_extractor/utils.py:134-163 | with overlap <= max_chunk_size // 2 + 1 every text is chunked and nothing is lost |
| Chunking.ChunkSizes | tools/kg-extractor/src/kg_extractor/utils.py:137-152 | the chunk of a round has at most max_chunk_size + 1 characters; one too many iff a break stands right behind its window; none iff it starts before the text |
| Chunking.EndsAtSentence | tools/kg-extractor/src/kg_extractor/utils.py:137-152 | a round that does not reach the end stops behind the last sentence end of the second half of its window, or takes the whole window if there is none |
| Chunking.LimitExceededExactlyWhen | tools/kg-extractor/src/kg_extractor/utils.py:141-152 | some chunk exceeds max_chunk_size iff some round has a break right behind its window |
| Chunking.OneCharacterOver | tools/kg-extractor/src/kg_extractor/utils.py:141-152 | a text of six characters whose first chunk of four has five |

## Left out

- ChunkText: is stated for the inputs on which the loop ends (`Terminates`); on all others it runs for ever, by `FinishesUnlessStuck`, so no result exists to state.
- Rows that reach the telemetry buffer in the middle of one evaluation, between its freshness gate and its window queries: the model reads one table per evaluation.
- Encode: lengths of 2^1016 bytes and more, which one length octet cannot announce, are excluded by `Framable`.
- Routes, HTTP, SQL text, migrations, the command line, backup, export and report rendering: input and output.
- Reason strings, note texts and log lines: divergences, issues and notes are tagged values.
- Hash columns are raw digests; their hexadecimal spelling and CHAR padding are not modelled.
- RFC 3161 tokens on checkpoints, and exported checkpoint files of another format version.
- A canonicalization error while the auditor rebuilds a signing message counts as an invalid signature; the original raises. Database text cannot hold the surrogates that would cause it.
- Sequence numbers above 2^53 and other integers no double holds.
- The JSONB round trip of stored evidence is assumed: the model stores the JSON text itself.
- Several tenants in one ledger: the state machine has one.
- Non-string member names, tuples, object identity of NaN inside containers, and unhashable ids or predicates, on which the original raises.
- Pydantic coercion of model output: a response is either of the contracted shape or not.
- De-duplication of missing-telemetry notes by id: only whether any exists matters to the verdict.
- JSON array indices and rounding in the SQL aggregate of a window.
- Order of `rule_ids`, and the flat KG shape before conversion; KG signatures and trust anchors.
- Which rule, and which of several bad nodes, an error of `compile_graph` names.
- A runtime without a signing key, and the request half of time-stamping (`timestamp_request`), a fixed use of the encoder.
- Text folding and date parsing of `scope_to` are arbitrary functions.
- `RiskTierGovernor`, the egress guard, tag registry, agreement monitor, COSE and SCITT encodings, the legacy `append` and the v2 evaluator: simple or foreign members.
- Whitespace beyond ASCII in `str.strip`.
