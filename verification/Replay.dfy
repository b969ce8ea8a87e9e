/** Replay of recorded verdicts: the decision sequence per entry, and why a recorded entry replays. */
module Replay {
  import opened Common
  import opened Values
  import opened Predicates
  import opened Grounding
  import opened Verifier
  import opened VerifierTheorems
  import opened Normalisation
  import opened Evaluator
  import T = Telemetry
  import opened Prompt

  /** Scope of a KG: jurisdiction, instant and subject to a slice. */
  type Scoping = (Option<string>, int, Option<string>) -> Slice

  /** What both sides share: the loaded KG, the tier policy of a slice, and the JSON codec. */
  datatype Setting = Setting(
    kgHash: string,
    legacyHash: Option<string>,             // a flat KG recorded before the graph shape was hashed in its flat form
    scope: Scoping,
    policy: Slice -> Policy,
    codec: Codec<Measurement, Snapshot>,
    template: Template,
    ids: Slice -> string                    // the rendered list of valid node ids
  )

  /** The snapshot sent to the model: the slice and the scope it came from. */
  datatype Snapshot = Snapshot(slice: Slice, jurisdiction: Option<string>, subject: Option<string>)

  datatype Transcript = Transcript(
    request: string,
    response: Response,
    hashesMatch: bool,                      // hash_pair of the stored texts equals the recorded hashes
    key: Option<bool>                       // None: unknown key; else whether the signature verifies
  )

  /** A ledger row as replay reads it. */
  datatype Recorded = Recorded(
    hasEnvelope: bool,
    transcript: Option<Transcript>,
    kgHash: string,
    sameTemplate: bool,                     // recorded under this runtime's prompt template
    telemetryHash: string,
    verdict: Verdict,
    status: Status
  )

  datatype Reason =
    | TranscriptHashMismatch
    | TranscriptSignatureInvalid
    | KgVersionMismatch
    | TranscriptUnreadable
    | BufferRowMissing
    | TelemetryDivergence
    | KgSnapshotDivergence
    | PromptDivergence
    | VerdictDivergence

  datatype Decision = Skipped | Mismatch(reason: Reason) | Matched

  function InputAt(m: Measurement, slice: Slice, response: Response, rows: T.Table, subject: string, asOf: int): Input {
    Input(m, slice, response, Telemetry(Some(subject), Some(asOf), Some(T.BufferOf(rows))))
  }

  function Ids(obs: seq<Obligation>): seq<Option<Val>> {
    if obs == [] then [] else [obs[0].id] + Ids(obs[1..])
  }

  function RenderedPrompt(st: Setting, m: Measurement, s: Snapshot): string {
    Render(st.codec, st.template, st.ids(s.slice), m, s)
  }

  predicate AcceptedKg(st: Setting, hash: string) {
    hash == st.kgHash || st.legacyHash == Some(hash)
  }

  /** Everything about an entry once its transcript is trusted: inputs, buffer row, scope, prompt, evaluation. */
  ghost function DecideInputs(st: Setting, rows: T.Table, e: Recorded, tr: Transcript): Decision {
    var inputs := Recover(st.codec, tr.request);
    if inputs.None? then Mismatch(TranscriptUnreadable)
    else
      var record := T.FetchAt(rows, e.telemetryHash);
      var (m, s) := inputs.value;
      if record.None? then Mismatch(BufferRowMissing)
      else if record.value.measurement != m then Mismatch(TelemetryDivergence)
      else if Ids(st.scope(s.jurisdiction, record.value.ts, s.subject).obligations) != Ids(s.slice.obligations) then
        Mismatch(KgSnapshotDivergence)
      else if e.sameTemplate && RenderedPrompt(st, m, s) != tr.request then Mismatch(PromptDivergence)
      else
        var r := record.value;
        var o := Outcome(InputAt(m, s.slice, tr.response, rows, r.subject, r.ts), st.policy(s.slice));
        if o.verdict == e.verdict && o.status == e.status then Matched else Mismatch(VerdictDivergence)
  }

  /** The body of _replay_async for one entry: each check in order, then the evaluation. */
  ghost function Decide(st: Setting, rows: T.Table, e: Recorded): Decision {
    if !e.hasEnvelope || e.transcript.None? then Skipped
    else
      var tr := e.transcript.value;
      if !tr.hashesMatch then Mismatch(TranscriptHashMismatch)
      else if tr.key == Some(false) then Mismatch(TranscriptSignatureInvalid)
      else if !AcceptedKg(st, e.kgHash) then Mismatch(KgVersionMismatch)
      else DecideInputs(st, rows, e, tr)
  }

  /** The same ids, or lack of one, in the same order. */
  ghost predicate SameIds(a: seq<Obligation>, b: seq<Obligation>) {
    |a| == |b| && forall i | 0 <= i < |a| :: a[i].id == b[i].id
  }

  lemma {:induction false} IdsMean(a: seq<Obligation>, b: seq<Obligation>)
    ensures Ids(a) == Ids(b) <==> SameIds(a, b)
  {
    if a != [] && b != [] {
      IdsMean(a[1..], b[1..]);
      assert Ids(a)[0] == a[0].id && Ids(b)[0] == b[0].id && Ids(a)[1..] == Ids(a[1..]) && Ids(b)[1..] == Ids(b[1..]);
      if SameIds(a, b) {
        assert SameIds(a[1..], b[1..]);
      }
      if Ids(a) == Ids(b) {
        assert SameIds(a[1..], b[1..]) && a == [a[0]] + a[1..] && b == [b[0]] + b[1..];
      }
    }
  }

  /** The buffered record stands for the recovered prompt: the same measurement and the same obligations in scope. */
  ghost predicate SameInputs(st: Setting, e: Recorded, tr: Transcript, m: Measurement, s: Snapshot, r: T.Sample) {
    && Recover(st.codec, tr.request) == Some((m, s))
    && r.measurement == m
    && SameIds(st.scope(s.jurisdiction, r.ts, s.subject).obligations, s.slice.obligations)
    && (e.sameTemplate ==> RenderedPrompt(st, m, s) == tr.request)
  }

  /** The transcript is intact, not badly signed, and recorded under this KG. */
  ghost predicate Trusted(st: Setting, e: Recorded) {
    && e.hasEnvelope && e.transcript.Some? && e.transcript.value.hashesMatch
    && e.transcript.value.key != Some(false)
    && (e.kgHash == st.kgHash || Some(e.kgHash) == st.legacyHash)
  }

  /** Evaluating the buffered record anew gives this envelope. */
  ghost predicate Reevaluates(st: Setting, rows: T.Table, tr: Transcript, r: T.Sample, s: Snapshot, o: Envelope) {
    o == Outcome(Input(r.measurement, s.slice, tr.response, T.At(rows, r.subject, r.ts)), st.policy(s.slice))
  }

  /**
   Matched means reproduced: exactly the entries with a trusted transcript match
   for which the newest record of their hash is in the buffer, is what the prompt
   was rendered from, and evaluates to the recorded verdict and status.
   */
  lemma MatchedExactly(st: Setting, rows: T.Table, e: Recorded)
    ensures Decide(st, rows, e).Matched? <==>
            && Trusted(st, e)
            && exists r, m, s, o :: T.FetchAt(rows, e.telemetryHash) == Some(r) &&
                 SameInputs(st, e, e.transcript.value, m, s, r) &&
                 Reevaluates(st, rows, e.transcript.value, r, s, o) &&
                 o.verdict == e.verdict && o.status == e.status
  {
    forall a, b ensures Ids(a) == Ids(b) <==> SameIds(a, b) {
      IdsMean(a, b);
    }
    if Decide(st, rows, e).Matched? {
      var tr := e.transcript.value;
      var (m, s) := Recover(st.codec, tr.request).value;
      var r := T.FetchAt(rows, e.telemetryHash).value;
      assert SameInputs(st, e, tr, m, s, r);
      assert Reevaluates(st, rows, tr, r, s,
        Outcome(InputAt(m, s.slice, tr.response, rows, r.subject, r.ts), st.policy(s.slice)));
    }
  }

  // ------------------------------------------------------------ the report

  class ReplayReport {
    var total: nat
    var replayed: nat
    var skipped: nat
    var matched: nat
    var signatures: nat
    var mismatches: seq<Reason>

    constructor ()
      ensures total == replayed == skipped == matched == signatures == 0 && mismatches == []
    {
      total, replayed, skipped, matched, signatures, mismatches := 0, 0, 0, 0, 0, [];
    }

    predicate IsClean()
      reads this
    {
      mismatches == [] && replayed > 0 && replayed == matched
    }

    method AddMismatch(reason: Reason) returns (ghost d: Decision)
      modifies this`mismatches
      ensures mismatches == old(mismatches) + [reason] && d == Mismatch(reason)
    {
      mismatches := mismatches + [reason];
      d := Mismatch(reason);
    }

    /** The evaluation, once everything it needs has been recovered. */
    method ReplayInputs(st: Setting, rows: T.Table, e: Recorded, tr: Transcript) returns (ghost d: Decision)
      modifies this`mismatches, this`matched
      ensures d == DecideInputs(st, rows, e, tr) && !d.Skipped?
      ensures matched == old(matched) + if d.Matched? then 1 else 0
      ensures mismatches == old(mismatches) + if d.Mismatch? then [d.reason] else []
    {
      var inputs := Recover(st.codec, tr.request);
      if inputs.None? {
        d := AddMismatch(TranscriptUnreadable);
        return;
      }
      var (m, s) := inputs.value;
      var record := T.FetchAt(rows, e.telemetryHash);
      if record.None? {
        d := AddMismatch(BufferRowMissing);
        return;
      }
      if record.value.measurement != m {
        d := AddMismatch(TelemetryDivergence);
        return;
      }
      var rescoped := st.scope(s.jurisdiction, record.value.ts, s.subject);
      if Ids(rescoped.obligations) != Ids(s.slice.obligations) {
        d := AddMismatch(KgSnapshotDivergence);
        return;
      }
      if e.sameTemplate && RenderedPrompt(st, m, s) != tr.request {
        d := AddMismatch(PromptDivergence);
        return;
      }
      var x := InputAt(m, s.slice, tr.response, rows, record.value.subject, record.value.ts);
      var result := Evaluate(x, st.policy(s.slice));
      if result.verdict == e.verdict && result.status == e.status {
        matched := matched + 1;
        d := Matched;
      } else {
        d := AddMismatch(VerdictDivergence);
      }
    }

    /** One entry: the early exits are the mismatches, in order. */
    method ReplayOne(st: Setting, rows: T.Table, e: Recorded) returns (ghost d: Decision)
      modifies this
      ensures d == Decide(st, rows, e)
      ensures total == old(total)
      ensures skipped == old(skipped) + if d.Skipped? then 1 else 0
      ensures replayed == old(replayed) + if d.Skipped? then 0 else 1
      ensures matched == old(matched) + if d.Matched? then 1 else 0
      ensures mismatches == old(mismatches) + if d.Mismatch? then [d.reason] else []
    {
      if !e.hasEnvelope || e.transcript.None? {
        skipped := skipped + 1;
        return Skipped;
      }
      var tr := e.transcript.value;
      replayed := replayed + 1;
      if !tr.hashesMatch {
        d := AddMismatch(TranscriptHashMismatch);
        return;
      }
      if tr.key.Some? {
        if !tr.key.value {
          d := AddMismatch(TranscriptSignatureInvalid);
          return;
        }
        signatures := signatures + 1;
      }
      if !AcceptedKg(st, e.kgHash) {
        d := AddMismatch(KgVersionMismatch);
        return;
      }
      d := ReplayInputs(st, rows, e, tr);
    }

    /** The loop: entries are partitioned, and a clean report means every replayed entry matched. */
    method Run(st: Setting, rows: T.Table, entries: seq<Recorded>)
      requires total == replayed == skipped == matched == 0 && mismatches == []
      modifies this
      ensures total == |entries| == skipped + replayed
      ensures replayed == matched + |mismatches|
      ensures mismatches == [] <==> NoMismatch(Decisions(st, rows, entries))
      ensures IsClean() <==> NoMismatch(Decisions(st, rows, entries)) && Matched in Decisions(st, rows, entries)
    {
      total := |entries|;
      ghost var ds: seq<Decision> := [];
      var i := 0;
      while i < |entries|
        invariant 0 <= i <= |entries|
        invariant total == |entries|
        invariant ds == Decisions(st, rows, entries[..i])
        invariant skipped + replayed == i && replayed == matched + |mismatches|
        invariant mismatches == [] <==> NoMismatch(ds)
        invariant matched > 0 <==> Matched in ds
      {
        ghost var d := ReplayOne(st, rows, entries[i]);
        DecisionsNext(st, rows, entries, i, d);
        NoMismatchNext(ds, d);
        ds := ds + [d];
        i := i + 1;
      }
      assert entries[..i] == entries;
    }
  }

  /** The decisions on a range of entries. */
  ghost function Decisions(st: Setting, rows: T.Table, entries: seq<Recorded>): (ds: seq<Decision>)
    ensures |ds| == |entries|
  {
    if entries == [] then []
    else Decisions(st, rows, entries[..|entries| - 1]) + [Decide(st, rows, entries[|entries| - 1])]
  }

  ghost predicate NoMismatch(ds: seq<Decision>) {
    forall i | 0 <= i < |ds| :: !ds[i].Mismatch?
  }

  lemma DecisionsNext(st: Setting, rows: T.Table, entries: seq<Recorded>, i: nat, d: Decision)
    requires i < |entries| && d == Decide(st, rows, entries[i])
    ensures Decisions(st, rows, entries[..i + 1]) == Decisions(st, rows, entries[..i]) + [d]
  {
    TakeNext(entries, i);
  }

  lemma NoMismatchNext(ds: seq<Decision>, d: Decision)
    ensures NoMismatch(ds + [d]) <==> NoMismatch(ds) && !d.Mismatch?
    ensures Matched in ds + [d] <==> Matched in ds || d.Matched?
  {
    assert (ds + [d])[|ds|] == d && forall i | 0 <= i < |ds| :: (ds + [d])[i] == ds[i];
  }

  // ------------------------------------------------- recorded entries replay

  /** What the server wrote for one measurement, evaluated on the buffer as it then stood. */
  ghost function Record(st: Setting, rows: T.Table, r: T.Sample, jurisdiction: Option<string>, subject: Option<string>,
                        response: Response, key: Option<bool>): Recorded
  {
    var slice := st.scope(jurisdiction, r.ts, subject);
    var o := Outcome(InputAt(r.measurement, slice, response, rows, r.subject, r.ts), st.policy(slice));
    var request := RenderedPrompt(st, r.measurement, Snapshot(slice, jurisdiction, subject));
    Recorded(true, Some(Transcript(request, response, true, key)), st.kgHash, true, r.hash, o.verdict, o.status)
  }

  /**
   _evaluate, as far as it touches buffer and evaluator: the record goes into
   the buffer first, where a failed append is logged and passed over, and the
   evaluation then reads the buffer it went into.
   */
  method EvaluateMeasurement(st: Setting, buffer: T.TelemetryBuffer, r: T.Sample, buffered: bool,
                             jurisdiction: Option<string>, subject: Option<string>, response: Response,
                             key: Option<bool>) returns (e: Recorded)
    modifies buffer
    ensures buffer.rows == old(buffer.rows) + if buffered then [r] else []
    ensures e == Record(st, buffer.rows, r, jurisdiction, subject, response, key)
    ensures buffered ==> r in buffer.rows
  {
    if buffered {
      buffer.Append(r);
    }
    var slice := st.scope(jurisdiction, r.ts, subject);
    var x := InputAt(r.measurement, slice, response, buffer.rows, r.subject, r.ts);
    var result := Evaluate(x, st.policy(slice));
    var request := RenderedPrompt(st, r.measurement, Snapshot(slice, jurisdiction, subject));
    var transcript := Transcript(request, response, true, key);
    e := Recorded(true, Some(transcript), st.kgHash, true, r.hash, result.verdict, result.status);
  }

  /** No stateful window, asserted or in the KG, and no freshness window looks back further. */
  ghost predicate WithinHorizon(x: Input, horizon: int) {
    && (forall i | 0 <= i < |x.slice.obligations| ::
          (x.slice.obligations[i].window.Int? ==> x.slice.obligations[i].window.i <= horizon) &&
          (x.slice.obligations[i].recent.Int? ==> x.slice.obligations[i].recent.i <= horizon))
    && (x.response.parsed.Some? ==>
          forall i | 0 <= i < |x.response.parsed.value.assertions| ::
            ShortWindow(x.response.parsed.value.assertions[i], horizon))
  }

  predicate ShortWindow(a: Assertion, horizon: int) {
    a.window.Some? ==> a.window.value <= horizon
  }

  /** Two telemetry sources that answer every check and every freshness question alike. */
  ghost predicate SameAnswers(t: Telemetry, u: Telemetry, horizon: int) {
    && (forall a | ShortWindow(a, horizon) :: AsyncCheck(t)(a) == AsyncCheck(u)(a))
    && (forall ob: Obligation | ob.recent.Int? ==> ob.recent.i <= horizon :: SampleState(ob, t) == SampleState(ob, u))
  }

  lemma LaterRowsSameAnswers(rows: T.Table, more: T.Table, subject: string, asOf: int, horizon: int)
    requires forall r | r in more :: T.Unseen(r, subject, asOf, horizon)
    ensures SameAnswers(T.At(rows, subject, asOf), T.At(rows + more, subject, asOf), horizon)
  {
    var (t, u) := (T.At(rows, subject, asOf), T.At(rows + more, subject, asOf));
    forall a | ShortWindow(a, horizon) ensures AsyncCheck(t)(a) == AsyncCheck(u)(a) {
      if a.window.Some? && a.window.value > 0 {
        T.LaterRowsInvisible(rows, more, subject, asOf, a.window.value, horizon, Some(a.metric));
      }
    }
    forall ob: Obligation | ob.recent.Int? ==> ob.recent.i <= horizon ensures SampleState(ob, t) == SampleState(ob, u) {
      if ob.recent.Int? {
        T.LaterRowsInvisible(rows, more, subject, asOf, ob.recent.i, horizon, None);
      }
    }
  }

  /** An obligation asks for a recent sample and the buffer holds none. */
  ghost predicate Unsampled(ob: Obligation, rows: T.Table, subject: string, asOf: int) {
    ob.recent.Int? && ob.recent.i > 0 &&
    forall r | r in rows :: r.subject != subject || r.ts > asOf || r.ts < asOf - ob.recent.i
  }

  lemma SampleStateMeans(ob: Obligation, rows: T.Table, subject: string, asOf: int)
    ensures SampleState(ob, T.At(rows, subject, asOf)) ==
            if !ob.recent.Int? || ob.recent.i <= 0 then FreshnessFailed
            else if Unsampled(ob, rows, subject, asOf) then Stale
            else Fresh
  {
    if ob.recent.Int? && ob.recent.i > 0 {
      T.FreshMeansSample(rows, subject, asOf, ob.recent.i);
      if i :| 0 <= i < |rows| && rows[i].subject == subject && asOf - ob.recent.i <= rows[i].ts <= asOf {
        assert rows[i] in rows;
      }
    }
  }

  /** NULL_STALE exactly if some mapped obligation with a well-formed freshness window has no sample in it. */
  lemma GateStaleExactlyWhen(rows: T.Table, subject: string, asOf: int, obs: seq<Obligation>, m: Measurement)
    ensures Gate(obs, m, T.At(rows, subject, asOf)) == Some(NullStale) <==>
            exists i :: 0 <= i < |obs| && Gated(obs[i], m) && Unsampled(obs[i], rows, subject, asOf)
  {
    forall i | 0 <= i < |obs|
      ensures SampleState(obs[i], T.At(rows, subject, asOf)) == Stale <==> Unsampled(obs[i], rows, subject, asOf)
    {
      SampleStateMeans(obs[i], rows, subject, asOf);
    }
  }

  /**
   The server buffers a record before evaluating it, so whatever other requests
   add in between, the freshness gate never finds a mapped obligation stale: it
   can only be undecidable, through a malformed freshness window.
   */
  lemma ServerGateNeverStale(rows: T.Table, r: T.Sample, obs: seq<Obligation>, m: Measurement)
    requires r in rows
    ensures Gate(obs, m, T.At(rows, r.subject, r.ts)) != Some(NullStale)
    ensures Gate(obs, m, T.At(rows, r.subject, r.ts)) == Some(Discretionary) <==>
            exists i :: 0 <= i < |obs| && Gated(obs[i], m) && (!obs[i].recent.Int? || obs[i].recent.i <= 0)
  {
    GateStaleExactlyWhen(rows, r.subject, r.ts, obs, m);
    var t := T.At(rows, r.subject, r.ts);
    forall i | 0 <= i < |obs|
      ensures SampleState(obs[i], t) == FreshnessFailed <==> !obs[i].recent.Int? || obs[i].recent.i <= 0
    {
      SampleStateMeans(obs[i], rows, r.subject, r.ts);
    }
  }

  lemma SameGate(obs: seq<Obligation>, m: Measurement, t: Telemetry, u: Telemetry, horizon: int)
    requires SameAnswers(t, u, horizon)
    requires forall i | 0 <= i < |obs| && obs[i].recent.Int? :: obs[i].recent.i <= horizon
    ensures Gate(obs, m, t) == Gate(obs, m, u)
  {
    forall i | 0 <= i < |obs| ensures SampleState(obs[i], t) == SampleState(obs[i], u) {
    }
    assert AnyGated(obs, m, t, Stale) == AnyGated(obs, m, u, Stale);
    assert AnyGated(obs, m, t, FreshnessFailed) == AnyGated(obs, m, u, FreshnessFailed);
  }

  /** The verifier's report depends on the buffer only through the windows it asks for. */
  lemma SameReport(x: Input, u: Telemetry, horizon: int, verdict: Verdict, as_: seq<Assertion>)
    requires SameAnswers(x.t, u, horizon) && WithinHorizon(x, horizon)
    requires forall i | 0 <= i < |as_| :: ShortWindow(as_[i], horizon)
    ensures SliceReport(x, verdict, as_) == SliceReport(x.(t := u), verdict, as_)
  {
    var c := Call(AsyncCheck(x.t), verdict, Some(x.m), Some(SliceIndex(x)));
    var d := c.(check := AsyncCheck(u));
    forall a | a in as_ ensures c.check(a) == d.check(a) {
      assert ShortWindow(a, horizon);
    }
    EnumerateSound(SliceIndex(x), Some(x.m));
    IndexMembers(x.slice.obligations, |x.slice.obligations|);
    forall p | p in Probes(c) ensures c.check(ProbeAssertion(p)) == d.check(ProbeAssertion(p)) {
      assert Indexed(p.id, p.ob) in SliceIndex(x);
      assert ShortWindow(ProbeAssertion(p), horizon);
    }
    CheckersAgree(c, d, as_);
  }

  lemma CorrectedShort(as_: seq<Assertion>, m: Option<Measurement>, index: Option<Index>, horizon: int)
    requires forall i | 0 <= i < |as_| :: ShortWindow(as_[i], horizon)
    ensures forall i | 0 <= i < |as_| :: ShortWindow(CorrectAll(as_, m, index)[i], horizon)
  {
  }

  lemma SameDraft(x: Input, u: Telemetry, horizon: int, p: Parsed)
    requires SameAnswers(x.t, u, horizon) && WithinHorizon(x, horizon) && x.response.parsed == Some(p)
    ensures ResponseReport(x, p) == ResponseReport(x.(t := u), p) && Draft(x, p) == Draft(x.(t := u), p)
  {
    CorrectedShort(p.assertions, Some(x.m), Some(SliceIndex(x)), horizon);
    SameReport(x, u, horizon, Guarded(x, p).0, CorrectAll(p.assertions, Some(x.m), Some(SliceIndex(x))));
  }

  /** The evaluation is a function of what it can see. */
  lemma SameOutcome(x: Input, u: Telemetry, horizon: int, policy: Policy)
    requires SameAnswers(x.t, u, horizon) && WithinHorizon(x, horizon)
    ensures Outcome(x, policy) == Outcome(x.(t := u), policy)
  {
    SameGate(x.slice.obligations, x.m, x.t, u, horizon);
    SameReport(x, u, horizon, NullUnmapped, []);
    if x.response.parsed.Some? {
      SameDraft(x, u, horizon, x.response.parsed.value);
    }
  }

  /**
   Replay reproduces: whatever the model answered, the entry the server wrote
   replays as matched on any later buffer, if its own record was buffered, one
   hash names one record and no row was added since inside the windows the
   evaluation looks at.
   */
  lemma RecordedEntryReplays(st: Setting, rows: T.Table, r: T.Sample, jurisdiction: Option<string>,
                             subject: Option<string>, response: Response, key: Option<bool>, more: T.Table,
                             horizon: int)
    requires var s := Snapshot(st.scope(jurisdiction, r.ts, subject), jurisdiction, subject);
             Faithful(st.codec, r.measurement, s) && OneLine(st.ids(s.slice))
    requires CleanTemplate(st.template) && key != Some(false)
    requires r in rows && forall s | s in rows + more && s.hash == r.hash :: s == r
    requires forall s | s in more :: T.Unseen(s, r.subject, r.ts, horizon)
    requires WithinHorizon(InputAt(r.measurement, st.scope(jurisdiction, r.ts, subject), response, rows, r.subject,
                                   r.ts), horizon)
    ensures Decide(st, rows + more, Record(st, rows, r, jurisdiction, subject, response, key)).Matched?
  {
    var s := Snapshot(st.scope(jurisdiction, r.ts, subject), jurisdiction, subject);
    PromptRoundTrip(st.codec, st.template, st.ids(s.slice), r.measurement, s);
    T.FetchFinds(rows + more, r);
    LaterRowsSameAnswers(rows, more, r.subject, r.ts, horizon);
    var x := InputAt(r.measurement, s.slice, response, rows, r.subject, r.ts);
    SameOutcome(x, T.At(rows + more, r.subject, r.ts), horizon, st.policy(s.slice));
  }

  /** An entry whose record never reached the buffer, where appending failed, does not replay. */
  lemma UnbufferedEntryMismatches(st: Setting, rows: T.Table, r: T.Sample, jurisdiction: Option<string>,
                                  subject: Option<string>, response: Response, key: Option<bool>, later: T.Table)
    requires var s := Snapshot(st.scope(jurisdiction, r.ts, subject), jurisdiction, subject);
             Faithful(st.codec, r.measurement, s) && OneLine(st.ids(s.slice))
    requires CleanTemplate(st.template) && key != Some(false)
    ensures Decide(st, later, Record(st, rows, r, jurisdiction, subject, response, key)) == Mismatch(BufferRowMissing)
            <==> forall s | s in later :: s.hash != r.hash
  {
    var s := Snapshot(st.scope(jurisdiction, r.ts, subject), jurisdiction, subject);
    PromptRoundTrip(st.codec, st.template, st.ids(s.slice), r.measurement, s);
    T.FetchIsStored(later, r.hash);
  }
}
