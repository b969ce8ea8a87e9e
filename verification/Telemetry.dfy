/** The append-only telemetry buffer: window aggregates, freshness and replay lookup as reads of one table. */
module Telemetry {
  import opened Common
  import opened Values
  import opened Predicates
  import opened Grounding

  datatype Sample = Sample(subject: string, ts: int, measurement: Measurement, hash: string)

  type Table = seq<Sample>

  // ------------------------------------------------------------------ queries

  predicate InWindow(r: Sample, subject: string, asOf: int, seconds: int) {
    r.subject == subject && asOf - seconds < r.ts <= asOf
  }

  function Window(rows: Table, subject: string, asOf: int, seconds: int): Table {
    if rows == [] then []
    else
      var init := Window(rows[..|rows| - 1], subject, asOf, seconds);
      if InWindow(rows[|rows| - 1], subject, asOf, seconds) then init + [rows[|rows| - 1]] else init
  }

  /** measurement #> path, kept where it is a number. */
  function Numbers(rows: Table, path: seq<string>): seq<real> {
    if rows == [] then []
    else
      var v := Walk(Dict(rows[|rows| - 1].measurement), path);
      Numbers(rows[..|rows| - 1], path) + if v.Some? && IsReal(v.value) then [RealOf(v.value)] else []
  }

  /** window_query: BufferError for a window that is not positive, else the aggregate. */
  function WindowQuery(rows: Table, subject: string, asOf: int, seconds: int, metric: Option<string>): WindowResult {
    if seconds <= 0 then Raises
    else
      var hits := Window(rows, subject, asOf, seconds);
      var xs := if metric.Some? && metric.value != "" then Numbers(hits, SplitDots(metric.value)) else [];
      if xs == [] then Aggregate(Int(|hits|), Null, Some(Null))
      else Aggregate(Int(|hits|), Float(Sum(xs) / |xs| as real), Some(Float(Max(xs))))
  }

  /** last_record_ts: MAX(telemetry_ts) at or before asOf. */
  function LastRecord(rows: Table, subject: string, asOf: int): Option<int> {
    if rows == [] then None
    else
      var best := LastRecord(rows[..|rows| - 1], subject, asOf);
      var r := rows[|rows| - 1];
      if r.subject == subject && r.ts <= asOf && (best.None? || r.ts > best.value) then Some(r.ts) else best
  }

  /** has_fresh_sample. */
  function HasFreshSample(rows: Table, subject: string, asOf: int, seconds: int): Freshness {
    if seconds <= 0 then FreshnessFailed
    else
      var last := LastRecord(rows, subject, asOf);
      if last.Some? && asOf - last.value <= seconds then Fresh else Stale
  }

  /** fetch_at: the newest row with the hash. */
  function FetchAt(rows: Table, hash: string): Option<Sample> {
    if rows == [] then None
    else
      var best := FetchAt(rows[..|rows| - 1], hash);
      var r := rows[|rows| - 1];
      if r.hash == hash && (best.None? || r.ts > best.value.ts) then Some(r) else best
  }

  /** The buffer as the evaluator sees it. */
  function BufferOf(rows: Table): Buffer {
    Buffer(
      (subject: string, asOf: int, seconds: int, metric: Option<string>) =>
        WindowQuery(rows, subject, asOf, seconds, metric),
      Some((subject: string, asOf: int, seconds: int) => HasFreshSample(rows, subject, asOf, seconds)))
  }

  class TelemetryBuffer {
    var rows: Table

    constructor ()
      ensures rows == []
    {
      rows := [];
    }

    /** Insert only: no row is ever changed or removed. */
    method Append(r: Sample)
      modifies this
      ensures rows == old(rows) + [r]
    {
      rows := rows + [r];
    }

    method QueryLastRecord(subject: string, asOf: int) returns (last: Option<int>)
      ensures last == LastRecord(rows, subject, asOf)
    {
      last := None;
      var i := 0;
      while i < |rows|
        invariant 0 <= i <= |rows|
        invariant last == LastRecord(rows[..i], subject, asOf)
      {
        assert rows[..i + 1][..i] == rows[..i];
        var r := rows[i];
        if r.subject == subject && r.ts <= asOf && (last.None? || r.ts > last.value) {
          last := Some(r.ts);
        }
        i := i + 1;
      }
      assert rows[..i] == rows;
    }
  }

  // -------------------------------------------------------- what queries mean

  lemma {:induction false} LastRecordIsMax(rows: Table, subject: string, asOf: int)
    ensures forall i | 0 <= i < |rows| && rows[i].subject == subject && rows[i].ts <= asOf ::
              LastRecord(rows, subject, asOf).Some? && rows[i].ts <= LastRecord(rows, subject, asOf).value
    ensures LastRecord(rows, subject, asOf).Some? ==>
              exists i :: 0 <= i < |rows| && rows[i].subject == subject && rows[i].ts <= asOf &&
                          rows[i].ts == LastRecord(rows, subject, asOf).value
  {
    if rows != [] {
      var init := rows[..|rows| - 1];
      LastRecordIsMax(init, subject, asOf);
      if LastRecord(init, subject, asOf).Some? {
        var i :| 0 <= i < |init| && init[i].subject == subject && init[i].ts <= asOf &&
                 init[i].ts == LastRecord(init, subject, asOf).value;
        assert rows[i] == init[i];
      }
    }
  }

  /** Fresh exactly when some sample lies in the window, its oldest instant included. */
  lemma FreshMeansSample(rows: Table, subject: string, asOf: int, seconds: int)
    requires seconds > 0
    ensures HasFreshSample(rows, subject, asOf, seconds).Fresh? <==>
            exists i :: 0 <= i < |rows| && rows[i].subject == subject && asOf - seconds <= rows[i].ts <= asOf
  {
    LastRecordIsMax(rows, subject, asOf);
  }

  lemma {:induction false} WindowMembers(rows: Table, subject: string, asOf: int, seconds: int)
    ensures forall r :: r in Window(rows, subject, asOf, seconds) <==> r in rows && InWindow(r, subject, asOf, seconds)
  {
    if rows != [] {
      WindowMembers(rows[..|rows| - 1], subject, asOf, seconds);
      assert rows == rows[..|rows| - 1] + [rows[|rows| - 1]];
    }
  }

  /**
   A non-empty window implies a fresh sample; the converse fails exactly where
   the newest sample is window_seconds old: fresh for one query, outside for the other.
   */
  lemma NonEmptyWindowIsFresh(rows: Table, subject: string, asOf: int, seconds: int)
    requires seconds > 0
    ensures Window(rows, subject, asOf, seconds) != [] ==> HasFreshSample(rows, subject, asOf, seconds).Fresh?
    ensures HasFreshSample(rows, subject, asOf, seconds).Fresh? && Window(rows, subject, asOf, seconds) == [] <==>
            LastRecord(rows, subject, asOf) == Some(asOf - seconds)
  {
    WindowMembers(rows, subject, asOf, seconds);
    FreshMeansSample(rows, subject, asOf, seconds);
    LastRecordIsMax(rows, subject, asOf);
    var hits := Window(rows, subject, asOf, seconds);
    if hits != [] {
      assert hits[0] in hits;
      var i :| 0 <= i < |rows| && rows[i] == hits[0];
    } else if HasFreshSample(rows, subject, asOf, seconds).Fresh? {
      var i :| 0 <= i < |rows| && rows[i].subject == subject && rows[i].ts <= asOf &&
               rows[i].ts == LastRecord(rows, subject, asOf).value;
      assert rows[i] in rows;
      assert !InWindow(rows[i], subject, asOf, seconds);
    }
  }

  lemma {:induction false} NumbersMembers(rows: Table, path: seq<string>)
    ensures forall x :: x in Numbers(rows, path) <==>
              exists r :: r in rows && Walk(Dict(r.measurement), path).Some? &&
                          ExactNumber(Walk(Dict(r.measurement), path).value) == Some(x)
  {
    if rows != [] {
      var init, last := rows[..|rows| - 1], rows[|rows| - 1];
      assert rows == init + [last];
      NumbersMembers(init, path);
      assert forall x :: x in Numbers(rows, path) <==>
        x in Numbers(init, path) ||
        (Walk(Dict(last.measurement), path).Some? && ExactNumber(Walk(Dict(last.measurement), path).value) == Some(x));
    }
  }

  /** A stored row about the subject, in the window, whose record has this number at the path. */
  ghost predicate Recorded(rows: Table, subject: string, asOf: int, seconds: int, path: seq<string>, r: Sample, x: Val)
  {
    && r in rows && r.subject == subject && asOf - seconds < r.ts <= asOf
    && IsReal(x) && Nested(Dict(r.measurement), path, x)
  }

  lemma HitsAreRecorded(rows: Table, subject: string, asOf: int, seconds: int, path: seq<string>, x: real)
    ensures x in Numbers(Window(rows, subject, asOf, seconds), path) <==>
            exists r, v :: Recorded(rows, subject, asOf, seconds, path, r, v) && RealOf(v) == x
  {
    var hits := Window(rows, subject, asOf, seconds);
    WindowMembers(rows, subject, asOf, seconds);
    NumbersMembers(hits, path);
    if x in Numbers(hits, path) {
      var r :| r in hits && Walk(Dict(r.measurement), path).Some? &&
               ExactNumber(Walk(Dict(r.measurement), path).value) == Some(x);
      var v := Walk(Dict(r.measurement), path).value;
      WalkMeans(Dict(r.measurement), path, v);
      assert Recorded(rows, subject, asOf, seconds, path, r, v);
    }
    if r, v :| Recorded(rows, subject, asOf, seconds, path, r, v) && RealOf(v) == x {
      WalkMeans(Dict(r.measurement), path, v);
      assert r in hits && ExactNumber(v) == Some(x);
    }
  }

  /** The telemetry the verifier is given for a subject and an instant. */
  function At(rows: Table, subject: string, asOf: int): Telemetry {
    Telemetry(Some(subject), Some(asOf), Some(BufferOf(rows)))
  }

  lemma PeakOfRows(rows: Table, subject: string, asOf: int, seconds: int, metric: string, cap: Val)
    requires seconds > 0 && metric != "" && IsReal(cap)
    ensures CheckPeak(At(rows, subject, asOf), metric, Some(seconds), cap) ==
            var xs := Numbers(Window(rows, subject, asOf, seconds), SplitDots(metric));
            if xs == [] then None else Some(Max(xs) <= RealOf(cap))
  {
  }

  lemma LargestRecorded(rows: Table, subject: string, asOf: int, seconds: int, path: seq<string>)
    requires Numbers(Window(rows, subject, asOf, seconds), path) != []
    ensures exists r, v :: Recorded(rows, subject, asOf, seconds, path, r, v) &&
                           RealOf(v) == Max(Numbers(Window(rows, subject, asOf, seconds), path))
  {
    HitsAreRecorded(rows, subject, asOf, seconds, path, Max(Numbers(Window(rows, subject, asOf, seconds), path)));
  }

  lemma RecordedHit(rows: Table, subject: string, asOf: int, seconds: int, path: seq<string>, r: Sample, v: Val)
    requires Recorded(rows, subject, asOf, seconds, path, r, v)
    ensures RealOf(v) in Numbers(Window(rows, subject, asOf, seconds), path)
  {
    HitsAreRecorded(rows, subject, asOf, seconds, path, RealOf(v));
  }

  /** A windowed cap is decided if any row in the window reads a number, and broken if one reads above the cap. */
  lemma PeakIsEveryRow(rows: Table, subject: string, asOf: int, seconds: int, metric: string, cap: Val)
    requires seconds > 0 && metric != "" && IsReal(cap)
    ensures CheckPeak(At(rows, subject, asOf), metric, Some(seconds), cap).Some? <==>
            exists r, v :: Recorded(rows, subject, asOf, seconds, SplitDots(metric), r, v)
    ensures CheckPeak(At(rows, subject, asOf), metric, Some(seconds), cap) == Some(false) <==>
            exists r, v :: Recorded(rows, subject, asOf, seconds, SplitDots(metric), r, v) && RealOf(v) > RealOf(cap)
  {
    var path := SplitDots(metric);
    PeakOfRows(rows, subject, asOf, seconds, metric, cap);
    if Numbers(Window(rows, subject, asOf, seconds), path) != [] {
      LargestRecorded(rows, subject, asOf, seconds, path);
    }
    forall r, v | Recorded(rows, subject, asOf, seconds, path, r, v)
      ensures RealOf(v) in Numbers(Window(rows, subject, asOf, seconds), path)
    {
      RecordedHit(rows, subject, asOf, seconds, path, r, v);
    }
  }

  /** A windowed average is decided on the mean of the numbers in the window. */
  lemma AverageIsOfRows(rows: Table, subject: string, asOf: int, seconds: int, metric: string, range: Val)
    requires seconds > 0 && metric != "" && IsRange(range)
    ensures CheckAverage(At(rows, subject, asOf), metric, Some(seconds), range) ==
            var xs := Numbers(Window(rows, subject, asOf, seconds), SplitDots(metric));
            if xs == [] then None else Some(MeanWithin(xs, RealOf(range.items[0]), RealOf(range.items[1])))
  {
    var xs := Numbers(Window(rows, subject, asOf, seconds), SplitDots(metric));
    if xs != [] {
      MeanMeans(xs, RealOf(range.items[0]), RealOf(range.items[1]));
    }
  }

  /** A query without a metric only counts the rows in the window. */
  lemma CountIsOfRows(rows: Table, subject: string, asOf: int, seconds: int)
    requires seconds > 0
    ensures WindowQuery(rows, subject, asOf, seconds, None) ==
            Aggregate(Int(|Window(rows, subject, asOf, seconds)|), Null, Some(Null))
  {
  }

  // --------------------------------------------------------- later rows

  /** No query about (subject, asOf) over at most horizon seconds can see the row. */
  predicate Unseen(r: Sample, subject: string, asOf: int, horizon: int) {
    r.subject != subject || r.ts > asOf || r.ts < asOf - horizon
  }

  lemma {:induction false} WindowIgnores(rows: Table, more: Table, subject: string, asOf: int, seconds: int,
                                         horizon: int)
    requires seconds <= horizon && forall r | r in more :: Unseen(r, subject, asOf, horizon)
    ensures Window(rows + more, subject, asOf, seconds) == Window(rows, subject, asOf, seconds)
    decreases |more|
  {
    if more == [] {
      NilRight(rows);
    } else {
      var init, last := more[..|more| - 1], more[|more| - 1];
      assert more == init + [last];
      WindowIgnores(rows, init, subject, asOf, seconds, horizon);
      assert (rows + more)[..|rows + more| - 1] == rows + init;
      assert last in more && !InWindow(last, subject, asOf, seconds);
    }
  }

  /** Rows stamped after asOf, about other subjects, or before the horizon change no answer. */
  lemma LaterRowsInvisible(rows: Table, more: Table, subject: string, asOf: int, seconds: int, horizon: int,
                           metric: Option<string>)
    requires seconds <= horizon && forall r | r in more :: Unseen(r, subject, asOf, horizon)
    ensures WindowQuery(rows + more, subject, asOf, seconds, metric) ==
            WindowQuery(rows, subject, asOf, seconds, metric)
    ensures HasFreshSample(rows + more, subject, asOf, seconds) == HasFreshSample(rows, subject, asOf, seconds)
  {
    WindowIgnores(rows, more, subject, asOf, seconds, horizon);
    if seconds > 0 {
      var all := rows + more;
      FreshMeansSample(rows, subject, asOf, seconds);
      FreshMeansSample(all, subject, asOf, seconds);
      if i :| 0 <= i < |rows| && rows[i].subject == subject && asOf - seconds <= rows[i].ts <= asOf {
        assert all[i] == rows[i];
      }
      if i :| 0 <= i < |all| && all[i].subject == subject && asOf - seconds <= all[i].ts <= asOf {
        if i >= |rows| {
          assert all[i] == more[i - |rows|] && all[i] in more;
        }
      }
    }
  }

  /** Rows stamped after asOf also leave last_record_ts alone. */
  lemma {:induction false} LastRecordIgnores(rows: Table, more: Table, subject: string, asOf: int)
    requires forall r | r in more :: r.subject != subject || r.ts > asOf
    ensures LastRecord(rows + more, subject, asOf) == LastRecord(rows, subject, asOf)
    decreases |more|
  {
    if more == [] {
      NilRight(rows);
    } else {
      var init, last := more[..|more| - 1], more[|more| - 1];
      assert more == init + [last];
      LastRecordIgnores(rows, init, subject, asOf);
      assert (rows + more)[..|rows + more| - 1] == rows + init;
      assert last in more;
    }
  }

  /** fetch_at finds the row a hash names, if rows with one hash hold one record. */
  lemma {:induction false} FetchFinds(rows: Table, r: Sample)
    requires r in rows && forall s | s in rows && s.hash == r.hash :: s == r
    ensures FetchAt(rows, r.hash) == Some(r)
  {
    var init, last := rows[..|rows| - 1], rows[|rows| - 1];
    assert rows == init + [last];
    FetchIsStored(init, r.hash);
    if r in init {
      FetchFinds(init, r);
    }
  }

  lemma {:induction false} FetchIsStored(rows: Table, hash: string)
    ensures FetchAt(rows, hash).Some? ==> FetchAt(rows, hash).value in rows && FetchAt(rows, hash).value.hash == hash
    ensures FetchAt(rows, hash).None? <==> forall r | r in rows :: r.hash != hash
  {
    if rows != [] {
      var init, last := rows[..|rows| - 1], rows[|rows| - 1];
      assert rows == init + [last];
      FetchIsStored(init, hash);
    }
  }

  /** fetch_at answers with a row that no other row of the hash is newer than. */
  lemma {:induction false} FetchIsNewest(rows: Table, hash: string, r: Sample)
    requires r in rows && r.hash == hash
    ensures FetchAt(rows, hash).Some? && r.ts <= FetchAt(rows, hash).value.ts
  {
    var init, last := rows[..|rows| - 1], rows[|rows| - 1];
    assert rows == init + [last];
    if r in init {
      FetchIsNewest(init, hash, r);
    }
  }
}
