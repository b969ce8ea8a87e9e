/** chunk_text: overlapping chunks of a text, when its loop ends, and when it loses nothing. */
module Chunking {
  import opened Common

  datatype ChunkError = BadChunkSize | BadOverlap

  predicate IsBreak(c: char) {
    c in {'.', '!', '?', '\n'}
  }

  /** text[k] is a sentence break; a negative k counts from the end, as in Python. */
  predicate BreakAt(text: string, k: int) {
    if 0 <= k < |text| then IsBreak(text[k])
    else -|text| <= k < 0 && IsBreak(text[|text| + k])
  }

  /** text[start:end] for an end inside the text; a negative start counts from the end. */
  function PySlice(text: string, start: int, end: int): string {
    var lo := if start >= 0 then start else if |text| + start >= 0 then |text| + start else 0;
    if lo <= end <= |text| then text[lo..end] else []
  }

  /** Look back from k for a sentence break, no further than low. */
  function LookBack(text: string, low: int, k: int, otherwise: int): (end: int)
    requires low <= k
    ensures end == otherwise || low + 2 <= end <= k + 1
    decreases k - low
  {
    if k == low then otherwise
    else if BreakAt(text, k) then k + 1
    else LookBack(text, low, k - 1, otherwise)
  }

  /** Where the chunk that starts at start ends. */
  function ChunkEnd(text: string, max: nat, start: int): (end: int)
    requires max > 0
    ensures start < |text| ==> start < end <= |text| && end <= start + max + 1
    ensures end < |text| ==> end - start >= if max < max / 2 + 2 then max else max / 2 + 2
  {
    if start + max < |text| then LookBack(text, start + max / 2, start + max, start + max) else |text|
  }

  method FindEnd(text: string, max: nat, start: int) returns (end: int)
    requires max > 0 && start < |text|
    ensures end == ChunkEnd(text, max, start)
  {
    end := if start + max < |text| then start + max else |text|;
    if end < |text| {
      var lookback := end;
      while lookback > start + max / 2
        invariant start + max / 2 <= lookback <= start + max
        invariant end == start + max
        invariant LookBack(text, start + max / 2, lookback, start + max) == ChunkEnd(text, max, start)
      {
        if BreakAt(text, lookback) {
          end := lookback + 1;
          break;
        }
        lookback := lookback - 1;
      }
    }
  }

  ghost predicate NoBreak(text: string, lo: int, hi: int) {
    forall i | lo < i <= hi :: !BreakAt(text, i)
  }

  /** The lookback ends after the last break of its window, if there is one. */
  lemma {:induction false} LookBackFinds(text: string, low: int, k: int, otherwise: int)
    requires low <= k
    ensures var end := LookBack(text, low, k, otherwise);
            || (end == otherwise && NoBreak(text, low, k))
            || (low < end - 1 <= k && BreakAt(text, end - 1) && NoBreak(text, end - 1, k))
    decreases k - low
  {
    if k > low && !BreakAt(text, k) {
      LookBackFinds(text, low, k - 1, otherwise);
    }
  }

  // ------------------------------------------------------------------- runs

  /** The character at k, counted from the end of the text where k is negative, ends a sentence or a line. */
  predicate SentenceEnd(text: string, k: int) {
    var i := if k < 0 then |text| + k else k;
    0 <= i < |text| && (text[i] == '.' || text[i] == '!' || text[i] == '?' || text[i] == '\n')
  }

  /**
   A round that does not reach the end of the text stops behind the last sentence
   end of the second half of its window, one character behind the window included;
   and where there is none it takes the whole window.
   */
  lemma EndsAtSentence(text: string, max: nat, start: int)
    requires max > 0 && start + max < |text|
    ensures var end := ChunkEnd(text, max, start);
            || (&& SentenceEnd(text, end - 1) && start + max / 2 < end - 1 <= start + max
                && forall k | end - 1 < k <= start + max :: !SentenceEnd(text, k))
            || (end == start + max && forall k | start + max / 2 < k <= start + max :: !SentenceEnd(text, k))
  {
    LookBackFinds(text, start + max / 2, start + max, start + max);
    forall k | start + max / 2 < k <= start + max ensures SentenceEnd(text, k) <==> BreakAt(text, k) {
    }
  }

  /** A chunk that ends at end is followed by one that ends at next. */
  predicate Follows(text: string, max: nat, overlap: nat, end: int, next: int) {
    max > 0 && end < |text| && next == ChunkEnd(text, max, end - overlap)
  }

  /** The ends of the first rounds of the loop. */
  ghost predicate Rounds(text: string, max: nat, overlap: nat, ends: seq<int>) {
    && max > 0
    && ends != [] && ends[0] == ChunkEnd(text, max, 0)
    && forall i, j | 0 <= i && j == i + 1 && j < |ends| :: Follows(text, max, overlap, ends[i], ends[j])
  }

  /** The ends of all rounds: the last one reaches the end of the text. */
  ghost predicate Run(text: string, max: nat, overlap: nat, ends: seq<int>) {
    Rounds(text, max, overlap, ends) && ends[|ends| - 1] == |text|
  }

  /** The loop ends. */
  ghost predicate Finishes(text: string, max: nat, overlap: nat) {
    exists ends :: Run(text, max, overlap, ends)
  }

  /** A step that ends where the step before it ended: from there on nothing changes. */
  ghost predicate Stuck(text: string, max: nat, overlap: nat, end: int) {
    && max / 2 + 2 <= overlap
    && end - overlap + max < |text|
    && BreakAt(text, end - 1)
    && NoBreak(text, end - 1, end - overlap + max)
  }

  /** Ends never go back, and the next one is the same exactly where the loop is stuck. */
  lemma EndsNeverGoBack(text: string, max: nat, overlap: nat, start: int, end: int)
    requires overlap < max && start < |text| && end == ChunkEnd(text, max, start) < |text|
    ensures ChunkEnd(text, max, end - overlap) >= end
    ensures ChunkEnd(text, max, end - overlap) == end <==> Stuck(text, max, overlap, end)
  {
    var next := end - overlap;
    LookBackFinds(text, start + max / 2, start + max, start + max);
    if next + max < |text| {
      LookBackFinds(text, next + max / 2, next + max, next + max);
    }
  }

  /** The position a round starts from. */
  function StartOf(overlap: nat, ends: seq<int>, i: nat): int
    requires i < |ends|
  {
    if i == 0 then 0 else ends[i - 1] - overlap
  }

  lemma RoundAt(text: string, max: nat, overlap: nat, ends: seq<int>, i: nat)
    requires Rounds(text, max, overlap, ends) && text != [] && i < |ends|
    ensures StartOf(overlap, ends, i) < |text| && ends[i] == ChunkEnd(text, max, StartOf(overlap, ends, i)) <= |text|
    ensures i > 0 ==> ends[i - 1] < |text|
  {
    if i > 0 {
      assert Follows(text, max, overlap, ends[i - 1], ends[i]);
    }
  }

  lemma RoundsExtend(text: string, max: nat, overlap: nat, ends: seq<int>, next: int)
    requires Rounds(text, max, overlap, ends) && Follows(text, max, overlap, ends[|ends| - 1], next)
    ensures Rounds(text, max, overlap, ends + [next])
  {
  }

  /** From any rounds on, the loop either reaches the end or gets stuck. */
  lemma {:induction false} EndsOrStuck(text: string, max: nat, overlap: nat, ends: seq<int>) returns (more: seq<int>)
    requires overlap < max && text != [] && Rounds(text, max, overlap, ends)
    ensures Rounds(text, max, overlap, more)
    ensures more[|more| - 1] == |text| || Stuck(text, max, overlap, more[|more| - 1])
    decreases |text| - ends[|ends| - 1]
  {
    var last := |ends| - 1;
    RoundAt(text, max, overlap, ends, last);
    more := ends;
    if ends[last] < |text| {
      EndsNeverGoBack(text, max, overlap, StartOf(overlap, ends, last), ends[last]);
      var next := ChunkEnd(text, max, ends[last] - overlap);
      if next > ends[last] {
        RoundsExtend(text, max, overlap, ends, next);
        more := EndsOrStuck(text, max, overlap, ends + [next]);
      }
    }
  }

  /** The loop is deterministic, and once stuck it stays there. */
  lemma {:induction false} StuckStays(text: string, max: nat, overlap: nat, stuck: seq<int>, ends: seq<int>, i: nat)
    requires overlap < max && text != [] && Rounds(text, max, overlap, stuck) && Rounds(text, max, overlap, ends)
    requires Stuck(text, max, overlap, stuck[|stuck| - 1]) && stuck[|stuck| - 1] < |text| && i < |ends|
    ensures ends[i] == stuck[if i < |stuck| then i else |stuck| - 1]
  {
    if i > 0 {
      StuckStays(text, max, overlap, stuck, ends, i - 1);
      assert Follows(text, max, overlap, ends[i - 1], ends[i]);
      if i < |stuck| {
        assert Follows(text, max, overlap, stuck[i - 1], stuck[i]);
      } else {
        var last := |stuck| - 1;
        RoundAt(text, max, overlap, stuck, last);
        EndsNeverGoBack(text, max, overlap, StartOf(overlap, stuck, last), stuck[last]);
      }
    }
  }

  /** The rounds lead to an end at which the loop is stuck. */
  ghost predicate GetsStuck(text: string, max: nat, overlap: nat, ends: seq<int>) {
    Rounds(text, max, overlap, ends) && ends[|ends| - 1] < |text| && Stuck(text, max, overlap, ends[|ends| - 1])
  }

  /** The loop runs for ever exactly if it visits an end at which it is stuck. */
  lemma FinishesUnlessStuck(text: string, max: nat, overlap: nat)
    requires overlap < max && text != []
    ensures Finishes(text, max, overlap) <==> !exists ends :: GetsStuck(text, max, overlap, ends)
  {
    var first := [ChunkEnd(text, max, 0)];
    assert Rounds(text, max, overlap, first);
    var more := EndsOrStuck(text, max, overlap, first);
    RoundAt(text, max, overlap, more, |more| - 1);
    if more[|more| - 1] == |text| {
      assert Run(text, max, overlap, more);
    } else {
      assert GetsStuck(text, max, overlap, more);
    }
    if stuck, ends :| GetsStuck(text, max, overlap, stuck) && Run(text, max, overlap, ends) {
      StuckStays(text, max, overlap, stuck, ends, |ends| - 1);
      NotAtEnd(text, max, overlap, stuck, if |ends| <= |stuck| then |ends| - 1 else |stuck| - 1);
    }
  }

  lemma NotAtEnd(text: string, max: nat, overlap: nat, stuck: seq<int>, i: nat)
    requires GetsStuck(text, max, overlap, stuck) && i < |stuck|
    ensures stuck[i] < |text|
  {
    if i + 1 < |stuck| {
      assert Follows(text, max, overlap, stuck[i], stuck[i + 1]);
    }
  }

  // ------------------------------------------------------- texts and overlaps

  function Filler(n: nat): (s: string)
    ensures |s| == n && forall i | 0 <= i < n :: s[i] == 'a'
  {
    if n == 0 then [] else Filler(n - 1) + ['a']
  }

  /** One period just past the middle of the first window. */
  function StallingText(max: nat): string {
    Filler(max / 2 + 1) + ['.'] + Filler(max)
  }

  lemma StallingTextStalls(max: nat, overlap: nat)
    requires max / 2 + 2 <= overlap < max
    ensures |StallingText(max)| > max && GetsStuck(StallingText(max), max, overlap, [max / 2 + 2])
  {
    var text := StallingText(max);
    assert text[max / 2 + 1] == '.' && forall i | max / 2 + 1 < i < |text| :: text[i] == 'a';
    assert BreakAt(text, max / 2 + 1);
    LookBackFinds(text, max / 2, max, max);
  }

  ghost predicate AlwaysFinishes(max: nat, overlap: nat) {
    forall text: string | |text| > max :: Finishes(text, max, overlap)
  }

  /** The coded guard is not enough: the loop ends on all texts exactly if overlap <= max_chunk_size // 2 + 1. */
  lemma FinishesExactlyWhen(max: nat, overlap: nat)
    requires overlap < max
    ensures AlwaysFinishes(max, overlap) <==> overlap <= max / 2 + 1
  {
    if overlap > max / 2 + 1 {
      StallingTextStalls(max, overlap);
      FinishesUnlessStuck(StallingText(max), max, overlap);
      assert !Finishes(StallingText(max), max, overlap);
    } else {
      forall text: string | |text| > max ensures Finishes(text, max, overlap) {
        FinishesUnlessStuck(text, max, overlap);
      }
    }
  }

  /** With 100 and 52, a text of 152 characters is re-read from position 0 for ever. */
  lemma StallExample(ends: seq<int>, i: nat)
    requires Rounds(StallingText(100), 100, 52, ends) && i < |ends|
    ensures |StallingText(100)| == 152 && StartOf(52, ends, i) == 0 && ends[i] == 52
  {
    StallingTextStalls(100, 52);
    StuckStays(StallingText(100), 100, 52, [52], ends, i);
    if i > 0 {
      StuckStays(StallingText(100), 100, 52, [52], ends, i - 1);
    }
  }

  // ----------------------------------------------------------------- chunks

  /** The chunk of one round. */
  function ChunkOf(text: string, overlap: nat, ends: seq<int>, i: nat): string
    requires i < |ends|
  {
    PySlice(text, StartOf(overlap, ends, i), ends[i])
  }

  /** One chunk for each round. */
  ghost predicate AreChunks(text: string, overlap: nat, ends: seq<int>, chunks: seq<string>) {
    |chunks| == |ends| && forall i | 0 <= i < |ends| :: chunks[i] == ChunkOf(text, overlap, ends, i)
  }

  /** What chunk_text returns on valid sizes. */
  ghost predicate IsChunking(text: string, max: nat, overlap: nat, chunks: seq<string>) {
    if |text| <= max then chunks == [text]
    else exists ends :: Run(text, max, overlap, ends) && AreChunks(text, overlap, ends, chunks)
  }

  /** The inputs on which the loop ends; on the others there is no result. */
  ghost predicate Terminates(text: string, max: int, overlap: int) {
    0 <= overlap < max < |text| ==> Finishes(text, max, overlap)
  }

  lemma LastRound(text: string, max: nat, overlap: nat, ends: seq<int>, i: nat)
    requires Run(text, max, overlap, ends) && i < |ends|
    ensures ends[i] >= |text| <==> i == |ends| - 1
  {
    if i < |ends| - 1 {
      assert Follows(text, max, overlap, ends[i], ends[i + 1]);
    }
  }

  lemma ChunksAppend(text: string, overlap: nat, ends: seq<int>, chunks: seq<string>)
    requires |chunks| < |ends| && AreChunks(text, overlap, ends[..|chunks|], chunks)
    ensures AreChunks(text, overlap, ends[..|chunks| + 1], chunks + [ChunkOf(text, overlap, ends, |chunks|)])
  {
    var (some, all) := (ends[..|chunks|], ends[..|chunks| + 1]);
    forall i | 0 <= i < |chunks| ensures ChunkOf(text, overlap, all, i) == ChunkOf(text, overlap, some, i) {
    }
  }

  method ChunkText(text: string, max: int, overlap: int) returns (r: Result<seq<string>, ChunkError>)
    requires Terminates(text, max, overlap)
    ensures max <= 0 ==> r == Err(BadChunkSize)
    ensures max > 0 && !(0 <= overlap < max) ==> r == Err(BadOverlap)
    ensures 0 <= overlap < max ==> r.Ok? && IsChunking(text, max, overlap, r.value)
  {
    if max <= 0 {
      return Err(BadChunkSize);
    }
    if overlap < 0 || overlap >= max {
      return Err(BadOverlap);
    }
    if |text| <= max {
      return Ok([text]);
    }
    ghost var ends :| Run(text, max, overlap, ends);
    var chunks: seq<string> := [];
    var start := 0;
    while start < |text|
      invariant |chunks| < |ends| && start == StartOf(overlap, ends, |chunks|) < |text|
      invariant AreChunks(text, overlap, ends[..|chunks|], chunks)
      decreases |ends| - |chunks|
    {
      RoundAt(text, max, overlap, ends, |chunks|);
      LastRound(text, max, overlap, ends, |chunks|);
      var end := FindEnd(text, max, start);
      ChunksAppend(text, overlap, ends, chunks);
      chunks := chunks + [PySlice(text, start, end)];
      if end >= |text| {
        assert ends[..|chunks|] == ends;
        return Ok(chunks);
      }
      start := end - overlap;
    }
  }

  lemma {:induction false} SameRounds(text: string, max: nat, overlap: nat, a: seq<int>, b: seq<int>, i: nat)
    requires Rounds(text, max, overlap, a) && Rounds(text, max, overlap, b) && i < |a| && i < |b|
    ensures a[i] == b[i]
  {
    if i > 0 {
      SameRounds(text, max, overlap, a, b, i - 1);
      assert Follows(text, max, overlap, a[i - 1], a[i]) && Follows(text, max, overlap, b[i - 1], b[i]);
    }
  }

  /** The chunks are determined by the text and the sizes. */
  lemma ChunkingIsUnique(text: string, max: nat, overlap: nat, a: seq<string>, b: seq<string>)
    requires IsChunking(text, max, overlap, a) && IsChunking(text, max, overlap, b)
    ensures a == b
  {
    if |text| > max {
      var x :| Run(text, max, overlap, x) && AreChunks(text, overlap, x, a);
      var y :| Run(text, max, overlap, y) && AreChunks(text, overlap, y, b);
      var shared := if |x| <= |y| then |x| else |y|;
      forall i | 0 <= i < shared ensures x[i] == y[i] {
        SameRounds(text, max, overlap, x, y, i);
      }
      LastRound(text, max, overlap, x, shared - 1);
      LastRound(text, max, overlap, y, shared - 1);
      assert x == y;
    }
  }

  // ------------------------------------------------------------------- sizes

  /** A break stands right behind the full window from start on. */
  predicate BreakBehind(text: string, max: nat, start: int) {
    0 <= start < |text| - max && IsBreak(text[start + max])
  }

  /** The window goes past the limit exactly if a break stands right behind it. */
  lemma EndPastLimit(text: string, max: nat, start: int)
    requires max > 0 && start < |text|
    ensures ChunkEnd(text, max, start) > start + max <==> start + max < |text| && BreakAt(text, start + max)
  {
  }

  lemma ChunkLength(text: string, max: nat, start: int)
    requires 0 < max < |text| && start < |text|
    ensures |PySlice(text, start, ChunkEnd(text, max, start))| ==
            if start < 0 then 0 else ChunkEnd(text, max, start) - start
  {
  }

  /**
   The chunk of a round has at most max_chunk_size + 1 characters; the one too
   many exactly if a break stands right behind the full window; and it is empty
   exactly if the round starts before the text.
   */
  lemma ChunkSizes(text: string, max: nat, overlap: nat, ends: seq<int>, i: nat)
    requires 0 < max < |text| && Rounds(text, max, overlap, ends) && i < |ends|
    ensures var (start, c) := (StartOf(overlap, ends, i), ChunkOf(text, overlap, ends, i));
            && |c| <= max + 1
            && (|c| > max <==> BreakBehind(text, max, start))
            && (c == [] <==> start < 0)
  {
    RoundAt(text, max, overlap, ends, i);
    ChunkLength(text, max, StartOf(overlap, ends, i));
    EndPastLimit(text, max, StartOf(overlap, ends, i));
  }

  ghost predicate SomeBreakBehind(text: string, max: nat, overlap: nat, ends: seq<int>) {
    exists i :: 0 <= i < |ends| && BreakBehind(text, max, StartOf(overlap, ends, i))
  }

  ghost predicate SomeLonger(chunks: seq<string>, max: nat) {
    exists i :: 0 <= i < |chunks| && |chunks[i]| > max
  }

  /** Some chunk exceeds max_chunk_size exactly if some round has a break right behind its window. */
  lemma LimitExceededExactlyWhen(text: string, max: nat, overlap: nat, ends: seq<int>, chunks: seq<string>)
    requires 0 < max < |text| && Run(text, max, overlap, ends) && AreChunks(text, overlap, ends, chunks)
    ensures SomeLonger(chunks, max) <==> SomeBreakBehind(text, max, overlap, ends)
  {
    forall i | 0 <= i < |chunks| ensures |chunks[i]| > max <==> BreakBehind(text, max, StartOf(overlap, ends, i)) {
      ChunkSizes(text, max, overlap, ends, i);
    }
  }

  /** Six characters in chunks of four: the first has five. */
  lemma OneCharacterOver()
    ensures IsChunking("abcd.f", 4, 0, ["abcd.", "f"])
  {
    var text := "abcd.f";
    assert BreakAt(text, 4);
    assert ChunkEnd(text, 4, 0) == 5 && Follows(text, 4, 0, 5, 6);
    assert PySlice(text, 0, 5) == "abcd." && PySlice(text, 5, 6) == "f";
    assert Run(text, 4, 0, [5, 6]) && AreChunks(text, 0, [5, 6], ["abcd.", "f"]);
  }

  // ---------------------------------------------------------- nothing is lost

  function Drop(chunk: string, overlap: nat): string {
    if overlap <= |chunk| then chunk[overlap..] else []
  }

  /** Drop the repeated characters of every chunk but the first and join. */
  function Reassemble(chunks: seq<string>, overlap: nat): string
    requires chunks != []
  {
    if |chunks| == 1 then chunks[0]
    else Reassemble(chunks[..|chunks| - 1], overlap) + Drop(chunks[|chunks| - 1], overlap)
  }

  lemma PrefixGrows(text: string, before: string, prev: int, end: int, overlap: nat)
    requires overlap <= prev < end <= |text| && before == text[..prev]
    ensures before + Drop(PySlice(text, prev - overlap, end), overlap) == text[..end]
  {
    assert Drop(PySlice(text, prev - overlap, end), overlap) == text[prev..end];
  }

  lemma RunIsNeverStuck(text: string, max: nat, overlap: nat, ends: seq<int>, i: nat)
    requires overlap < max < |text| && Run(text, max, overlap, ends) && i < |ends|
    ensures ends[i] >= |text| || !Stuck(text, max, overlap, ends[i])
  {
    if ends[i] < |text| && Stuck(text, max, overlap, ends[i]) {
      assert GetsStuck(text, max, overlap, ends[..i + 1]);
      FinishesUnlessStuck(text, max, overlap);
    }
  }

  lemma Increasing(text: string, max: nat, overlap: nat, ends: seq<int>, i: nat)
    requires overlap < max < |text| && Run(text, max, overlap, ends) && 0 < i < |ends|
    ensures ends[i - 1] < ends[i] <= |text|
  {
    RoundAt(text, max, overlap, ends, i - 1);
    RoundAt(text, max, overlap, ends, i);
    EndsNeverGoBack(text, max, overlap, StartOf(overlap, ends, i - 1), ends[i - 1]);
    RunIsNeverStuck(text, max, overlap, ends, i - 1);
  }

  lemma TakeOneMore(chunks: seq<string>, i: nat, overlap: nat)
    requires 0 < i < |chunks|
    ensures Reassemble(chunks[..i + 1], overlap) == Reassemble(chunks[..i], overlap) + Drop(chunks[i], overlap)
  {
    assert chunks[..i + 1][..i] == chunks[..i];
  }

  /** Where the second round starts inside the text, the first rounds give back the text up to their end. */
  lemma {:induction false} PrefixComesBack(text: string, max: nat, overlap: nat, ends: seq<int>, chunks: seq<string>,
                                           i: nat)
    requires overlap < max < |text| && Run(text, max, overlap, ends) && AreChunks(text, overlap, ends, chunks)
    requires overlap <= ends[0] && i < |ends|
    ensures ends[0] <= ends[i] <= |text| && Reassemble(chunks[..i + 1], overlap) == text[..ends[i]]
  {
    RoundAt(text, max, overlap, ends, i);
    if i > 0 {
      PrefixComesBack(text, max, overlap, ends, chunks, i - 1);
      Increasing(text, max, overlap, ends, i);
      TakeOneMore(chunks, i, overlap);
      PrefixGrows(text, Reassemble(chunks[..i], overlap), ends[i - 1], ends[i], overlap);
    }
  }

  lemma DropLength(chunk: string, overlap: nat)
    ensures |Drop(chunk, overlap)| == if overlap <= |chunk| then |chunk| - overlap else 0
  {
  }

  /** Where it starts before the text, something is missing from the second round on. */
  lemma {:induction false} PrefixIsShort(text: string, max: nat, overlap: nat, ends: seq<int>, chunks: seq<string>,
                                         i: nat)
    requires overlap < max < |text| && Run(text, max, overlap, ends) && AreChunks(text, overlap, ends, chunks)
    requires overlap > ends[0] && i < |ends|
    ensures |Reassemble(chunks[..i + 1], overlap)| <= ends[i] - if i > 0 then 1 else 0
  {
    ChunkSizes(text, max, overlap, ends, i);
    RoundAt(text, max, overlap, ends, i);
    if i > 0 {
      PrefixIsShort(text, max, overlap, ends, chunks, i - 1);
      Increasing(text, max, overlap, ends, i);
      TakeOneMore(chunks, i, overlap);
      DropLength(chunks[i], overlap);
      ChunkLength(text, max, ends[i - 1] - overlap);
    }
  }

  /**
   Dropping the overlap of every later chunk and joining gives back the text
   exactly if the second round does not start before the text.
   */
  lemma LosslessExactlyWhen(text: string, max: nat, overlap: nat, ends: seq<int>, chunks: seq<string>)
    requires overlap < max < |text| && Run(text, max, overlap, ends) && AreChunks(text, overlap, ends, chunks)
    ensures Reassemble(chunks, overlap) == text <==> overlap <= ends[0]
  {
    var last := |ends| - 1;
    assert chunks[..last + 1] == chunks;
    if overlap <= ends[0] {
      PrefixComesBack(text, max, overlap, ends, chunks, last);
    } else {
      PrefixIsShort(text, max, overlap, ends, chunks, last);
    }
  }

  /** Under the guard the comment should have asked for, every text is chunked and nothing is lost. */
  lemma ChunkingIsLossless(text: string, max: nat, overlap: nat, chunks: seq<string>)
    requires overlap < max && overlap <= max / 2 + 1 && IsChunking(text, max, overlap, chunks)
    ensures Terminates(text, max, overlap) && Reassemble(chunks, overlap) == text
  {
    if |text| > max {
      var ends :| Run(text, max, overlap, ends) && AreChunks(text, overlap, ends, chunks);
      LosslessExactlyWhen(text, max, overlap, ends, chunks);
    }
  }
}
