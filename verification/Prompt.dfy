/** The canonical prompt: rendering it from a measurement and a snapshot, and recovering both from its text. */
module Prompt {
  import opened Common

  const NEWLINE: char := '\n'
  const MEASUREMENT: string := "MEASUREMENT:"
  const SNAPSHOT: string := "KG SNAPSHOT:"

  predicate OneLine(s: string) {
    forall i | 0 <= i < |s| :: s[i] != NEWLINE
  }

  /** json.dumps and json.loads of the two objects: foreign code. */
  datatype Codec<!M, !S> = Codec(
    dumpMeasurement: M -> string,
    loadMeasurement: string -> Option<M>,
    dumpSnapshot: S -> string,
    loadSnapshot: string -> Option<S>
  )

  /** The text of a JSON object: braces, and every newline escaped. */
  predicate ObjectLine(s: string) {
    |s| >= 2 && s[0] == '{' && s[|s| - 1] == '}' && OneLine(s)
  }

  /** What json promises of one value: its text is one line, and reads back as the value. */
  ghost predicate FaithfulOn<V>(dump: V -> string, load: string -> Option<V>, v: V) {
    ObjectLine(dump(v)) && load(dump(v)) == Some(v)
  }

  /** The two objects of one prompt survive the codec. */
  ghost predicate Faithful<M, S>(c: Codec<M, S>, m: M, s: S) {
    FaithfulOn(c.dumpMeasurement, c.loadMeasurement, m) && FaithfulOn(c.dumpSnapshot, c.loadSnapshot, s)
  }

  // ---------------------------------------------------------------- template

  /** The prompt text above the data: its lines, one of which ends in the list of valid node ids. */
  datatype Template = Template(before: seq<string>, idsPrefix: string, after: seq<string>)

  function Head(t: Template, ids: string): (lines: seq<string>)
    ensures lines != []
  {
    t.before + [t.idsPrefix + ids] + t.after
  }

  /** No line of the wording is the marker line, and the ids stand behind other text. */
  ghost predicate CleanTemplate(t: Template) {
    && (forall i | 0 <= i < |t.before| :: OneLine(t.before[i]) && t.before[i] != MEASUREMENT)
    && (forall i | 0 <= i < |t.after| :: OneLine(t.after[i]) && t.after[i] != MEASUREMENT)
    && OneLine(t.idsPrefix) && t.idsPrefix != "" && t.idsPrefix[0] == ' '
  }

  function Unlines(lines: seq<string>): string {
    if lines == [] then [] else lines[0] + [NEWLINE] + Unlines(lines[1..])
  }

  function Data(measurement: string, snapshot: string): string {
    measurement + [NEWLINE] + ([NEWLINE] + SNAPSHOT + [NEWLINE]) + (snapshot + [NEWLINE])
  }

  function Render<M, S>(c: Codec<M, S>, t: Template, ids: string, m: M, s: S): string {
    Unlines(Head(t, ids)) + MEASUREMENT + [NEWLINE] + Data(c.dumpMeasurement(m), c.dumpSnapshot(s))
  }

  // ---------------------------------------------------------------- recovery

  function Marker(word: string): string {
    [NEWLINE] + word + [NEWLINE]
  }

  predicate StartsWith(text: string, sep: string) {
    |sep| <= |text| && text[..|sep|] == sep
  }

  /** str.partition: what precedes and follows the first occurrence. */
  function Partition(text: string, sep: string): Option<(string, string)> {
    if StartsWith(text, sep) then Some(([], text[|sep|..]))
    else if text == [] then None
    else
      var rest := Partition(text[1..], sep);
      if rest.None? then None else Some(([text[0]] + rest.value.0, rest.value.1))
  }

  predicate IsSpace(c: char) {
    c in {' ', '\t', '\n', '\r', '\U{0b}', '\U{0c}'}
  }

  function StripLeft(s: string): string {
    if s != [] && IsSpace(s[0]) then StripLeft(s[1..]) else s
  }

  function StripRight(s: string): string {
    if s != [] && IsSpace(s[|s| - 1]) then StripRight(s[..|s| - 1]) else s
  }

  function Strip(s: string): string {
    StripRight(StripLeft(s))
  }

  const MEASUREMENT_MARKER: string := "\nMEASUREMENT:\n"
  const SNAPSHOT_MARKER: string := "\nKG SNAPSHOT:\n"

  /** What recovery looks for is what the template writes. */
  lemma MarkersAgree()
    ensures Marker(MEASUREMENT) == MEASUREMENT_MARKER && Marker(SNAPSHOT) == SNAPSHOT_MARKER
  {
  }

  /** recover_prompt_inputs; None where it raises ValueError. */
  function Recover<M, S>(c: Codec<M, S>, text: string): Option<(M, S)> {
    var first := Partition(text, MEASUREMENT_MARKER);
    if first.None? then None
    else
      var second := Partition(first.value.1, SNAPSHOT_MARKER);
      if second.None? then None
      else
        var m := c.loadMeasurement(Strip(second.value.0));
        var s := c.loadSnapshot(Strip(second.value.1));
        if m.None? || s.None? then None else Some((m.value, s.value))
  }

  // -------------------------------------------------------- the first marker

  lemma StartsMatch(text: string, sep: string, i: nat)
    requires i < |sep| && i < |text|
    ensures StartsWith(text, sep) ==> text[i] == sep[i]
  {
    if StartsWith(text, sep) {
      assert text[..|sep|][i] == sep[i];
    }
  }

  lemma DifferentAt(a: string, b: string) returns (i: nat)
    requires |a| == |b| && a != b
    ensures i < |a| && a[i] != b[i]
  {
    i :| i < |a| && a[i] != b[i];
  }

  /** A newline-free run holds no marker, wherever the text goes on. */
  lemma {:induction false} SkipRun(run: string, rest: string, sep: string)
    requires OneLine(run) && sep != "" && sep[0] == NEWLINE
    ensures Partition(run + rest, sep) ==
            if Partition(rest, sep).None? then None
            else Some((run + Partition(rest, sep).value.0, Partition(rest, sep).value.1))
  {
    if run == [] {
      assert run + rest == rest;
      if Partition(rest, sep).Some? {
        assert run + Partition(rest, sep).value.0 == Partition(rest, sep).value.0;
      }
    } else {
      var text := run + rest;
      assert text[0] == run[0] && text[1..] == run[1..] + rest;
      StartsMatch(text, sep, 0);
      SkipRun(run[1..], rest, sep);
      if Partition(rest, sep).Some? {
        assert [run[0]] + (run[1..] + Partition(rest, sep).value.0) == run + Partition(rest, sep).value.0;
      }
    }
  }

  /** A full line that is not the word does not begin a marker. */
  lemma OtherLine(line: string, rest: string, word: string)
    requires OneLine(line) && OneLine(word) && line != word
    ensures !StartsWith([NEWLINE] + (line + [NEWLINE] + rest), Marker(word))
  {
    var text, sep := [NEWLINE] + (line + [NEWLINE] + rest), Marker(word);
    assert text[|line| + 1] == NEWLINE && sep[|word| + 1] == NEWLINE;
    if |line| < |word| {
      assert sep[|line| + 1] == word[|line|];
      StartsMatch(text, sep, |line| + 1);
    } else if |word| < |line| {
      assert text[|word| + 1] == line[|word|];
      StartsMatch(text, sep, |word| + 1);
    } else {
      var i := DifferentAt(line, word);
      assert text[i + 1] == line[i] && sep[i + 1] == word[i];
      StartsMatch(text, sep, i + 1);
    }
  }

  lemma MarkerHere(word: string, tail: string)
    ensures Partition(Marker(word) + tail, Marker(word)) == Some(([], tail))
  {
    assert (Marker(word) + tail)[..|Marker(word)|] == Marker(word);
    assert (Marker(word) + tail)[|Marker(word)|..] == tail;
  }

  /** A newline that does not begin a marker is passed over. */
  lemma SkipNewline(rest: string, sep: string)
    requires !StartsWith([NEWLINE] + rest, sep)
    ensures Partition([NEWLINE] + rest, sep).Some? <==> Partition(rest, sep).Some?
    ensures Partition(rest, sep).Some? ==> Partition([NEWLINE] + rest, sep).value.1 == Partition(rest, sep).value.1
  {
    assert ([NEWLINE] + rest)[1..] == rest;
  }

  /** The newline that ends one line, the following lines and the marker line: the search arrives there. */
  lemma {:induction false} FindBelow(lines: seq<string>, word: string, tail: string)
    requires OneLine(word) && forall i | 0 <= i < |lines| :: OneLine(lines[i]) && lines[i] != word
    ensures var found := Partition([NEWLINE] + (Unlines(lines) + (word + [NEWLINE] + tail)), Marker(word));
            found.Some? && found.value.1 == tail
    decreases |lines|
  {
    var last := word + [NEWLINE] + tail;
    if lines == [] {
      assert Unlines(lines) + last == last;
      assert [NEWLINE] + last == Marker(word) + tail;
      MarkerHere(word, tail);
    } else {
      var line, more := lines[0], Unlines(lines[1..]) + last;
      assert Unlines(lines) + last == line + [NEWLINE] + more;
      assert line + [NEWLINE] + more == line + ([NEWLINE] + more);
      OtherLine(line, more, word);
      FindBelow(lines[1..], word, tail);
      SkipNewline(line + ([NEWLINE] + more), Marker(word));
      SkipRun(line, [NEWLINE] + more, Marker(word));
    }
  }

  /** The first marker stands where the template puts it. */
  lemma FindMeasurement(lines: seq<string>, tail: string)
    requires lines != [] && forall i | 0 <= i < |lines| :: OneLine(lines[i]) && lines[i] != MEASUREMENT
    ensures var found := Partition(Unlines(lines) + MEASUREMENT + [NEWLINE] + tail, Marker(MEASUREMENT));
            found.Some? && found.value.1 == tail
  {
    var last := MEASUREMENT + [NEWLINE] + tail;
    var more := Unlines(lines[1..]) + last;
    assert Unlines(lines) + MEASUREMENT + [NEWLINE] + tail == lines[0] + ([NEWLINE] + more);
    FindBelow(lines[1..], MEASUREMENT, tail);
    SkipRun(lines[0], [NEWLINE] + more, Marker(MEASUREMENT));
  }

  lemma FindSnapshot(measurement: string, snapshot: string)
    requires OneLine(measurement)
    ensures Partition(Data(measurement, snapshot), Marker(SNAPSHOT)) ==
            Some((measurement + [NEWLINE], snapshot + [NEWLINE]))
  {
    var tail := snapshot + [NEWLINE];
    var marked := Marker(SNAPSHOT) + tail;
    assert Data(measurement, snapshot) == measurement + ([NEWLINE] + marked);
    MarkerHere(SNAPSHOT, tail);
    assert ([NEWLINE] + marked)[1] == NEWLINE && Marker(SNAPSHOT)[1] == 'K';
    StartsMatch([NEWLINE] + marked, Marker(SNAPSHOT), 1);
    assert ([NEWLINE] + marked)[1..] == marked;
    assert Partition([NEWLINE] + marked, Marker(SNAPSHOT)) == Some(([NEWLINE] + [], tail));
    SkipRun(measurement, [NEWLINE] + marked, Marker(SNAPSHOT));
    assert measurement + ([NEWLINE] + []) == measurement + [NEWLINE];
  }

  lemma StripLine(s: string)
    requires ObjectLine(s)
    ensures Strip(s + [NEWLINE]) == s
  {
    var t := s + [NEWLINE];
    assert t[0] == '{' && t[..|t| - 1] == s;
    assert StripLeft(t) == t;
    assert StripRight(s) == s;
  }

  // ------------------------------------------------------------- round trip

  lemma HeadIsClean(t: Template, ids: string)
    requires CleanTemplate(t) && OneLine(ids)
    ensures forall i | 0 <= i < |Head(t, ids)| :: OneLine(Head(t, ids)[i]) && Head(t, ids)[i] != MEASUREMENT
  {
    var line := t.idsPrefix + ids;
    assert line[0] == ' ' && MEASUREMENT[0] == 'M';
  }

  /** Prompt round trip: for every measurement, snapshot and list of ids that JSON itself carries. */
  lemma PromptRoundTrip<M, S>(c: Codec<M, S>, t: Template, ids: string, m: M, s: S)
    requires Faithful(c, m, s) && CleanTemplate(t) && OneLine(ids)
    ensures Recover(c, Render(c, t, ids, m, s)) == Some((m, s))
  {
    var measurement, snapshot := c.dumpMeasurement(m), c.dumpSnapshot(s);
    MarkersAgree();
    HeadIsClean(t, ids);
    FindMeasurement(Head(t, ids), Data(measurement, snapshot));
    FindSnapshot(measurement, snapshot);
    StripLine(measurement);
    StripLine(snapshot);
  }
}
