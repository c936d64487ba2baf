/**
 * The interval extractor, `get_timestamps`: every transcript line naming the
 * speaker opens an utterance at its own timestamp and closes it at the
 * timestamp three lines further down, or at the end of the audio when the
 * transcript runs out first; utterances of a second or less are dropped, and
 * the first timestamp that does not parse ends the run.
 */
module Intervals {
  import opened Wrappers
  import opened Text
  import opened Timestamp
  import opened Spans

  /** The speaker whose lines open an utterance (`prefix`). */
  const Speaker: string := "Joe Rogan"

  /** How far ahead the closing timestamp is read (`next_timestamp`). */
  const NextTimestamp: nat := 3

  /** What one line contributes: nothing, one span, or the failure that ends the run. */
  type Outcome = Result<Option<Span>, ParseError>

  /** `time_str_to_sec(strip_time(line))`. */
  function LineSeconds(line: string): Result<nat, ParseError> {
    TimeStrToSec(StripTime(line))
  }

  /** What line `i` contributes to `get_timestamps`, the start parsed before the end. */
  function LineSpan(text: seq<string>, audioLen: nat, i: nat): Outcome
    requires i < |text|
  {
    if !Contains(text[i], Speaker) then Ok(None)
    else
      match LineSeconds(text[i])
      case Err(e) => Err(e)
      case Ok(start) =>
        var end := if i + NextTimestamp < |text| then LineSeconds(text[i + NextTimestamp]) else Ok(audioLen);
        match end
        case Err(e) => Err(e)
        case Ok(end) => if end - start > 1 then Ok(Some(Span(start, end))) else Ok(None)
  }

  /**
   * Line `i` names the speaker and yields `span`: an utterance lasting more
   * than one second, starting at the line's timestamp and ending at the
   * timestamp three lines down, or at `audio_len` when there is no such line.
   */
  predicate SpanOfLine(text: seq<string>, audioLen: nat, i: nat, span: Span) {
    i < |text| && Contains(text[i], Speaker) && span.Length() > 1 &&
    LineSeconds(text[i]) == Ok(span.start) &&
    if i + NextTimestamp < |text| then LineSeconds(text[i + NextTimestamp]) == Ok(span.end)
    else span.end == audioLen
  }

  /** A line not naming the speaker contributes nothing. */
  lemma LineSpanSilent(text: seq<string>, audioLen: nat, i: nat)
    requires i < |text| && !Contains(text[i], Speaker)
    ensures LineSpan(text, audioLen, i) == Ok(None)
  {
  }

  /** A line contributes a span only when `SpanOfLine` holds of it. */
  lemma LineSpanMeaning(text: seq<string>, audioLen: nat, i: nat)
    requires i < |text|
    ensures var r := LineSpan(text, audioLen, i);
            r.Ok? && r.value.Some? ==> SpanOfLine(text, audioLen, i, r.value.value)
  {
  }

  /** A line fails only when its own timestamp, or the one three lines down, does not parse. */
  lemma LineSpanFailure(text: seq<string>, audioLen: nat, i: nat)
    requires i < |text|
    ensures var r := LineSpan(text, audioLen, i);
            r.Err? ==>
              LineSeconds(text[i]) == Err(r.error) ||
              (i + NextTimestamp < |text| && LineSeconds(text[i + NextTimestamp]) == Err(r.error))
  {
  }

  /**
   * A line naming the speaker fails when its own timestamp does not parse,
   * with that failure; and, its own timestamp parsing, when the one three lines
   * down does not parse, with that one's failure.
   */
  lemma LineSpanAborts(text: seq<string>, audioLen: nat, i: nat)
    requires i < |text| && Contains(text[i], Speaker)
    ensures LineSeconds(text[i]).Err? ==> LineSpan(text, audioLen, i) == Err(LineSeconds(text[i]).error)
    ensures LineSeconds(text[i]).Ok? && i + NextTimestamp < |text| && LineSeconds(text[i + NextTimestamp]).Err? ==>
              LineSpan(text, audioLen, i) == Err(LineSeconds(text[i + NextTimestamp]).error)
  {
  }

  /** Conversely, a line of which `SpanOfLine` holds contributes exactly that span. */
  lemma SpanOfLineContributes(text: seq<string>, audioLen: nat, i: nat, span: Span)
    requires SpanOfLine(text, audioLen, i, span)
    ensures LineSpan(text, audioLen, i) == Ok(Some(span))
  {
  }

  /** The contribution of every line, in order. */
  function Outcomes(text: seq<string>, audioLen: nat): (outcomes: seq<Outcome>)
    ensures |outcomes| == |text|
  {
    seq(|text|, i requires 0 <= i < |text| => LineSpan(text, audioLen, i))
  }

  /**
   * The loop of `get_timestamps` over the first `n` contributions: spans are
   * appended in order, and the first failure is the result.
   */
  function Collect(outcomes: seq<Outcome>, n: nat): Result<seq<Span>, ParseError>
    requires n <= |outcomes|
  {
    if n == 0 then Ok([])
    else
      match Collect(outcomes, n - 1)
      case Err(e) => Err(e)
      case Ok(spans) =>
        match outcomes[n - 1]
        case Err(e) => Err(e)
        case Ok(None) => Ok(spans)
        case Ok(Some(span)) => Ok(spans + [span])
  }

  /** `get_timestamps(text, audio_len)`, its two lists zipped into spans. */
  function Timestamps(text: seq<string>, audioLen: nat): Result<seq<Span>, ParseError> {
    Collect(Outcomes(text, audioLen), |text|)
  }

  /** The indices, in order, of the first `n` outcomes that carry a span. */
  function Kept(outcomes: seq<Outcome>, n: nat): (kept: seq<nat>)
    requires n <= |outcomes|
    ensures forall k :: 0 <= k < |kept| ==> kept[k] < n && outcomes[kept[k]].Ok? && outcomes[kept[k]].value.Some?
    ensures forall k, l :: 0 <= k < l < |kept| ==> kept[k] < kept[l]
    ensures forall i :: 0 <= i < n && outcomes[i].Ok? && outcomes[i].value.Some? ==> i in kept
  {
    if n == 0 then []
    else
      var prefix := Kept(outcomes, n - 1);
      if outcomes[n - 1].Ok? && outcomes[n - 1].value.Some? then prefix + [n - 1] else prefix
  }

  /** A successful collection holds exactly the spans carried by the outcomes, in order. */
  lemma {:induction false} CollectKept(outcomes: seq<Outcome>, n: nat)
    requires n <= |outcomes|
    requires Collect(outcomes, n).Ok?
    ensures var spans := Collect(outcomes, n).value;
            var kept := Kept(outcomes, n);
            |spans| == |kept| &&
            forall k :: 0 <= k < |kept| ==> outcomes[kept[k]] == Ok(Some(spans[k]))
  {
    if n > 0 {
      var prev := Collect(outcomes, n - 1);
      assert prev.Ok?;
      CollectKept(outcomes, n - 1);
      var kept := Kept(outcomes, n - 1);
      if outcomes[n - 1].Ok? && outcomes[n - 1].value.Some? {
        assert Collect(outcomes, n).value == prev.value + [outcomes[n - 1].value.value];
        assert Kept(outcomes, n) == kept + [n - 1];
      } else {
        assert Collect(outcomes, n).value == prev.value;
        assert Kept(outcomes, n) == kept;
      }
    }
  }

  /** The collection succeeds exactly when no outcome is a failure. */
  lemma {:induction false} CollectSucceeds(outcomes: seq<Outcome>, n: nat)
    requires n <= |outcomes|
    ensures Collect(outcomes, n).Ok? <==> forall i :: 0 <= i < n ==> outcomes[i].Ok?
  {
    if n > 0 {
      CollectSucceeds(outcomes, n - 1);
    }
  }

  /** A failed collection reports the first failure. */
  lemma {:induction false} CollectFirstFailure(outcomes: seq<Outcome>, n: nat)
    requires n <= |outcomes|
    requires Collect(outcomes, n).Err?
    ensures exists i :: 0 <= i < n && outcomes[i] == Err(Collect(outcomes, n).error) &&
                        forall j :: 0 <= j < i ==> outcomes[j].Ok?
  {
    var e := Collect(outcomes, n).error;
    if Collect(outcomes, n - 1).Err? {
      assert Collect(outcomes, n) == Collect(outcomes, n - 1);
      CollectFirstFailure(outcomes, n - 1);
      var i :| 0 <= i < n - 1 && outcomes[i] == Err(e) && forall j :: 0 <= j < i ==> outcomes[j].Ok?;
      assert 0 <= i < n;
    } else {
      CollectSucceeds(outcomes, n - 1);
      assert outcomes[n - 1] == Err(e);
      assert forall j :: 0 <= j < n - 1 ==> outcomes[j].Ok?;
    }
  }

  /** Once the collection has failed, later outcomes do not change the failure. */
  lemma {:induction false} FailureSticks(outcomes: seq<Outcome>, n: nat, m: nat)
    requires n <= m <= |outcomes|
    requires Collect(outcomes, n).Err?
    ensures Collect(outcomes, m) == Collect(outcomes, n)
    decreases m - n
  {
    if n < m {
      FailureSticks(outcomes, n, m - 1);
    }
  }

  /** The number of lines that name the speaker. */
  function SpeakerLines(text: seq<string>): nat {
    |set i | 0 <= i < |text| && Contains(text[i], Speaker)|
  }

  /** Every kept line names the speaker and carries the span its contribution holds. */
  lemma KeptLines(text: seq<string>, audioLen: nat)
    ensures forall i :: i in Kept(Outcomes(text, audioLen), |text|) ==>
              i < |text| && Contains(text[i], Speaker) && LineSpan(text, audioLen, i) == Outcomes(text, audioLen)[i]
  {
    var outcomes := Outcomes(text, audioLen);
    var lines := Kept(outcomes, |text|);
    forall i | i in lines
      ensures i < |text| && Contains(text[i], Speaker) && LineSpan(text, audioLen, i) == outcomes[i]
    {
      LineSpanMeaning(text, audioLen, i);
    }
  }

  /** Strictly increasing indices of lines naming the speaker are no more than there are such lines. */
  lemma FewerThanNamed(text: seq<string>, lines: seq<nat>)
    requires forall k, l :: 0 <= k < l < |lines| ==> lines[k] < lines[l]
    requires forall i :: i in lines ==> i < |text| && Contains(text[i], Speaker)
    ensures |lines| <= SpeakerLines(text)
  {
    var named := set i | 0 <= i < |text| && Contains(text[i], Speaker);
    var used := set k | 0 <= k < |lines| :: lines[k];
    forall i | i in used ensures i in named {
      var k :| 0 <= k < |lines| && lines[k] == i;
      assert lines[k] in lines;
    }
    DistinctCount(lines);
    SubsetCount(used, named);
  }

  /**
   * What `get_timestamps` returns on success: one span per contributing line,
   * in line order, each from a distinct line naming the speaker and meaning
   * what `SpanOfLine` says; no more spans than lines naming the speaker.
   */
  lemma TimestampsSpans(text: seq<string>, audioLen: nat)
    requires Timestamps(text, audioLen).Ok?
    ensures var spans := Timestamps(text, audioLen).value;
            var lines := Kept(Outcomes(text, audioLen), |text|);
            |spans| == |lines| && |spans| <= SpeakerLines(text) &&
            (forall k, l :: 0 <= k < l < |lines| ==> lines[k] < lines[l]) &&
            forall k :: 0 <= k < |spans| ==> SpanOfLine(text, audioLen, lines[k], spans[k])
  {
    var outcomes := Outcomes(text, audioLen);
    var lines := Kept(outcomes, |text|);
    CollectKept(outcomes, |text|);
    KeptLines(text, audioLen);
    FewerThanNamed(text, lines);
    SpansFromLines(text, audioLen, Timestamps(text, audioLen).value, lines);
  }

  /** The spans carried by the contributions of the given lines are the spans of those lines. */
  lemma SpansFromLines(text: seq<string>, audioLen: nat, spans: seq<Span>, lines: seq<nat>)
    requires |spans| == |lines|
    requires forall k :: 0 <= k < |lines| ==> lines[k] < |text| && LineSpan(text, audioLen, lines[k]) == Ok(Some(spans[k]))
    ensures forall k :: 0 <= k < |spans| ==> SpanOfLine(text, audioLen, lines[k], spans[k])
  {
    forall k | 0 <= k < |lines| {
      LineSpanMeaning(text, audioLen, lines[k]);
    }
  }

  /** The entries of a strictly increasing list are as many as the list is long. */
  lemma {:induction false} DistinctCount(s: seq<nat>)
    requires forall k, l :: 0 <= k < l < |s| ==> s[k] < s[l]
    ensures |set k | 0 <= k < |s| :: s[k]| == |s|
  {
    if s != [] {
      var init := s[..|s| - 1];
      DistinctCount(init);
      var a := set k | 0 <= k < |init| :: init[k];
      var b := set k | 0 <= k < |s| :: s[k];
      assert b == a + {s[|s| - 1]};
      assert s[|s| - 1] !in a;
    }
  }

  lemma SubsetCount(a: set<nat>, b: set<nat>)
    requires a <= b
    ensures |a| <= |b|
  {
    assert b == a + (b - a);
  }

  /** The run succeeds exactly when no line fails. */
  lemma TimestampsSucceed(text: seq<string>, audioLen: nat)
    ensures Timestamps(text, audioLen).Ok? <==> forall i :: 0 <= i < |text| ==> LineSpan(text, audioLen, i).Ok?
  {
    var outcomes := Outcomes(text, audioLen);
    assert forall i :: 0 <= i < |text| ==> outcomes[i] == LineSpan(text, audioLen, i);
    CollectSucceeds(outcomes, |text|);
  }

  /** A line naming the speaker whose own timestamp, or the one three lines down, does not parse ends the run in failure. */
  lemma TimestampsAbort(text: seq<string>, audioLen: nat, i: nat)
    requires i < |text| && Contains(text[i], Speaker)
    requires LineSeconds(text[i]).Err? || (i + NextTimestamp < |text| && LineSeconds(text[i + NextTimestamp]).Err?)
    ensures Timestamps(text, audioLen).Err?
  {
    LineSpanAborts(text, audioLen, i);
    TimestampsSucceed(text, audioLen);
  }

  /** A failed run reports the failure of the first line that fails. */
  lemma TimestampsFailure(text: seq<string>, audioLen: nat)
    requires Timestamps(text, audioLen).Err?
    ensures exists i :: 0 <= i < |text| && LineSpan(text, audioLen, i) == Err(Timestamps(text, audioLen).error) &&
                        forall j :: 0 <= j < i ==> LineSpan(text, audioLen, j).Ok?
  {
    var outcomes := Outcomes(text, audioLen);
    var e := Timestamps(text, audioLen).error;
    CollectFirstFailure(outcomes, |text|);
    var i :| 0 <= i < |text| && outcomes[i] == Err(e) && forall j :: 0 <= j < i ==> outcomes[j].Ok?;
    OutcomesAre(text, audioLen, i + 1);
  }

  /** The first `n` outcomes are the contributions of the first `n` lines. */
  lemma OutcomesAre(text: seq<string>, audioLen: nat, n: nat)
    requires n <= |text|
    ensures forall j :: 0 <= j < n ==> Outcomes(text, audioLen)[j] == LineSpan(text, audioLen, j)
  {
  }

  /** The body of the loop of `get_timestamps` for line `i`: what that line contributes. */
  method LineContribution(text: seq<string>, audioLen: nat, i: nat) returns (o: Outcome)
    requires i < |text|
    ensures o == LineSpan(text, audioLen, i)
  {
    var line := text[i];
    if !Contains(line, Speaker) {
      return Ok(None);
    }
    var startTime := LineSeconds(line);
    if startTime.Err? {
      return Err(startTime.error);
    }
    var endTime: nat;
    if i + NextTimestamp < |text| {
      var parsed := LineSeconds(text[i + NextTimestamp]);
      if parsed.Err? {
        return Err(parsed.error);
      }
      endTime := parsed.value;
    } else {
      endTime := audioLen;
    }
    // Utterances of a second or less are dropped.
    if endTime - startTime.value > 1 {
      o := Ok(Some(Span(startTime.value, endTime)));
    } else {
      o := Ok(None);
    }
  }

  /** One turn of the loop of `get_timestamps`: the `i`th contribution extends the lists, leaves them, or ends the run. */
  lemma CollectStep(outcomes: seq<Outcome>, i: nat, starts: seq<nat>, ends: seq<nat>)
    requires i < |outcomes| && |starts| == |ends|
    requires Collect(outcomes, i) == Ok(Zip(starts, ends))
    ensures outcomes[i].Err? ==> Collect(outcomes, |outcomes|) == Err(outcomes[i].error)
    ensures outcomes[i] == Ok(None) ==> Collect(outcomes, i + 1) == Ok(Zip(starts, ends))
    ensures outcomes[i].Ok? && outcomes[i].value.Some? ==>
              var span := outcomes[i].value.value;
              Collect(outcomes, i + 1) == Ok(Zip(starts + [span.start], ends + [span.end]))
  {
    match outcomes[i]
    case Err(e) =>
      FailureSticks(outcomes, i + 1, |outcomes|);
    case Ok(None) =>
    case Ok(Some(span)) =>
      ZipAppend(starts, ends, span.start, span.end);
  }

  /** `get_timestamps`: the parallel lists of starts and ends, or the failure that ends the run. */
  method GetTimestamps(text: seq<string>, audioLen: nat) returns (r: Result<(seq<nat>, seq<nat>), ParseError>)
    ensures r.Err? <==> Timestamps(text, audioLen).Err?
    ensures r.Err? ==> r.error == Timestamps(text, audioLen).error
    ensures r.Ok? ==> |r.value.0| == |r.value.1| && Zip(r.value.0, r.value.1) == Timestamps(text, audioLen).value
  {
    ghost var outcomes := Outcomes(text, audioLen);
    var startTimes: seq<nat> := [];
    var endTimes: seq<nat> := [];
    for i := 0 to |text|
      invariant |startTimes| == |endTimes|
      invariant Collect(outcomes, i) == Ok(Zip(startTimes, endTimes))
    {
      var contribution := LineContribution(text, audioLen, i);
      assert outcomes[i] == contribution;
      CollectStep(outcomes, i, startTimes, endTimes);
      match contribution
      case Err(e) =>
        return Err(e);
      case Ok(None) =>
      case Ok(Some(span)) =>
        startTimes := startTimes + [span.start];
        endTimes := endTimes + [span.end];
    }
    r := Ok((startTimes, endTimes));
  }
}
