/**
 * The pure part of the extraction driver, `main`: the episode identifier
 * taken from the transcript's path, the flattening of every utterance into
 * its pieces, and the file name each piece is exported under.
 */
module Driver {
  import opened Wrappers
  import opened Text
  import opened Spans
  import opened Timestamp
  import opened Intervals
  import opened Segments

  /** `transcript[-8:].replace('.txt', '')`. */
  function EpisodeNum(transcript: string): string {
    var tail := if |transcript| <= 8 then transcript else transcript[|transcript| - 8..];
    RemoveAll(tail, ".txt")
  }

  /** A transcript named `<dir>/dddd.txt` has the episode identifier `dddd`. */
  lemma EpisodeOfNumberedTranscript(dir: string, number: string)
    requires |number| == 4 && AllDigits(number)
    ensures EpisodeNum(dir + number + ".txt") == number
  {
    var path := dir + number + ".txt";
    assert path[|path| - 8..] == number + ".txt";
    RemoveAllTail(number, ".txt");
  }

  /**
   * `str(datetime.timedelta(seconds=s))`: the seconds past whole days split
   * by `divmod` into hours, minutes and seconds, written `H:MM:SS`, after
   * `N day, ` or `N days, ` from one day on.
   */
  function TimedeltaText(s: nat): string {
    var days, secs := s / 86400, s % 86400;
    var mm, ss := secs / 60, secs % 60;
    var hh, mm := mm / 60, mm % 60;
    var clock := NatToString(hh) + ":" + TwoDigits(mm) + ":" + TwoDigits(ss);
    if days == 0 then clock
    else NatToString(days) + (if days == 1 then " day, " else " days, ") + clock
  }

  /** `episode_num + '_' + '0' + str(timedelta(seconds=s)).replace(':', '_')`. */
  function ClipName(episode: string, s: nat): string {
    episode + "_" + "0" + ReplaceChar(TimedeltaText(s), ':', '_')
  }

  /** Replacing the two colons of `H:MM:SS` leaves the digits alone. */
  lemma ReplaceColons(h: string, m: string, sec: string)
    requires AllDigits(h) && AllDigits(m) && AllDigits(sec)
    ensures ReplaceChar(h + ":" + m + ":" + sec, ':', '_') == h + "_" + m + "_" + sec
  {
    var x, y := h + ":" + m + ":" + sec, h + "_" + m + "_" + sec;
    var r := ReplaceChar(x, ':', '_');
    forall i | 0 <= i < |x| ensures r[i] == y[i] {
      if i < |h| {
        assert x[i] == h[i] && y[i] == h[i];
      } else if i == |h| {
        assert x[i] == ':' && y[i] == '_';
      } else if i < |h| + 1 + |m| {
        assert x[i] == m[i - |h| - 1] && y[i] == m[i - |h| - 1];
      } else if i == |h| + 1 + |m| {
        assert x[i] == ':' && y[i] == '_';
      } else {
        assert x[i] == sec[i - |h| - 2 - |m|] && y[i] == sec[i - |h| - 2 - |m|];
      }
    }
  }

  /**
   * Within the first day the clip name is the episode, `_0`, the unpadded
   * hour, and the two-digit minute and second, joined by underscores.
   */
  lemma ClipNameWithinDay(episode: string, s: nat)
    requires s < 86400
    ensures ClipName(episode, s) ==
              episode + "_0" + (NatToString(s / 60 / 60) + "_" + TwoDigits(s / 60 % 60) + "_" + TwoDigits(s % 60))
  {
    assert s / 86400 == 0 && s % 86400 == s;
    var h, m, sec := NatToString(s / 60 / 60), TwoDigits(s / 60 % 60), TwoDigits(s % 60);
    assert TimedeltaText(s) == h + ":" + m + ":" + sec;
    ReplaceColons(h, m, sec);
    assert episode + "_" + "0" == episode + "_0";
  }

  /**
   * The start offset read back from a clip name of the first day: the
   * fields after the episode and its `_0`, as hours, minutes and seconds.
   */
  function ClipStart(name: string, episodeLen: nat): Option<nat> {
    if |name| < episodeLen + 2 + 7 then None
    else
      var t := name[episodeLen + 2..];
      ClockValue(t[..|t| - 6], t[|t| - 5..|t| - 3], t[|t| - 2..])
  }

  /** Three digit fields read as hours, minutes and seconds. */
  function ClockValue(hour: string, minute: string, second: string): Option<nat> {
    if AllDigits(hour) && AllDigits(minute) && AllDigits(second) then
      Some(DecimalValue(hour) * 3600 + DecimalValue(minute) * 60 + DecimalValue(second))
    else None
  }

  lemma ClockValueOfDigits(hour: string, minute: string, second: string)
    requires AllDigits(hour) && AllDigits(minute) && AllDigits(second)
    ensures ClockValue(hour, minute, second) == Some(DecimalValue(hour) * 3600 + DecimalValue(minute) * 60 + DecimalValue(second))
  {
  }

  /** `H_MM_SS` cut at fixed distances from its end gives back its three fields. */
  lemma ClockFields(h: string, m: string, sec: string)
    requires |m| == 2 && |sec| == 2
    ensures var t := h + "_" + m + "_" + sec;
            t[..|t| - 6] == h && t[|t| - 5..|t| - 3] == m && t[|t| - 2..] == sec
  {
  }

  /** The decoder reads the three underscore-separated digit fields after the episode and `_0`. */
  lemma ClipStartOfFields(episode: string, h: string, m: string, sec: string)
    requires 1 <= |h| && |m| == 2 && |sec| == 2
    requires AllDigits(h) && AllDigits(m) && AllDigits(sec)
    ensures ClipStart(episode + "_0" + (h + "_" + m + "_" + sec), |episode|) ==
              Some(DecimalValue(h) * 3600 + DecimalValue(m) * 60 + DecimalValue(sec))
  {
    var t := h + "_" + m + "_" + sec;
    var name := episode + "_0" + t;
    assert name[|episode| + 2..] == t;
    ClockFields(h, m, sec);
    assert ClipStart(name, |episode|) == ClockValue(h, m, sec);
    ClockValueOfDigits(h, m, sec);
  }

  /** Hours, minutes and seconds by `divmod` put back together give the seconds of the day. */
  lemma DivmodClock(s: nat)
    requires s < 86400
    ensures s / 60 / 60 * 3600 + s / 60 % 60 * 60 + s % 60 == s
  {
    assert s / 60 / 60 * 60 + s / 60 % 60 == s / 60;
    assert s / 60 * 60 + s % 60 == s;
  }

  /** Reading the start back from a first-day clip name gives the start it was made from. */
  lemma ClipStartOfName(episode: string, s: nat)
    requires s < 86400
    ensures ClipStart(ClipName(episode, s), |episode|) == Some(s)
  {
    var h, m, sec := s / 60 / 60, s / 60 % 60, s % 60;
    ClipNameWithinDay(episode, s);
    NatToStringRoundTrip(h);
    ClipStartOfFields(episode, NatToString(h), TwoDigits(m), TwoDigits(sec));
    DivmodClock(s);
    assert h * 3600 + m * 60 + sec == s;
  }

  /** Two pieces of one episode starting at different offsets within the first day never share a file name. */
  lemma ClipNamesDistinct(episode: string, s1: nat, s2: nat)
    requires s1 < 86400 && s2 < 86400 && s1 != s2
    ensures ClipName(episode, s1) != ClipName(episode, s2)
  {
    ClipStartOfName(episode, s1);
    ClipStartOfName(episode, s2);
  }

  /** One exported clip: the episode it belongs to and the stretch of audio it holds. */
  datatype Clip = Clip(episode: string, span: Span) {
    /** The file name it is exported under, without the `.wav` extension. */
    function Name(): string {
      ClipName(episode, span.start)
    }
  }

  /** Every utterance cut into its pieces, utterance by utterance, in order. */
  function SubIntervals(spans: seq<Span>, segLen: nat): seq<Span> {
    if spans == [] then []
    else
      var last := spans[|spans| - 1];
      SubIntervals(spans[..|spans| - 1], segLen) + Segmented(last.start, last.end, segLen)
  }

  /** The clip exported for each piece. */
  function ClipsOf(episode: string, pieces: seq<Span>): (clips: seq<Clip>)
    ensures |clips| == |pieces|
  {
    if pieces == [] then []
    else
      var last := pieces[|pieces| - 1];
      ClipsOf(episode, pieces[..|pieces| - 1]) + [Clip(episode, last)]
  }

  /** The `k`th clip holds the `k`th piece, of the given episode. */
  lemma {:induction false} ClipsOfAt(episode: string, pieces: seq<Span>)
    ensures forall k :: 0 <= k < |pieces| ==> ClipsOf(episode, pieces)[k] == Clip(episode, pieces[k])
  {
    if pieces != [] {
      var init := pieces[..|pieces| - 1];
      ClipsOfAt(episode, init);
      assert forall k :: 0 <= k < |init| ==> pieces[k] == init[k];
    }
  }

  lemma ClipsOfAppend(episode: string, pieces: seq<Span>, piece: Span)
    ensures ClipsOf(episode, pieces + [piece]) == ClipsOf(episode, pieces) + [Clip(episode, piece)]
  {
    assert (pieces + [piece])[..|pieces|] == pieces;
  }

  /** Taking one more utterance adds its pieces at the end. */
  lemma SubIntervalsStep(starts: seq<nat>, ends: seq<nat>, i: nat, segLen: nat)
    requires |starts| == |ends| && i < |starts|
    ensures SubIntervals(Zip(starts[..i + 1], ends[..i + 1]), segLen) ==
              SubIntervals(Zip(starts[..i], ends[..i]), segLen) + Segmented(starts[i], ends[i], segLen)
  {
    assert starts[..i + 1][..i] == starts[..i] && ends[..i + 1][..i] == ends[..i];
    var spans := Zip(starts[..i + 1], ends[..i + 1]);
    assert spans == Zip(starts[..i], ends[..i]) + [Span(starts[i], ends[i])];
    assert spans[..i] == Zip(starts[..i], ends[..i]);
  }

  /** With cutting disabled, the pieces are the utterances themselves. */
  lemma {:induction false} SubIntervalsUncut(spans: seq<Span>)
    ensures SubIntervals(spans, 0) == spans
  {
    if spans != [] {
      SubIntervalsUncut(spans[..|spans| - 1]);
      assert spans[..|spans| - 1] + [spans[|spans| - 1]] == spans;
    }
  }

  /** `piece` lies within one of `spans`. */
  predicate Inside(piece: Span, spans: seq<Span>) {
    exists k :: 0 <= k < |spans| && spans[k].start <= piece.start && piece.end <= spans[k].end
  }

  /** Each piece of a stretch of positive length is of positive length, at most `segLen` long and inside the stretch. */
  lemma SegmentedBounded(start: nat, end: nat, segLen: nat)
    requires segLen > 0 && start < end
    ensures var r := Segmented(start, end, segLen);
            forall q :: 0 <= q < |r| ==> 0 < r[q].Length() <= segLen && start <= r[q].start && r[q].end <= end
  {
    SegmentedShape(start, end, segLen);
    var r := Segmented(start, end, segLen);
    if end - start > segLen {
      forall q | 0 <= q < |r| ensures 0 < r[q].Length() <= segLen {
        if q < |r| - 1 {
          assert r[q].Length() == segLen;
        }
      }
    }
  }

  /**
   * With cutting enabled and utterances of positive length, every piece is
   * of positive length, at most `segLen` long, and inside an utterance.
   */
  lemma {:induction false} SubIntervalsBounded(spans: seq<Span>, segLen: nat)
    requires segLen > 0
    requires forall k :: 0 <= k < |spans| ==> spans[k].Length() > 0
    ensures forall p :: 0 <= p < |SubIntervals(spans, segLen)| ==>
              0 < SubIntervals(spans, segLen)[p].Length() <= segLen && Inside(SubIntervals(spans, segLen)[p], spans)
  {
    if spans != [] {
      var init, last := spans[..|spans| - 1], spans[|spans| - 1];
      SubIntervalsBounded(init, segLen);
      var before, cut := SubIntervals(init, segLen), Segmented(last.start, last.end, segLen);
      SegmentedBounded(last.start, last.end, segLen);
      var pieces := SubIntervals(spans, segLen);
      assert pieces == before + cut;
      forall p | 0 <= p < |pieces| ensures 0 < pieces[p].Length() <= segLen && Inside(pieces[p], spans) {
        if p < |before| {
          assert pieces[p] == before[p];
          assert Inside(before[p], init);
          var k :| 0 <= k < |init| && init[k].start <= before[p].start && before[p].end <= init[k].end;
          assert spans[k] == init[k];
        } else {
          var q := p - |before|;
          assert pieces[p] == cut[q];
          assert last.start <= cut[q].start && cut[q].end <= last.end;
          assert spans[|spans| - 1] == last;
        }
      }
    }
  }

  /**
   * The flattening loop of `main`: for every utterance, every piece
   * `further_segment` makes of it, named after its start.
   */
  method ExtractClips(episode: string, startTimes: seq<nat>, endTimes: seq<nat>, segLen: nat) returns (clips: seq<Clip>)
    requires |startTimes| == |endTimes|
    ensures clips == ClipsOf(episode, SubIntervals(Zip(startTimes, endTimes), segLen))
  {
    clips := [];
    for i := 0 to |startTimes|
      invariant clips == ClipsOf(episode, SubIntervals(Zip(startTimes[..i], endTimes[..i]), segLen))
    {
      var segStartTimes, segEndTimes := FurtherSegment(startTimes[i], endTimes[i], segLen);
      ghost var done := SubIntervals(Zip(startTimes[..i], endTimes[..i]), segLen);
      assert segStartTimes[..0] == [] && segEndTimes[..0] == [];
      assert done + Zip(segStartTimes[..0], segEndTimes[..0]) == done;
      for j := 0 to |segStartTimes|
        invariant clips == ClipsOf(episode, done + Zip(segStartTimes[..j], segEndTimes[..j]))
      {
        PieceStep(episode, done, segStartTimes, segEndTimes, j);
        clips := clips + [Clip(episode, Span(segStartTimes[j], segEndTimes[j]))];
      }
      assert segStartTimes[..|segStartTimes|] == segStartTimes && segEndTimes[..|segEndTimes|] == segEndTimes;
      SubIntervalsStep(startTimes, endTimes, i, segLen);
    }
    assert startTimes[..|startTimes|] == startTimes && endTimes[..|endTimes|] == endTimes;
  }

  /** One turn of the inner loop: the clip for the `j`th piece follows the clips before it. */
  lemma PieceStep(episode: string, done: seq<Span>, starts: seq<nat>, ends: seq<nat>, j: nat)
    requires |starts| == |ends| && j < |starts|
    ensures ClipsOf(episode, done + Zip(starts[..j + 1], ends[..j + 1])) ==
              ClipsOf(episode, done + Zip(starts[..j], ends[..j])) + [Clip(episode, Span(starts[j], ends[j]))]
  {
    assert starts[..j + 1] == starts[..j] + [starts[j]] && ends[..j + 1] == ends[..j] + [ends[j]];
    ZipAppend(starts[..j], ends[..j], starts[j], ends[j]);
    var before := done + Zip(starts[..j], ends[..j]);
    assert done + Zip(starts[..j + 1], ends[..j + 1]) == before + [Span(starts[j], ends[j])];
    ClipsOfAppend(episode, before, Span(starts[j], ends[j]));
  }
}
