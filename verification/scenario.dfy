/**
 * Worked examples of the pipeline: labelled lines such as
 * `"Joe Rogan: (00:05)\n"` and what they read as, a four-line transcript
 * whose two labelled lines both yield an utterance, the pieces of at most 10
 * seconds those utterances are cut into, and the name of a clip of episode
 * `0042`.
 */
module Scenario {
  import opened Wrappers
  import opened Text
  import opened Spans
  import opened Timestamp
  import opened Intervals
  import opened Segments
  import opened Driver

  /** The line `"Joe Rogan: (<time>)\n"`. */
  function Labelled(time: string): string {
    Speaker + ": (" + time + ")\n"
  }

  /** A labelled line names the speaker. */
  lemma LabelledNamesSpeaker(time: string)
    ensures Contains(Labelled(time), Speaker)
  {
    assert OccursAt(Labelled(time), Speaker, 0);
  }

  /** A time holding no stray character is what its labelled line strips to. */
  lemma StripLabelled(time: string)
    requires forall i :: 0 <= i < |time| ==> time[i] !in Stray
    ensures StripTime(Labelled(time)) == time
  {
    assert ':' !in Speaker;
    NoColonNoSeparator(Speaker);
    StripTimeLabelled(Speaker, time);
  }

  /** `MM:SS` with two-digit fields holds no stray character. */
  lemma MinSecKeeps(m: nat, sec: nat)
    requires m <= 59 && sec <= 59
    ensures var time := TwoDigits(m) + ":" + TwoDigits(sec);
            forall i :: 0 <= i < |time| ==> time[i] !in Stray
  {
    var time := TwoDigits(m) + ":" + TwoDigits(sec);
    forall i | 0 <= i < |time| ensures time[i] !in Stray {
      if i < 2 {
        assert time[i] == TwoDigits(m)[i];
      } else if i > 2 {
        assert time[i] == TwoDigits(sec)[i - 3];
      }
    }
  }

  /** `MM:SS` with two-digit fields is worth `MM * 60 + SS` seconds. */
  lemma MinSecSeconds(m: nat, sec: nat)
    requires m <= 59 && sec <= 59
    ensures TimeStrToSec(TwoDigits(m) + ":" + TwoDigits(sec)) == Ok(m * 60 + sec)
  {
    var c, pad := Clock(0, m, sec), Padding(false, true, true);
    ParseRender(c, MinSec, pad);
    assert Render(c, MinSec, pad) == TwoDigits(m) + ":" + TwoDigits(sec);
  }

  /** A labelled `MM:SS` time with two-digit fields reads back as its seconds. */
  lemma LabelledSeconds(m: nat, sec: nat)
    requires m <= 59 && sec <= 59
    ensures LineSeconds(Labelled(TwoDigits(m) + ":" + TwoDigits(sec))) == Ok(m * 60 + sec)
  {
    MinSecKeeps(m, sec);
    StripLabelled(TwoDigits(m) + ":" + TwoDigits(sec));
    MinSecSeconds(m, sec);
  }

  /** Collecting a span, two blanks and a span gives the two spans. */
  lemma CollectFour(outcomes: seq<Outcome>, x: Span, y: Span)
    requires |outcomes| == 4
    requires outcomes[0] == Ok(Some(x)) && outcomes[1] == Ok(None) && outcomes[2] == Ok(None) && outcomes[3] == Ok(Some(y))
    ensures Collect(outcomes, |outcomes|) == Ok([x, y])
  {
    assert Collect(outcomes, 0) == Ok([]);
    assert [] + [x] == [x];
    assert Collect(outcomes, 1) == Ok([x]);
    assert Collect(outcomes, 2) == Ok([x]);
    assert Collect(outcomes, 3) == Ok([x]);
    assert Collect(outcomes, 4) == Ok([x] + [y]);
    assert [x] + [y] == [x, y];
  }

  /**
   * Four lines, the first and the last naming the speaker at `a` and `b`:
   * both yield an utterance, the last one too, because the lookahead past the
   * end of the transcript falls back to the audio length.
   */
  lemma FourLines(text: seq<string>, audioLen: nat, a: nat, b: nat)
    requires |text| == 4
    requires Contains(text[0], Speaker) && LineSeconds(text[0]) == Ok(a)
    requires !Contains(text[1], Speaker) && !Contains(text[2], Speaker)
    requires Contains(text[3], Speaker) && LineSeconds(text[3]) == Ok(b)
    requires a + 1 < b && b + 1 < audioLen
    ensures Timestamps(text, audioLen) == Ok([Span(a, b), Span(b, audioLen)])
  {
    SpanOfLineContributes(text, audioLen, 0, Span(a, b));
    LineSpanSilent(text, audioLen, 1);
    LineSpanSilent(text, audioLen, 2);
    SpanOfLineContributes(text, audioLen, 3, Span(b, audioLen));
    CollectFour(Outcomes(text, audioLen), Span(a, b), Span(b, audioLen));
  }

  /** With pieces of at most 10 seconds the first utterance is cut in two and the second, exactly 10 long, is kept whole. */
  lemma ScenarioPieces()
    ensures SubIntervals([Span(5, 20), Span(20, 30)], 10) == [Span(5, 15), Span(15, 20), Span(20, 30)]
  {
    assert Chunks(25, 20, 10) == [];
    assert Chunks(15, 20, 10) == [Span(15, 20)];
    assert Chunks(5, 20, 10) == [Span(5, 15), Span(15, 20)];
    assert Segmented(20, 30, 10) == [Span(20, 30)];
    var spans := [Span(5, 20), Span(20, 30)];
    assert spans[..1] == [Span(5, 20)] && spans[..1][..0] == [];
    assert SubIntervals(spans[..1], 10) == [Span(5, 15), Span(15, 20)];
  }

  /** The piece starting at 65 seconds of episode `0042` is exported as `0042_00_01_05`. */
  lemma ScenarioClipName()
    ensures ClipName("0042", 65) == "0042" + "_0" + ("0" + "_" + "01" + "_" + "05")
  {
    ClipNameWithinDay("0042", 65);
    assert 65 / 60 / 60 == 0 && 65 / 60 % 60 == 1 && 65 % 60 == 5;
    assert NatToString(0) == "0" && TwoDigits(1) == "01" && TwoDigits(5) == "05";
  }
}
