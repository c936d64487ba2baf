# rev_audio_extract, modelled in Dafny

`rev_audio_extract.py` cuts one speaker's voice, Joe Rogan's, out of a podcast
recording. It does this with the help of a rev.com transcript. The script:

- reads the transcript lines;
- takes every line naming the speaker as the start of an utterance;
- ends that utterance at the timestamp three lines further down, or at the
  end of the audio;
- drops utterances of a second or less;
- optionally cuts each utterance into pieces of at most `seg_len` seconds;
- exports each piece as a WAV file named after the episode and the piece's
  start time.

This project models the decision logic of that pipeline and proves what it
promises. The modules are:

- `Text`: the string operations the script borrows from Python.
  - `in`, `re.sub` over a character class, and `str.replace`.
  - A leftmost search (`FindFrom`), which models the search inside
    `split(': ', 1)`.
  - The decimal renderings `str(n)` and two-digit zero padding, which model
    what `str(timedelta)` writes for hours, minutes and seconds.
- `Timestamp`: `strip_time` and `time_str_to_sec`.
  - `strptime` is modelled as a parser for the two formats `%M:%S` and
    `%H:%M:%S`, tried in that order.
  - Each field is one or two ASCII digits. Hours are at most 23; minutes and
    seconds are at most 59.
  - A time matching neither format is a `ParseError`. In the script, that is
    the `AttributeError` on `None`, which ends the run.
- `Spans`: a `Span` is a pair of second offsets. `Zip` reads the script's
  parallel start and end lists as spans.
- `Intervals`: `get_timestamps`.
  - The method `GetTimestamps` keeps the source's loop.
  - It is proved equal to the function `Timestamps`.
  - Every property is proved about `Timestamps`: what each span means, its
    order, its count, and the first failure.
- `Segments`: `further_segment`.
  - The method `FurtherSegment` keeps the `range` loop.
  - It is proved equal to `Segmented`.
  - The shape of the pieces is proved about `Segmented`.
- `Driver`: the pure parts of `main`.
  - The episode identifier.
  - The nested flattening loop, as the method `ExtractClips`.
  - The clip file name, `episode + '_' + '0' + str(timedelta(seconds=s)).replace(':', '_')`.
    It is proved to decode back to `s` within the first day. So within the
    first day, pieces with different starts get different names.
  - Pieces with the same start get the same name, so the later export
    overwrites the earlier one. This happens with two labelled lines stamped
    alike, or with overlapping utterances cut at the same offsets.
- `Scenario`: worked examples.
  - Labelled lines such as `"Joe Rogan: (00:05)\n"` and what they read as.
  - A four-line transcript.
  - The pieces of two utterances.
  - The name of the clip of episode `0042` at 65 seconds, which is
    `0042_00_01_05`.

Two consequences of the code are worth stating:

- `strip_time` deletes `( ) { } < >` and newline only. The regex class
  `[(){}<>\n]` does not contain square brackets, so `[` and `]` are kept.
- Take a transcript whose line 0, `"Joe Rogan: (00:05)\n"`, and line 3,
  `"Joe Rogan: (00:20)\n"`, name the speaker, over 30 seconds of audio.
  - Line 0 yields the utterance (5, 20).
  - The last labelled line also yields one, (20, 30). Its lookahead runs past
    the end of the transcript and falls back to `audio_len`.
  - `Scenario.FourLines` proves this for any such transcript.
  - With pieces of at most 10 seconds, the result is (5, 15), (15, 20) and
    (20, 30). This is `Scenario.ScenarioPieces`.

## Model

| member | source | states |
|---|---|---|
| Text.FindFrom | rev_audio_extract.py:25 | the result is the leftmost occurrence of the pattern at or after the start position, and `None` means there is none (what `split(': ', 1)` looks for) |
| Text.ContainsFind | rev_audio_extract.py:46 | `pat in s` holds exactly when the leftmost search finds an occurrence |
| Text.Contains | rev_audio_extract.py:46 | `prefix in line`: some position of the line starts the pattern. `ContainsFind` ties it to the leftmost search |
| Text.Without | rev_audio_extract.py:25 | the result holds exactly the characters of the text outside the class, and is no longer than the text |
| Text.WithoutAppend | rev_audio_extract.py:25 | deleting characters distributes over concatenation |
| Text.WithoutKeeps | rev_audio_extract.py:25 | text holding none of the deleted characters is left unchanged |
| Text.ReplaceChar | rev_audio_extract.py:108 | `replace(':', '_')` keeps the length and swaps exactly the colons |
| Text.RemoveAll | rev_audio_extract.py:81 | `replace('.txt', '')` never lengthens the text and leaves text without an occurrence unchanged |
| Text.RemoveAllTail | rev_audio_extract.py:81 | text ending in the pattern, with no other character that could start it, loses exactly that ending |
| Text.DigitValue | rev_audio_extract.py:32 | a digit's value is below 10, and rendering that value gives the digit back |
| Text.NatToString | rev_audio_extract.py:108 | `str(n)` is one or more decimal digits with no leading zero, and has one digit exactly when `n < 10` |
| Text.NatToStringRoundTrip | rev_audio_extract.py:108 | reading `str(n)` back as a decimal gives `n` |
| Text.TwoDigits | rev_audio_extract.py:108 | the `%02d` rendering of `n < 100` is two digits reading back as `n` |
| Timestamp.AfterSeparator | rev_audio_extract.py:25 | `split(': ', 1)[-1]` is a suffix of the text. It is all of it exactly when there is no `": "`. Otherwise it starts right after the first `": "` |
| Timestamp.StripTime | rev_audio_extract.py:23-25 | the stripped text holds no deleted character, and only characters from after the first separator |
| Timestamp.NoColonNoSeparator | rev_audio_extract.py:25 | a label without a colon holds no separator |
| Timestamp.AfterLabel | rev_audio_extract.py:25 | after a label holding no separator, the split keeps what follows the label's `": "` |
| Timestamp.Unbracket | rev_audio_extract.py:25 | deleting the stray characters from `"(<time>)\n"` leaves `<time>` |
| Timestamp.StripTimeLabelled | rev_audio_extract.py:23-25 | a line `"<speaker>: (<time>)\n"` strips to `<time>` for any speaker label without a separator |
| Timestamp.StripTimeExample | rev_audio_extract.py:24-25 | `"Joe Rogan: (00:11)\n"` strips to `"00:11"` |
| Timestamp.SplitColons | rev_audio_extract.py:30-32 | the fields `strptime` matches against the colons of a format: at least one, none holding a colon, and joined by colons they give the input back. `SplitJoin` is the converse |
| Timestamp.SplitJoin | rev_audio_extract.py:30-32 | colon-free fields joined by colons split back into the same fields |
| Timestamp.OneDigitField | rev_audio_extract.py:30-32 | one digit is the unpadded rendering of its value |
| Timestamp.TwoDigitField | rev_audio_extract.py:30-32 | two digits are the zero-padded rendering of their value |
| Timestamp.RenderingDigits | rev_audio_extract.py:30-32 | the unpadded rendering of a field value is one or two digits reading back as that value |
| Timestamp.ParseField | rev_audio_extract.py:30-32 | a `%H`/`%M`/`%S` field is accepted exactly when it is the padded or unpadded rendering of a value within range. The accepted value is that value |
| Timestamp.MatchFormat | rev_audio_extract.py:30-32 | a match is a valid clock. `%M:%S` needs two fields and leaves the hour at 0; `%H:%M:%S` needs three |
| Timestamp.TryFormats | rev_audio_extract.py:30-35 | a match is a valid clock, read from two or three colon-separated fields, with the hour 0 when there are two |
| Timestamp.TryBothFormats | rev_audio_extract.py:30-35 | `%M:%S` is tried before `%H:%M:%S`, and the second is used only when the first fails |
| Timestamp.ParseTime | rev_audio_extract.py:28-35 | the `time_obj` the loop ends with: the first format's match, or an error carrying the input when neither matches. `ParseRender` and `ParseSound` characterise it in both directions |
| Timestamp.TimeStrToSec | rev_audio_extract.py:28-36 | every result is below 86400, and below 3600 for `MM:SS`. A string matching neither format is an error carrying that string |
| Timestamp.ParseFieldText | rev_audio_extract.py:30-32 | a rendered field holds no colon and parses back to its value |
| Timestamp.MatchMinSec | rev_audio_extract.py:30-32 | two fields joined by a colon match `%M:%S` when each field parses |
| Timestamp.MatchHourMinSec | rev_audio_extract.py:30-32 | three fields joined by colons fail `%M:%S` and match `%H:%M:%S` when each field parses |
| Timestamp.ParseRender | rev_audio_extract.py:28-36 | every valid clock, written in either format with any padding, parses back to itself. Its value is `h*3600 + m*60 + s` |
| Timestamp.FieldRendered | rev_audio_extract.py:30-32 | a parsed field is its value's rendering under the padding it was written with |
| Timestamp.SoundMinSec | rev_audio_extract.py:30-32 | whatever matches `%M:%S` is its clock written in that format |
| Timestamp.SoundHourMinSec | rev_audio_extract.py:30-32 | whatever matches `%H:%M:%S` is its clock written in that format |
| Timestamp.ParseSound | rev_audio_extract.py:28-36 | whatever parses is a valid clock written in one of the two formats, the hour being 0 under `%M:%S` |
| Timestamp.TimeStrToSecExamples | rev_audio_extract.py:28-36 | `"01:02"` is 62 seconds, and `"1:00:00"` is 3600 |
| Spans.Zip | rev_audio_extract.py:42-43 | two parallel lists give as many spans as entries |
| Spans.ZipAt | rev_audio_extract.py:55-56 | the `k`th span pairs `start_times[k]` with `end_times[k]` |
| Spans.ZipAppend | rev_audio_extract.py:55-56 | appending to both lists appends one span |
| Intervals.LineSeconds | rev_audio_extract.py:47 | `time_str_to_sec(strip_time(line))`. `Scenario.LabelledSeconds` gives its value on labelled lines |
| Intervals.LineSpan | rev_audio_extract.py:45-56 | the contribution of line `i`. `LineSpanSilent`, `LineSpanMeaning` and `SpanOfLineContributes` give its spans in both directions. `LineSpanFailure` and `LineSpanAborts` give its failures in both directions |
| Intervals.Outcomes | rev_audio_extract.py:44-56 | one contribution per transcript line. `OutcomesAre` states that the `i`th is line `i`'s |
| Intervals.Collect | rev_audio_extract.py:44-58 | the loop over the first `n` contributions, stopping at the first failure. `CollectKept`, `CollectSucceeds`, `CollectFirstFailure` and `FailureSticks` characterise it |
| Intervals.Timestamps | rev_audio_extract.py:39-58 | `get_timestamps` as a value. `TimestampsSpans`, `TimestampsSucceed`, `TimestampsFailure` and `TimestampsAbort` state its spans, when it succeeds, which failure it reports, and that a malformed timestamp on a speaker line or its +3 line ends it |
| Intervals.Kept | rev_audio_extract.py:44-56 | the indices of the lines contributing a span: strictly increasing, below `n`, and every contributing line among them |
| Intervals.LineSpanSilent | rev_audio_extract.py:46 | a line not naming the speaker contributes nothing |
| Intervals.LineSpanMeaning | rev_audio_extract.py:46-56 | a contributed span comes from a line naming the speaker. It is longer than one second and starts at the line's timestamp. It ends at the timestamp three lines down, or at `audio_len` when there is no such line |
| Intervals.SpanOfLineContributes | rev_audio_extract.py:46-56 | conversely, such a span is exactly what the line contributes |
| Intervals.LineSpanFailure | rev_audio_extract.py:47-49 | a line fails only when its own timestamp, or the one three lines down, does not parse |
| Intervals.LineSpanAborts | rev_audio_extract.py:46-49 | conversely, a line naming the speaker fails with its own timestamp's error when that does not parse, which is checked first (line 47). Otherwise, it fails with the error of the timestamp three lines down when that does not parse (line 49) |
| Intervals.CollectKept | rev_audio_extract.py:44-58 | a successful run holds exactly the spans of the contributing lines, in line order |
| Intervals.CollectSucceeds | rev_audio_extract.py:44-58 | the loop succeeds exactly when no contribution is a failure |
| Intervals.CollectFirstFailure | rev_audio_extract.py:44-58 | a failed loop reports the failure of the first failing line, and every line before it succeeded |
| Intervals.FailureSticks | rev_audio_extract.py:36 | once a line fails, later lines do not change the outcome |
| Intervals.KeptLines | rev_audio_extract.py:46-56 | every line holding a span names the speaker |
| Intervals.FewerThanNamed | rev_audio_extract.py:44-47 | strictly increasing indices of lines naming the speaker are no more than there are such lines |
| Intervals.TimestampsSpans | rev_audio_extract.py:39-58 | on success there is one span per contributing line, in line order, from distinct lines naming the speaker. Each span means what `SpanOfLine` says. There are no more spans than such lines |
| Intervals.SpansFromLines | rev_audio_extract.py:46-56 | the spans contributed by the listed lines satisfy `SpanOfLine` |
| Intervals.TimestampsSucceed | rev_audio_extract.py:39-58 | the run succeeds exactly when no line fails |
| Intervals.TimestampsFailure | rev_audio_extract.py:39-58 | a failed run reports the failure of the first line that fails |
| Intervals.TimestampsAbort | rev_audio_extract.py:46-49 | a line naming the speaker whose own timestamp, or the one three lines down, does not parse makes the whole run fail |
| Intervals.OutcomesAre | rev_audio_extract.py:44-45 | the `i`th contribution is that of line `i` |
| Intervals.LineContribution | rev_audio_extract.py:45-56 | the loop body for line `i` computes that line's contribution |
| Intervals.CollectStep | rev_audio_extract.py:44-56 | one loop turn appends the line's span, leaves the lists alone, or ends the run with the line's failure |
| Intervals.GetTimestamps | rev_audio_extract.py:39-58 | the method fails exactly when `Timestamps` does, with the same failure. Otherwise it returns parallel lists of equal length zipping to `Timestamps` |
| Segments.Chunks | rev_audio_extract.py:65-70 | the `range(start, end, seg_len)` loop as a value, each piece ending at the next cut or at `end_time`. `ChunksShape` states its shape |
| Segments.Segmented | rev_audio_extract.py:61-74 | `further_segment` as a value. `SegmentedShape` states both branches of the guard |
| Segments.ChunksEnds | rev_audio_extract.py:65-70 | the pieces of a non-empty stretch start at its start and end at its end. The last is in `(0, seg_len]` long |
| Segments.ChunksCount | rev_audio_extract.py:65 | there are `ceil((end - start) / seg_len)` pieces |
| Segments.ChunksInside | rev_audio_extract.py:65-70 | every piece lies within the stretch |
| Segments.ChunksContiguous | rev_audio_extract.py:65-70 | each piece but the last is `seg_len` long and ends where the next starts |
| Segments.ChunksShape | rev_audio_extract.py:64-72 | the pieces run from start to end without gap or overlap. All but the last are `seg_len` long and the last is at most that. There are `ceil((end - start) / seg_len)` of them |
| Segments.SegmentedShape | rev_audio_extract.py:61-74 | with `seg_len == 0` or a short stretch, the single pair. Otherwise at least two contiguous pieces of that shape from `start_time` to `end_time` |
| Segments.ChunksAdvance | rev_audio_extract.py:65-70 | one loop turn moves the piece at the cursor from the pieces to come to the pieces made |
| Segments.FurtherSegment | rev_audio_extract.py:61-74 | the method returns parallel lists of equal length zipping to `Segmented` |
| Driver.EpisodeNum | rev_audio_extract.py:81 | `transcript[-8:].replace('.txt', '')`. `EpisodeOfNumberedTranscript` gives its value on numbered transcripts |
| Driver.EpisodeOfNumberedTranscript | rev_audio_extract.py:81 | a transcript path ending in `dddd.txt` gives the episode identifier `dddd` |
| Driver.TimedeltaText | rev_audio_extract.py:107-108 | `str(timedelta(seconds=s))`, with the `N day, ` or `N days, ` prefix from one day on. `ClipNameWithinDay` gives its first-day form |
| Driver.ClipName | rev_audio_extract.py:107-108 | the file name of a piece. `ClipStartOfName` decodes it, and `ClipNamesDistinct` separates different first-day starts |
| Driver.Clip.Name | rev_audio_extract.py:107-109 | the name a clip is exported under, from its episode and start |
| Driver.ReplaceColons | rev_audio_extract.py:108 | replacing the colons of `H:MM:SS` gives `H_MM_SS` |
| Driver.ClipNameWithinDay | rev_audio_extract.py:107-108 | below one day, the name is the episode, `_0`, then the unpadded hour and the two-digit minute and second, joined by underscores |
| Driver.ClockFields | rev_audio_extract.py:108 | `H_MM_SS` cut at fixed distances from its end gives back its fields |
| Driver.ClipStartOfFields | rev_audio_extract.py:107-108 | the decoder reads the hour, minute and second fields after the episode and `_0` |
| Driver.DivmodClock | rev_audio_extract.py:107 | hours, minutes and seconds from `divmod` recombine to the seconds of the day |
| Driver.ClipStartOfName | rev_audio_extract.py:107-108 | decoding a first-day clip name gives back the start it was made from |
| Driver.ClipNamesDistinct | rev_audio_extract.py:107-109 | two pieces of one episode starting at different offsets within the first day get different file names |
| Driver.ClipsOf | rev_audio_extract.py:99-109 | there is one clip per piece |
| Driver.ClipsOfAt | rev_audio_extract.py:99-109 | the `k`th clip holds the `k`th piece of the episode |
| Driver.ClipsOfAppend | rev_audio_extract.py:99-109 | one more piece adds its clip at the end |
| Driver.SubIntervals | rev_audio_extract.py:97-99 | every utterance's pieces, utterance by utterance. `SubIntervalsStep`, `SubIntervalsUncut` and `SubIntervalsBounded` characterise it |
| Driver.SubIntervalsStep | rev_audio_extract.py:97-98 | one more utterance adds its pieces at the end |
| Driver.SubIntervalsUncut | rev_audio_extract.py:64-74 | with `seg_len == 0` the pieces are the utterances themselves |
| Driver.SegmentedBounded | rev_audio_extract.py:61-74 | each piece of a stretch of positive length has positive length, is at most `seg_len` long and lies inside the stretch |
| Driver.SubIntervalsBounded | rev_audio_extract.py:97-99 | with cutting on and utterances of positive length, every piece has positive length, is at most `seg_len` long and lies inside an utterance |
| Driver.PieceStep | rev_audio_extract.py:99-108 | one inner loop turn adds the clip of the next piece |
| Driver.ExtractClips | rev_audio_extract.py:97-108 | the nested loop produces one clip per piece of every utterance, in order, for the given episode |
| Scenario.LabelledNamesSpeaker | rev_audio_extract.py:46 | a line `"Joe Rogan: (...)\n"` names the speaker |
| Scenario.StripLabelled | rev_audio_extract.py:23-25 | such a line strips to its time when the time holds no stray character |
| Scenario.MinSecKeeps | rev_audio_extract.py:25 | a `MM:SS` time holds no stray character |
| Scenario.MinSecSeconds | rev_audio_extract.py:28-36 | `MM:SS` with two-digit fields is worth `MM*60 + SS` seconds |
| Scenario.LabelledSeconds | rev_audio_extract.py:47 | the line `"Joe Rogan: (MM:SS)\n"` reads as `MM*60 + SS` seconds |
| Scenario.CollectFour | rev_audio_extract.py:44-58 | a span, two blanks and a span collect to the two spans |
| Scenario.FourLines | rev_audio_extract.py:44-58 | in four lines where the first and last name the speaker at `a` and `b`, both yield an utterance: `(a, b)`, and `(b, audio_len)` from the fallback |
| Scenario.ScenarioPieces | rev_audio_extract.py:97-98 | with pieces of at most 10, utterances (5, 20) and (20, 30) give (5, 15), (15, 20) and (20, 30) |
| Scenario.ScenarioClipName | rev_audio_extract.py:107-108 | the piece of episode `0042` at 65 seconds is named `0042_00_01_05` |

Proof helpers with no row, which model no line of the script: `Timestamp.JoinAssoc` (string associativity), `Intervals.DistinctCount` and `Intervals.SubsetCount` (set sizes), and `Driver.ClockValueOfDigits` (unfolds the name decoder).

## Left out

- Audio work through pydub (rev_audio_extract.py:84, 100-105, 109) is not modelled. This covers loading the WAV, slicing by milliseconds, clamping the last slice to the audio and exporting. The library is foreign code. `ExtractClips` produces the list of clips (episode and span) that would be exported.
- `audio_len = ceil(len(audio) / 1000)` (rev_audio_extract.py:85) uses float division of a library value. The model takes `audioLen` as a natural-number parameter.
- File and directory I/O (rev_audio_extract.py:88-89, 92-94) is not modelled. This includes `readlines` (the transcript is a parameter, one string per line), the output path join (line 82) and the destructive `rmtree`/`makedirs`. Command-line parsing (lines 78-80) and the final `print` (line 111) are also left out.
- `datetime.strptime` is modelled for the two formats the script uses, with ASCII digits. Its regex `\d` also accepts other Unicode decimal digits; the model rejects them.
- `seg_len` is a natural number. A negative value, which `int(sys.argv[3])` accepts, is outside the model.
- Driver.Clip: the file name is derived from the clip (`Clip.Name`) rather than stored. The `.wav` extension and the output directory are not part of it.
- Driver.ClipNamesDistinct: proved only for starts within the first day. From one day on, `str(timedelta)` prefixes `N day, ` or `N days, `. `TimedeltaText` models that form, but no decoder is proved for it.
- Driver.ClipStartOfName: only for starts below 86400, for the same reason.
- Scenario.FourLines: states the transcript scenario for any four lines with the stated properties, rather than for literal strings. `Scenario.LabelledSeconds` and `Scenario.LabelledNamesSpeaker` supply those properties for lines such as `"Joe Rogan: (00:05)\n"`.
