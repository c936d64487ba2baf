/**
 * The timestamp parser: `strip_time` turns a labelled transcript line into a
 * bare time string, and `time_str_to_sec` turns that into a number of seconds
 * by trying the `strptime` formats `%M:%S` and `%H:%M:%S` in that order.
 */
module Timestamp {
  import opened Wrappers
  import opened Text

  /** What separates a speaker label from its timestamp. */
  const Separator: string := ": "

  /** The characters `strip_time` deletes: the regex class `[(){}<>\n]`. */
  const Stray: set<char> := {'(', ')', '{', '}', '<', '>', '\n'}

  /** `text.split(': ', 1)[-1]`: what follows the first separator, or all of `text` when there is none. */
  function AfterSeparator(text: string): (r: string)
    ensures |r| <= |text| && r == text[|text| - |r|..]
    ensures |r| == |text| <==> forall j: nat :: !OccursAt(text, Separator, j)
    ensures |r| < |text| ==>
              |text| - |r| >= 2 && OccursAt(text, Separator, |text| - |r| - 2) &&
              forall j: nat :: j < |text| - |r| - 2 ==> !OccursAt(text, Separator, j)
  {
    match Find(text, Separator)
    case Some(i) => text[i + 2..]
    case None => text
  }

  /** `strip_time`: the text after the first separator, with every stray character deleted. */
  function StripTime(text: string): (r: string)
    ensures forall i :: 0 <= i < |r| ==> r[i] !in Stray
    ensures forall c :: c in r ==> c in AfterSeparator(text)
  {
    Without(AfterSeparator(text), Stray)
  }

  lemma SeparatorAt(s: string, j: nat)
    ensures OccursAt(s, Separator, j) <==> j + 2 <= |s| && s[j] == ':' && s[j + 1] == ' '
  {
    if j + 2 <= |s| {
      assert s[j..j + 2] == [s[j], s[j + 1]];
    }
  }

  lemma {:induction false} NoColonNoSeparator(speaker: string)
    requires ':' !in speaker
    ensures forall j: nat :: !OccursAt(speaker, Separator, j)
  {
    forall j: nat ensures !OccursAt(speaker, Separator, j) {
      SeparatorAt(speaker, j);
    }
  }

  /** After a label holding no separator, the first separator is the one that follows the label. */
  lemma {:induction false} AfterLabel(speaker: string, rest: string)
    requires forall j: nat :: !OccursAt(speaker, Separator, j)
    requires |rest| >= 2 && rest[0] == ':' && rest[1] == ' '
    ensures AfterSeparator(speaker + rest) == rest[2..]
  {
    var text := speaker + rest;
    var n := |speaker|;
    assert text[n] == ':' && text[n + 1] == ' ';
    SeparatorAt(text, n);
    forall j: nat | j < n ensures !OccursAt(text, Separator, j) {
      SeparatorAt(text, j);
      SeparatorAt(speaker, j);
      if j + 1 < n {
        assert text[j] == speaker[j] && text[j + 1] == speaker[j + 1];
      } else {
        assert text[j + 1] == ':';
      }
    }
    var after := AfterSeparator(text);
    assert |text| - |after| - 2 == n;
    assert after == text[n + 2..];
  }

  /** Deleting the stray characters from `"(<time>)\n"` leaves `<time>` when it holds none itself. */
  lemma Unbracket(time: string)
    requires forall i :: 0 <= i < |time| ==> time[i] !in Stray
    ensures Without("(" + time + ")\n", Stray) == time
  {
    WithoutAppend("(" + time, ")\n", Stray);
    WithoutAppend("(", time, Stray);
    WithoutKeeps(time, Stray);
    assert Without("(", Stray) == [];
    assert Without(")\n", Stray) == [];
  }

  /** A line `"<speaker>: (<time>)\n"` strips to `<time>`, whatever the speaker label holds short of a separator. */
  lemma StripTimeLabelled(speaker: string, time: string)
    requires forall j: nat :: !OccursAt(speaker, Separator, j)
    requires forall i :: 0 <= i < |time| ==> time[i] !in Stray
    ensures StripTime(speaker + ": (" + time + ")\n") == time
  {
    var rest := ": (" + time + ")\n";
    assert speaker + ": (" + time + ")\n" == speaker + rest;
    AfterLabel(speaker, rest);
    assert rest[2..] == "(" + time + ")\n";
    Unbracket(time);
  }

  /** The line `"Joe Rogan: (00:11)\n"` strips to `"00:11"`. */
  lemma StripTimeExample()
    ensures StripTime("Joe Rogan" + ": (" + "00:11" + ")\n") == "00:11"
  {
    var speaker, time := "Joe Rogan", "00:11";
    assert ':' !in speaker;
    NoColonNoSeparator(speaker);
    assert forall i :: 0 <= i < |time| ==> time[i] !in Stray;
    StripTimeLabelled(speaker, time);
  }

  /** A time of day as `strptime` fills it in; `hour` stays 0 under `%M:%S`. */
  datatype Clock = Clock(hour: nat, minute: nat, second: nat) {
    /** The ranges `strptime` and `datetime` accept. */
    predicate Valid() {
      hour <= 23 && minute <= 59 && second <= 59
    }

    /** `hour * 3600 + minute * 60 + second`. */
    function Seconds(): nat {
      hour * 3600 + minute * 60 + second
    }
  }

  /** The two formats, `%M:%S` and `%H:%M:%S`. */
  datatype TimeFormat = MinSec | HourMinSec

  /** The order in which `time_str_to_sec` tries them. */
  const Formats: seq<TimeFormat> := [MinSec, HourMinSec]

  /** Neither format matched: `time_obj` stays `None` and the script dies. */
  datatype ParseError = NoFormatMatches(timeStr: string)

  /** The colon-separated fields of `s`. */
  function SplitColons(s: string): (fields: seq<string>)
    ensures |fields| >= 1
    ensures forall k :: 0 <= k < |fields| ==> ':' !in fields[k]
    ensures JoinColons(fields) == s
    decreases |s|
  {
    if s == [] then [[]]
    else
      var rest := SplitColons(s[1..]);
      if s[0] == ':' then
        assert s == ":" + s[1..];
        [[]] + rest
      else
        var fields := [[s[0]] + rest[0]] + rest[1..];
        assert fields[1..] == rest[1..];
        assert s == [s[0]] + s[1..];
        fields
  }

  function JoinColons(fields: seq<string>): string
    requires |fields| >= 1
  {
    if |fields| == 1 then fields[0] else fields[0] + ":" + JoinColons(fields[1..])
  }

  lemma {:induction false} SplitNoColon(a: string)
    requires ':' !in a
    ensures SplitColons(a) == [a]
  {
    if a != [] {
      SplitNoColon(a[1..]);
      assert a == [a[0]] + a[1..];
    }
  }

  lemma {:induction false} SplitPrefix(a: string, b: string)
    requires ':' !in a
    ensures SplitColons(a + b) == [a + SplitColons(b)[0]] + SplitColons(b)[1..]
  {
    if a == [] {
      assert a + b == b;
      assert a + SplitColons(b)[0] == SplitColons(b)[0];
      assert [SplitColons(b)[0]] + SplitColons(b)[1..] == SplitColons(b);
    } else {
      assert (a + b)[0] == a[0] && (a + b)[1..] == a[1..] + b;
      SplitPrefix(a[1..], b);
      assert [a[0]] + (a[1..] + SplitColons(b)[0]) == a + SplitColons(b)[0];
    }
  }

  lemma {:induction false} SplitJoin(fields: seq<string>)
    requires |fields| >= 1
    requires forall k :: 0 <= k < |fields| ==> ':' !in fields[k]
    ensures SplitColons(JoinColons(fields)) == fields
  {
    if |fields| == 1 {
      SplitNoColon(fields[0]);
    } else {
      var tail := JoinColons(fields[1..]);
      SplitJoin(fields[1..]);
      assert (":" + tail)[0] == ':' && (":" + tail)[1..] == tail;
      assert SplitColons(":" + tail) == [[]] + fields[1..];
      assert fields[0] + ":" + tail == fields[0] + (":" + tail);
      SplitPrefix(fields[0], ":" + tail);
      assert fields[0] + [] == fields[0];
      assert [fields[0]] + fields[1..] == fields;
    }
  }

  /** Joining three fields left to right or right to left gives the same string. */
  lemma JoinAssoc(a: string, b: string, c: string, sep: string)
    ensures a + sep + b + sep + c == a + sep + (b + sep + c)
  {
    assert b + sep + c == b + (sep + c);
    assert a + sep + b + sep + c == a + sep + (b + (sep + c));
  }

  /** A single digit is the unpadded rendering of its value. */
  lemma OneDigitField(f: string)
    requires |f| == 1 && AllDigits(f)
    ensures DecimalValue(f) < 10 && f == NatToString(DecimalValue(f))
  {
    assert f[..|f| - 1] == [] && DecimalValue(f[..|f| - 1]) == 0;
    var v := DecimalValue(f);
    assert v == DigitValue(f[0]);
    assert NatToString(v) == [DigitChar(v)];
  }

  /** Two digits are the padded rendering of their value. */
  lemma TwoDigitField(f: string)
    requires |f| == 2 && AllDigits(f)
    ensures DecimalValue(f) < 100 && f == TwoDigits(DecimalValue(f))
  {
    var hi := f[..1];
    assert hi[..0] == [] && hi[0] == f[0] && AllDigits(hi);
    assert DecimalValue(hi) == DigitValue(f[0]);
    var v, d0, d1 := DecimalValue(f), DigitValue(f[0]), DigitValue(f[1]);
    assert v == d0 * 10 + d1;
    assert v / 10 == d0 && v % 10 == d1;
    var r := TwoDigits(v);
    assert r == [DigitChar(d0), DigitChar(d1)];
  }

  /** A rendering of a value up to `max` is one or two digits reading back as that value. */
  lemma RenderingDigits(v: nat, max: nat)
    requires v <= max < 100
    ensures 1 <= |NatToString(v)| <= 2 && AllDigits(NatToString(v)) && DecimalValue(NatToString(v)) == v
  {
    NatToStringRoundTrip(v);
    if v >= 10 {
      assert NatToString(v) == NatToString(v / 10) + [DigitChar(v % 10)];
    }
  }

  /** One `%H`, `%M` or `%S` field: one or two ASCII digits whose value is at most `max`. */
  function ParseField(f: string, max: nat): (r: Option<nat>)
    requires max < 100
    ensures r.Some? ==> r.value <= max && (f == NatToString(r.value) || f == TwoDigits(r.value))
    ensures r.None? ==> forall v: nat :: v <= max ==> f != NatToString(v) && f != TwoDigits(v)
  {
    if 1 <= |f| <= 2 && AllDigits(f) && DecimalValue(f) <= max then
      if |f| == 1 then
        OneDigitField(f);
        Some(DecimalValue(f))
      else
        TwoDigitField(f);
        Some(DecimalValue(f))
    else
      assert forall v: nat :: v <= max ==> f != NatToString(v) && f != TwoDigits(v) by {
        forall v: nat | v <= max ensures f != NatToString(v) && f != TwoDigits(v) {
          RenderingDigits(v, max);
        }
      }
      None
  }

  /** `datetime.strptime(s, fmt)` for one of the two formats, `None` where it raises `ValueError`. */
  function MatchFormat(s: string, fmt: TimeFormat): (r: Option<Clock>)
    ensures r.Some? ==> r.value.Valid()
    ensures r.Some? ==> |SplitColons(s)| == if fmt == MinSec then 2 else 3
    ensures r.Some? && fmt == MinSec ==> r.value.hour == 0
  {
    var fields := SplitColons(s);
    match fmt
    case MinSec =>
      if |fields| != 2 then None
      else (
        match (ParseField(fields[0], 59), ParseField(fields[1], 59))
        case (Some(m), Some(sec)) => Some(Clock(0, m, sec))
        case _ => None)
    case HourMinSec =>
      if |fields| != 3 then None
      else (
        match (ParseField(fields[0], 23), ParseField(fields[1], 59), ParseField(fields[2], 59))
        case (Some(h), Some(m), Some(sec)) => Some(Clock(h, m, sec))
        case _ => None)
  }

  /** The loop over formats with its `break`: the first format that matches wins. */
  function TryFormats(s: string, formats: seq<TimeFormat>): (r: Option<Clock>)
    ensures r.Some? ==> r.value.Valid()
    ensures r.Some? ==> |SplitColons(s)| == 2 || |SplitColons(s)| == 3
    ensures r.Some? && |SplitColons(s)| == 2 ==> r.value.hour == 0
  {
    if formats == [] then None
    else
      match MatchFormat(s, formats[0])
      case Some(c) => Some(c)
      case None => TryFormats(s, formats[1..])
  }

  lemma TryBothFormats(s: string)
    ensures TryFormats(s, Formats) ==
              if MatchFormat(s, MinSec).Some? then MatchFormat(s, MinSec) else MatchFormat(s, HourMinSec)
  {
    assert Formats[0] == MinSec && Formats[1..] == [HourMinSec];
    assert [HourMinSec][0] == HourMinSec && [HourMinSec][1..] == [];
    assert TryFormats(s, []) == None;
    assert TryFormats(s, [HourMinSec]) == MatchFormat(s, HourMinSec);
  }

  function ParseTime(s: string): Result<Clock, ParseError> {
    match TryFormats(s, Formats)
    case Some(c) => Ok(c)
    case None => Err(NoFormatMatches(s))
  }

  /** `time_str_to_sec`. */
  function TimeStrToSec(s: string): (r: Result<nat, ParseError>)
    ensures r.Ok? ==> r.value < 86400
    ensures r.Ok? && |SplitColons(s)| == 2 ==> r.value < 3600
    ensures r.Err? ==> r.error == NoFormatMatches(s)
  {
    match ParseTime(s)
    case Ok(c) => Ok(c.Seconds())
    case Err(e) => Err(e)
  }

  /** How a field is written: zero-padded to two digits, or as few digits as needed. */
  datatype Padding = Padding(hour: bool, minute: bool, second: bool)

  function FieldText(v: nat, padded: bool): string
    requires v < 100
  {
    if padded then TwoDigits(v) else NatToString(v)
  }

  /** A clock written out in one of the two formats. */
  function Render(c: Clock, fmt: TimeFormat, pad: Padding): string
    requires c.Valid()
  {
    var m, s := FieldText(c.minute, pad.minute), FieldText(c.second, pad.second);
    match fmt
    case MinSec => m + ":" + s
    case HourMinSec => FieldText(c.hour, pad.hour) + ":" + m + ":" + s
  }

  lemma {:induction false} ParseFieldText(v: nat, padded: bool, max: nat)
    requires v <= max < 100
    ensures ':' !in FieldText(v, padded)
    ensures ParseField(FieldText(v, padded), max) == Some(v)
  {
    var f := FieldText(v, padded);
    if !padded {
      RenderingDigits(v, max);
    }
    assert 1 <= |f| <= 2 && AllDigits(f) && DecimalValue(f) == v;
    assert forall i :: 0 <= i < |f| ==> f[i] != ':';
  }

  /** Two colon-free fields joined by a colon match `%M:%S` when both fields do. */
  lemma MatchMinSec(m: string, sec: string, c: Clock)
    requires ':' !in m && ':' !in sec && c.hour == 0
    requires ParseField(m, 59) == Some(c.minute) && ParseField(sec, 59) == Some(c.second)
    ensures MatchFormat(m + ":" + sec, MinSec) == Some(c)
  {
    assert [m, sec][1..] == [sec];
    assert JoinColons([m, sec]) == m + ":" + sec;
    SplitJoin([m, sec]);
  }

  /** Three colon-free fields joined by colons fail `%M:%S` and match `%H:%M:%S` when the fields do. */
  lemma MatchHourMinSec(h: string, m: string, sec: string, c: Clock)
    requires ':' !in h && ':' !in m && ':' !in sec
    requires ParseField(h, 23) == Some(c.hour) && ParseField(m, 59) == Some(c.minute) && ParseField(sec, 59) == Some(c.second)
    ensures MatchFormat(h + ":" + m + ":" + sec, MinSec) == None
    ensures MatchFormat(h + ":" + m + ":" + sec, HourMinSec) == Some(c)
  {
    assert [h, m, sec][1..] == [m, sec] && [m, sec][1..] == [sec];
    assert JoinColons([m, sec]) == m + ":" + sec;
    assert JoinColons([h, m, sec]) == h + ":" + (m + ":" + sec);
    JoinAssoc(h, m, sec, ":");
    SplitJoin([h, m, sec]);
  }

  /** Every valid clock, written in either format with any padding, parses back to itself. */
  lemma ParseRender(c: Clock, fmt: TimeFormat, pad: Padding)
    requires c.Valid()
    requires fmt == MinSec ==> c.hour == 0
    ensures ParseTime(Render(c, fmt, pad)) == Ok(c)
    ensures TimeStrToSec(Render(c, fmt, pad)) == Ok(c.Seconds())
  {
    var h, m, s := FieldText(c.hour, pad.hour), FieldText(c.minute, pad.minute), FieldText(c.second, pad.second);
    ParseFieldText(c.hour, pad.hour, 23);
    ParseFieldText(c.minute, pad.minute, 59);
    ParseFieldText(c.second, pad.second, 59);
    var text := Render(c, fmt, pad);
    TryBothFormats(text);
    match fmt
    case MinSec =>
      assert text == m + ":" + s;
      MatchMinSec(m, s, c);
    case HourMinSec =>
      assert text == h + ":" + m + ":" + s;
      MatchHourMinSec(h, m, s, c);
  }

  /** The padding under which a parsed field is written back exactly as it was. */
  function PaddingOf(f: string, v: nat): bool
    requires v < 100
  {
    f == TwoDigits(v)
  }

  /** A field that parses is the value's rendering under the padding it was written with. */
  lemma FieldRendered(f: string, v: nat, max: nat)
    requires max < 100 && ParseField(f, max) == Some(v)
    ensures v < 100 && FieldText(v, PaddingOf(f, v)) == f
  {
  }

  /** A string matching `%M:%S` is its clock written in that format. */
  lemma SoundMinSec(s: string, c: Clock) returns (pad: Padding)
    requires MatchFormat(s, MinSec) == Some(c)
    ensures c.Valid() && c.hour == 0 && s == Render(c, MinSec, pad)
  {
    var fields := SplitColons(s);
    assert |fields| == 2;
    FieldRendered(fields[0], c.minute, 59);
    FieldRendered(fields[1], c.second, 59);
    pad := Padding(false, PaddingOf(fields[0], c.minute), PaddingOf(fields[1], c.second));
    assert fields[1..] == [fields[1]];
    assert s == JoinColons(fields) == fields[0] + ":" + fields[1];
  }

  /** A string matching `%H:%M:%S` is its clock written in that format. */
  lemma SoundHourMinSec(s: string, c: Clock) returns (pad: Padding)
    requires MatchFormat(s, HourMinSec) == Some(c)
    ensures c.Valid() && s == Render(c, HourMinSec, pad)
  {
    var fields := SplitColons(s);
    assert |fields| == 3;
    FieldRendered(fields[0], c.hour, 23);
    FieldRendered(fields[1], c.minute, 59);
    FieldRendered(fields[2], c.second, 59);
    pad := Padding(PaddingOf(fields[0], c.hour), PaddingOf(fields[1], c.minute), PaddingOf(fields[2], c.second));
    assert fields[1..][1..] == [fields[2]];
    assert JoinColons(fields[1..]) == fields[1] + ":" + fields[2];
    assert s == JoinColons(fields) == fields[0] + ":" + (fields[1] + ":" + fields[2]);
    JoinAssoc(fields[0], fields[1], fields[2], ":");
  }

  /** Whatever parses is a valid clock written in one of the two formats. */
  lemma ParseSound(s: string)
    ensures ParseTime(s).Ok? ==>
              var c := ParseTime(s).value;
              c.Valid() &&
              exists fmt: TimeFormat, pad: Padding ::
                (fmt == MinSec ==> c.hour == 0) && s == Render(c, fmt, pad)
  {
    if ParseTime(s).Ok? {
      var c := ParseTime(s).value;
      TryBothFormats(s);
      if MatchFormat(s, MinSec).Some? {
        var pad := SoundMinSec(s, c);
        assert s == Render(c, MinSec, pad);
      } else {
        var pad := SoundHourMinSec(s, c);
        assert s == Render(c, HourMinSec, pad);
      }
    }
  }

  /** `"01:02"` is 62 seconds and `"1:00:00"` is 3600. */
  lemma TimeStrToSecExamples()
    ensures TimeStrToSec("01" + ":" + "02") == Ok(62)
    ensures TimeStrToSec("1" + ":" + "00" + ":" + "00") == Ok(3600)
  {
    assert TwoDigits(1) == "01" && TwoDigits(2) == "02" && TwoDigits(0) == "00" && NatToString(1) == "1";
    ParseRender(Clock(0, 1, 2), MinSec, Padding(false, true, true));
    ParseRender(Clock(1, 0, 0), HourMinSec, Padding(false, true, true));
    assert Render(Clock(1, 0, 0), HourMinSec, Padding(false, true, true)) == "1" + ":" + "00" + ":" + "00";
  }
}
