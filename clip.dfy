/** extract_clip_gui.py: the start time typed by the user is checked and
    normalised to HH:MM:SS (parse_timestamp), and the clip is cut by an
    ffmpeg command written next to the video as <base>_clip<ext>
    (extract_clip).

    Running ffmpeg, its error mapping and the Tkinter window are not part of
    this model: the command is modelled as its argument list. */
module Clip {
  import opened Text

  /** The three ValueErrors of parse_timestamp. */
  datatype TimestampError = NotThreeFields | NotNumbers | InvalidValues

  datatype Result<T> = Ok(value: T) | Err(error: TimestampError)

  /** Line 18: f"{h:02}:{m:02}:{s:02}". */
  function Normalized(h: int, m: int, s: int): string {
    FormatInt(h, 2) + ":" + FormatInt(m, 2) + ":" + FormatInt(s, 2)
  }

  /** Line 16: hours not negative, minutes and seconds in 0..59. */
  predicate InRange(h: int, m: int, s: int) {
    h >= 0 && 0 <= m < 60 && 0 <= s < 60
  }

  /** Lines 7-18: strip, split on ':' into exactly three fields, int() each
      field, check the ranges and format the result. */
  function ParseTimestamp(ts: string): Result<string> {
    var parts := Split(Strip(ts), ':');
    if |parts| != 3 then Err(NotThreeFields)
    else
      var h, m, s := ParseInt(parts[0]), ParseInt(parts[1]), ParseInt(parts[2]);
      if h.None? || m.None? || s.None? then Err(NotNumbers)
      else if !InRange(h.value, m.value, s.value) then Err(InvalidValues)
      else Ok(Normalized(h.value, m.value, s.value))
  }

  /** The input is accepted exactly when it has three integer fields in
      range, and the result is those fields, each padded to two digits; each
      failure is reported by the first check it fails. */
  lemma ParseTimestampAccepts(ts: string)
    ensures var parts := Split(Strip(ts), ':');
            ParseTimestamp(ts).Ok? <==>
              && |parts| == 3
              && ParseInt(parts[0]).Some? && ParseInt(parts[1]).Some? && ParseInt(parts[2]).Some?
              && InRange(ParseInt(parts[0]).value, ParseInt(parts[1]).value, ParseInt(parts[2]).value)
    ensures var parts := Split(Strip(ts), ':');
            ParseTimestamp(ts).Ok? ==>
              ParseTimestamp(ts).value == Normalized(ParseInt(parts[0]).value, ParseInt(parts[1]).value, ParseInt(parts[2]).value)
    ensures ParseTimestamp(ts) == Err(NotThreeFields) <==> |Split(Strip(ts), ':')| != 3
    ensures var parts := Split(Strip(ts), ':');
            ParseTimestamp(ts) == Err(NotNumbers) <==>
              |parts| == 3 && (ParseInt(parts[0]).None? || ParseInt(parts[1]).None? || ParseInt(parts[2]).None?)
  {
  }

  /** The normalised text of fields in range: three digit fields separated
      by ':', the hours at least two digits wide, minutes and seconds exactly
      two, and each reads back as its value. */
  lemma NormalizedShape(h: int, m: int, s: int)
    requires InRange(h, m, s)
    ensures var hh, mm, ss := FormatInt(h, 2), FormatInt(m, 2), FormatInt(s, 2);
            && Split(Strip(Normalized(h, m, s)), ':') == [hh, mm, ss]
            && AllDigits(hh) && |hh| >= 2 && DigitsValue(hh) == h
            && AllDigits(mm) && |mm| == 2 && DigitsValue(mm) == m
            && AllDigits(ss) && |ss| == 2 && DigitsValue(ss) == s
  {
    TwoDigitField(m);
    TwoDigitField(s);
    DigitFieldsSplit(FormatInt(h, 2), FormatInt(m, 2), FormatInt(s, 2));
  }

  /** Three digit fields joined by ':' strip to themselves and split back. */
  lemma DigitFieldsSplit(hh: string, mm: string, ss: string)
    requires AllDigits(hh) && hh != [] && AllDigits(mm) && AllDigits(ss) && ss != []
    ensures Split(Strip(hh + ":" + mm + ":" + ss), ':') == [hh, mm, ss]
  {
    var out := hh + ":" + mm + ":" + ss;
    assert out == hh + [':'] + mm + [':'] + ss;
    assert out[0] == hh[0] && out[|out| - 1] == ss[|ss| - 1];
    StripByNoop(out, IsSpace);
    assert ':' !in hh && ':' !in mm && ':' !in ss;
    SplitThree(hh, mm, ss, ':');
  }

  /** f"{n:02}" of 0..59 is exactly two digits. */
  lemma TwoDigitField(n: int)
    requires 0 <= n < 60
    ensures |FormatInt(n, 2)| == 2
  {
    if n >= 10 {
      assert NatToDigits(n) == NatToDigits(n / 10) + [DigitChar(n % 10)];
    }
  }

  /** parse_timestamp reads its own output back to the same fields. */
  lemma NormalizedReadsBack(h: int, m: int, s: int)
    requires InRange(h, m, s)
    ensures ParseTimestamp(Normalized(h, m, s)) == Ok(Normalized(h, m, s))
  {
    NormalizedShape(h, m, s);
    var hh, mm, ss := FormatInt(h, 2), FormatInt(m, 2), FormatInt(s, 2);
    ParseDigits(hh);
    ParseDigits(mm);
    ParseDigits(ss);
    FieldsRead(Normalized(h, m, s), hh, mm, ss, h, m, s);
  }

  lemma FieldsRead(out: string, hh: string, mm: string, ss: string, h: int, m: int, s: int)
    requires Split(Strip(out), ':') == [hh, mm, ss]
    requires ParseInt(hh) == Some(h) && ParseInt(mm) == Some(m) && ParseInt(ss) == Some(s)
    requires InRange(h, m, s)
    ensures ParseTimestamp(out) == Ok(Normalized(h, m, s))
  {
    var parts := Split(Strip(out), ':');
    assert parts[0] == hh && parts[1] == mm && parts[2] == ss;
  }

  /** Normalising is idempotent: an accepted timestamp's normal form is
      accepted and normalises to itself. */
  lemma ParseTimestampIdempotent(ts: string)
    requires ParseTimestamp(ts).Ok?
    ensures ParseTimestamp(ParseTimestamp(ts).value) == ParseTimestamp(ts)
  {
    var parts := Split(Strip(ts), ':');
    var h, m, s := ParseInt(parts[0]).value, ParseInt(parts[1]).value, ParseInt(parts[2]).value;
    NormalizedReadsBack(h, m, s);
  }

  /** Normalising keeps the values: the output's three fields read back, by
      the same int(), as the input's fields, minutes and seconds take
      exactly two characters, and an input is rejected exactly when it does
      not have three integer fields in range. */
  lemma ParseTimestampKeepsValues(ts: string)
    ensures var parts := Split(Strip(ts), ':');
            ParseTimestamp(ts).Ok? ==>
              var out := Split(Strip(ParseTimestamp(ts).value), ':');
              && |parts| == 3 && |out| == 3
              && ParseInt(out[0]) == ParseInt(parts[0])
              && ParseInt(out[1]) == ParseInt(parts[1])
              && ParseInt(out[2]) == ParseInt(parts[2])
              && |out[1]| == 2 && |out[2]| == 2
    ensures var parts := Split(Strip(ts), ':');
            ParseTimestamp(ts).Err? <==>
              !(&& |parts| == 3
                && ParseInt(parts[0]).Some? && ParseInt(parts[1]).Some? && ParseInt(parts[2]).Some?
                && InRange(ParseInt(parts[0]).value, ParseInt(parts[1]).value, ParseInt(parts[2]).value))
  {
    ParseTimestampAccepts(ts);
    if ParseTimestamp(ts).Ok? {
      var parts := Split(Strip(ts), ':');
      var h, m, s := ParseInt(parts[0]).value, ParseInt(parts[1]).value, ParseInt(parts[2]).value;
      NormalizedShape(h, m, s);
      ParseDigits(FormatInt(h, 2));
      ParseDigits(FormatInt(m, 2));
      ParseDigits(FormatInt(s, 2));
    }
  }

  /** Single-digit fields are padded with a zero: 1, 2, 3 give "01:02:03". */
  lemma PadsSingleDigits()
    ensures Normalized(1, 2, 3) == "01:02:03"
  {
    assert ZeroPad(1, 2) == "01" && ZeroPad(2, 2) == "02" && ZeroPad(3, 2) == "03";
  }

  // ---------------------------------------------------------------------
  // extract_clip (lines 23-37)

  /** Lines 23-24: base + "_clip" + ext for os.path.splitext's base and ext. */
  function ClipPath(videoPath: string): string {
    var (base, ext) := SplitExt(videoPath);
    base + "_clip" + ext
  }

  /** The clip keeps the video's extension and its name is the video's base
      name with "_clip" appended, so it never overwrites the video. */
  lemma ClipPathKeepsExtension(videoPath: string)
    ensures SplitExt(ClipPath(videoPath)) == (SplitExt(videoPath).0 + "_clip", SplitExt(videoPath).1)
    ensures |ClipPath(videoPath)| == |videoPath| + 5 && ClipPath(videoPath) != videoPath
  {
    SplitExtInsert(videoPath, "_clip");
  }

  /** Lines 25-37: the ffmpeg argument list. */
  function ClipCommand(videoPath: string, startTs: string, durationS: int): (argv: seq<string>)
    ensures |argv| == 11
  {
    ["ffmpeg", "-y", "-ss", startTs, "-i", videoPath, "-t", IntToString(durationS), "-c", "copy", ClipPath(videoPath)]
  }

  /** The command seeks before opening the input, copies the streams
      without re-encoding, overwrites an existing clip, and writes to the
      clip path last, never onto the video itself. */
  lemma ClipCommandArguments(videoPath: string, startTs: string, durationS: int)
    ensures var argv := ClipCommand(videoPath, startTs, durationS);
            && argv[0] == "ffmpeg" && argv[1] == "-y"
            && argv[2] == "-ss" && argv[3] == startTs
            && argv[4] == "-i" && argv[5] == videoPath
            && argv[6] == "-t" && argv[7] == IntToString(durationS)
            && argv[8] == "-c" && argv[9] == "copy"
            && argv[|argv| - 1] == ClipPath(videoPath) && argv[|argv| - 1] != videoPath
  {
    ClipPathKeepsExtension(videoPath);
  }

  /** ffmpeg reads the duration argument back as the given number of
      seconds. */
  lemma ClipDurationReadsBack(videoPath: string, startTs: string, durationS: int)
    ensures ParseInt(ClipCommand(videoPath, startTs, durationS)[7]) == Some(durationS)
  {
    IntToStringRoundTrip(durationS);
  }
}
