/** txt2chunks.py and transcript.py: a transcript is a list of "[M:SS]" lines
    each followed by its text. The chunker groups the (timestamp, text)
    entries into chunks of at most max_chunk_duration seconds measured from
    each chunk's first entry; the transcriber writes the timestamps with
    format_timestamp, whose output the chunker reads back.

    Reading and writing files, the output directory and the Tkinter dialog
    are not part of this model; the file's lines are an input. */
module Transcript {
  import opened Text

  const DefaultMaxChunkDuration: int := 120

  // ---------------------------------------------------------------------
  // timestamps (txt2chunks.py lines 6-8 and 18)

  /** Line 18: ^\[\d+:\d{2}\]$ on a stripped line. */
  predicate IsTimestampLine(s: string) {
    && |s| >= 6
    && s[0] == '[' && s[|s| - 4] == ':' && s[|s| - 1] == ']'
    && AllDigits(s[1..|s| - 4]) && AllDigits(s[|s| - 3..|s| - 1])
  }

  /** The minutes and seconds digits of a timestamp line. */
  function MinutesOf(ts: string): nat
    requires IsTimestampLine(ts)
  {
    DigitsValue(ts[1..|ts| - 4])
  }

  function SecondsOf(ts: string): nat
    requires IsTimestampLine(ts)
  {
    DigitsValue(ts[|ts| - 3..|ts| - 1])
  }

  predicate IsBracket(c: char) {
    c == '[' || c == ']'
  }

  /** Lines 6-8: strip("[]"), split(":") into exactly two fields, int() of
      each; None where Python raises ValueError. */
  function TimestampToSeconds(ts: string): Option<int> {
    FieldsToSeconds(Split(StripBy(ts, IsBracket), ':'))
  }

  /** minutes, seconds = map(int, parts): exactly two fields, both integers. */
  function FieldsToSeconds(parts: seq<string>): (r: Option<int>)
    ensures r.Some? ==> |parts| == 2 && ParseInt(parts[0]).Some? && ParseInt(parts[1]).Some?
  {
    if |parts| != 2 then None
    else
      var minutes, seconds := ParseInt(parts[0]), ParseInt(parts[1]);
      if minutes.Some? && seconds.Some? then Some(minutes.value * 60 + seconds.value) else None
  }

  /** Lines 6-8 on every line the chunker accepts as a timestamp: the value
      is minutes * 60 + seconds. */
  lemma TimestampLineSeconds(ts: string)
    requires IsTimestampLine(ts)
    ensures TimestampToSeconds(ts) == Some(MinutesOf(ts) * 60 + SecondsOf(ts))
  {
    TimestampFields(ts);
    TimestampDigits(ts);
  }

  /** int() reads the two digit fields of a timestamp line. */
  lemma TimestampDigits(ts: string)
    requires IsTimestampLine(ts)
    ensures FieldsToSeconds([ts[1..|ts| - 4], ts[|ts| - 3..|ts| - 1]]) == Some(MinutesOf(ts) * 60 + SecondsOf(ts))
  {
    DigitFields(ts[1..|ts| - 4], ts[|ts| - 3..|ts| - 1]);
  }

  /** strip("[]") then split(":") gives the minutes and the seconds digits. */
  lemma TimestampFields(ts: string)
    requires IsTimestampLine(ts)
    ensures TimestampToSeconds(ts) == FieldsToSeconds([ts[1..|ts| - 4], ts[|ts| - 3..|ts| - 1]])
  {
    StripBrackets(ts);
    SplitTimestamp(ts);
  }

  lemma DigitFields(mm: string, ss: string)
    requires AllDigits(mm) && mm != [] && AllDigits(ss) && ss != []
    ensures FieldsToSeconds([mm, ss]) == Some(DigitsValue(mm) * 60 + DigitsValue(ss))
  {
    ParseDigits(mm);
    ParseDigits(ss);
  }

  /** strip("[]") of a timestamp line leaves the text between the brackets. */
  lemma StripBrackets(ts: string)
    requires IsTimestampLine(ts)
    ensures StripBy(ts, IsBracket) == ts[1..|ts| - 1]
  {
    var n := |ts|;
    var inner := ts[1..n - 1];
    assert IsDigit(ts[1..n - 4][0]);
    assert LStripBy(ts[1..], IsBracket) == ts[1..];
    assert LStripBy(ts, IsBracket) == ts[1..];
    assert ts[1..][..|ts[1..]| - 1] == inner;
    assert IsDigit(ts[n - 3..n - 1][1]);
    assert RStripBy(inner, IsBracket) == inner;
  }

  lemma SplitTimestamp(ts: string)
    requires IsTimestampLine(ts)
    ensures Split(ts[1..|ts| - 1], ':') == [ts[1..|ts| - 4], ts[|ts| - 3..|ts| - 1]]
  {
    var n := |ts|;
    var mm, ss := ts[1..n - 4], ts[n - 3..n - 1];
    assert ts[1..n - 1] == mm + [':'] + ss;
    assert ':' !in mm && ':' !in ss;
    SplitPrefix(mm, ss, ':');
    SplitNoSeparator(ss, ':');
  }

  // ---------------------------------------------------------------------
  // format_timestamp (transcript.py lines 30-33)

  /** Line 31: int(seconds // 60), the floor of seconds / 60. */
  function MinutesField(s: real): int {
    (s / 60.0).Floor
  }

  /** Line 32: int(seconds % 60). Python's % on floats takes the sign of the
      divisor, so the remainder is in [0, 60) and int() is its floor. */
  function SecondsField(s: real): (sec: nat)
    ensures sec < 60
  {
    (s - 60.0 * MinutesField(s) as real).Floor
  }

  /** Line 33: "[" + minutes + ":" + seconds + "]", each padded to two
      characters ("-" counts towards the width of a negative minutes). */
  function FormatTimestamp(s: real): string {
    "[" + FormatInt(MinutesField(s), 2) + ":" + FormatInt(SecondsField(s), 2) + "]"
  }

  lemma {:induction false} TwoDigits(n: nat)
    requires n < 100
    ensures |NatToDigits(n)| <= 2
  {
    if n >= 10 {
      assert NatToDigits(n) == NatToDigits(n / 10) + [DigitChar(n % 10)];
    }
  }

  /** The two fields of format_timestamp: minutes are floor(s / 60), seconds
      floor(s) mod 60, two digits each, and together they give back floor(s). */
  lemma FieldsOfFormat(s: real)
    ensures MinutesField(s) * 60 + SecondsField(s) == s.Floor
    ensures SecondsField(s) == s.Floor % 60
    ensures |FormatInt(SecondsField(s), 2)| == 2
    ensures s >= 0.0 ==> MinutesField(s) >= 0 && |FormatInt(MinutesField(s), 2)| >= 2
    ensures s < 0.0 ==> MinutesField(s) < 0
  {
    var m := MinutesField(s);
    var x := s - 60.0 * m as real;
    assert (x + (60 * m) as real).Floor == x.Floor + 60 * m;
    assert x + (60 * m) as real == s;
    TwoDigits(SecondsField(s));
  }

  /** transcript.py lines 30-33 against txt2chunks.py lines 6-8 and 18: the
      format is a chunker timestamp exactly for non-negative times, and for
      those the chunker reads back the whole seconds. */
  lemma FormatTimestampRoundTrip(s: real)
    ensures IsTimestampLine(FormatTimestamp(s)) <==> s >= 0.0
    ensures s >= 0.0 ==> TimestampToSeconds(FormatTimestamp(s)) == Some(s.Floor)
  {
    FormatTimestampShape(s);
    if s >= 0.0 {
      FormatValue(s);
      ReadBack(FormatTimestamp(s), s.Floor);
    }
  }

  /** The fields of a non-negative formatted time add up to its whole seconds. */
  lemma FormatValue(s: real)
    requires s >= 0.0
    ensures IsTimestampLine(FormatTimestamp(s))
    ensures s.Floor == MinutesOf(FormatTimestamp(s)) * 60 + SecondsOf(FormatTimestamp(s))
  {
    FieldsOfFormat(s);
    FormatTimestampShape(s);
  }

  /** timestamp_to_seconds of a timestamp line whose fields add up to
      total. */
  lemma ReadBack(ts: string, total: int)
    requires IsTimestampLine(ts) && total == MinutesOf(ts) * 60 + SecondsOf(ts)
    ensures TimestampToSeconds(ts) == Some(total)
  {
    TimestampLineSeconds(ts);
  }

  /** The formatted time is a timestamp line exactly when it is not negative,
      and then its fields read back as the minutes and seconds fields. */
  lemma FormatTimestampShape(s: real)
    ensures IsTimestampLine(FormatTimestamp(s)) <==> s >= 0.0
    ensures s >= 0.0 ==> MinutesOf(FormatTimestamp(s)) == MinutesField(s) && SecondsOf(FormatTimestamp(s)) == SecondsField(s)
  {
    FieldsOfFormat(s);
    var mm, ss := FormatInt(MinutesField(s), 2), FormatInt(SecondsField(s), 2);
    if s >= 0.0 {
      BracketedFields(mm, ss);
    } else {
      SignedMinutesRejected(mm, ss);
    }
  }

  /** A minutes field with a minus sign makes no timestamp line. */
  lemma SignedMinutesRejected(mm: string, ss: string)
    requires |mm| >= 2 && mm[0] == '-' && |ss| == 2
    ensures !IsTimestampLine("[" + mm + ":" + ss + "]")
  {
    var ts := "[" + mm + ":" + ss + "]";
    assert ts[1..|ts| - 4] == mm;
  }

  /** "[" + mm + ":" + ss + "]" with digit fields, two seconds digits. */
  lemma BracketedFields(mm: string, ss: string)
    requires AllDigits(mm) && mm != [] && AllDigits(ss) && |ss| == 2
    ensures IsTimestampLine("[" + mm + ":" + ss + "]")
    ensures MinutesOf("[" + mm + ":" + ss + "]") == DigitsValue(mm)
    ensures SecondsOf("[" + mm + ":" + ss + "]") == DigitsValue(ss)
  {
    var ts := "[" + mm + ":" + ss + "]";
    var n := |ts|;
    assert ts[1..n - 4] == mm && ts[n - 3..n - 1] == ss;
  }

  // ---------------------------------------------------------------------
  // the lines the chunker reads (line 16)

  /** [line.strip() for line in f if line.strip()]. */
  function CleanLines(raw: seq<string>): (lines: seq<string>)
    ensures |lines| <= |raw|
    ensures forall i :: 0 <= i < |lines| ==> lines[i] != [] && lines[i] in StrippedLines(raw)
  {
    if raw == [] then []
    else
      var stripped := Strip(raw[|raw| - 1]);
      CleanLines(raw[..|raw| - 1]) + (if stripped != [] then [stripped] else [])
  }

  /** The stripped lines, blank or not. */
  function StrippedLines(raw: seq<string>): (r: seq<string>)
    ensures |r| == |raw| && forall i :: 0 <= i < |raw| ==> r[i] == Strip(raw[i])
  {
    seq(|raw|, i requires 0 <= i < |raw| => Strip(raw[i]))
  }

  /** The lines kept from a prefix of the file come first, in order. */
  lemma {:induction false} CleanLinesPrefix(raw: seq<string>, i: nat)
    requires i <= |raw|
    ensures CleanLines(raw[..i]) <= CleanLines(raw)
  {
    if i < |raw| {
      var init := raw[..|raw| - 1];
      assert raw[..i] == init[..i];
      CleanLinesPrefix(init, i);
    } else {
      assert raw[..i] == raw;
    }
  }

  /** Every line that is not blank once stripped is kept, stripped, at the
      position counting the kept lines before it. */
  lemma CleanLinesKeeps(raw: seq<string>, i: nat)
    requires i < |raw| && Strip(raw[i]) != []
    ensures |CleanLines(raw[..i])| < |CleanLines(raw)|
    ensures CleanLines(raw)[|CleanLines(raw[..i])|] == Strip(raw[i])
  {
    assert raw[..i + 1][..i] == raw[..i] && raw[..i + 1][i] == raw[i];
    CleanLinesPrefix(raw, i + 1);
  }

  /** Line i of the file is kept as the k-th clean line. */
  predicate KeptAs(raw: seq<string>, i: nat, k: nat) {
    && i < |raw| && k < |CleanLines(raw)|
    && Strip(raw[i]) != [] && |CleanLines(raw[..i])| == k && CleanLines(raw)[k] == Strip(raw[i])
  }

  /** Every kept line is such a line, at that position: with CleanLinesKeeps
      the kept lines are exactly the non-blank stripped lines, in order. */
  lemma {:induction false} CleanLinesFrom(raw: seq<string>, k: nat)
    requires k < |CleanLines(raw)|
    ensures exists i: nat :: KeptAs(raw, i, k)
  {
    var init := raw[..|raw| - 1];
    if k < |CleanLines(init)| {
      CleanLinesFrom(init, k);
      var i: nat :| KeptAs(init, i, k);
      KeptAsSnoc(raw, i, k);
    } else {
      KeptAsLast(raw);
    }
  }

  lemma KeptAsSnoc(raw: seq<string>, i: nat, k: nat)
    requires raw != [] && KeptAs(raw[..|raw| - 1], i, k)
    ensures KeptAs(raw, i, k)
  {
    var init := raw[..|raw| - 1];
    var last := Strip(raw[|raw| - 1]);
    assert CleanLines(raw) == CleanLines(init) + (if last != [] then [last] else []);
    assert CleanLines(raw)[k] == CleanLines(init)[k];
    assert init[..i] == raw[..i] && init[i] == raw[i];
  }

  lemma KeptAsLast(raw: seq<string>)
    requires raw != [] && |CleanLines(raw[..|raw| - 1])| < |CleanLines(raw)|
    ensures KeptAs(raw, |raw| - 1, |CleanLines(raw[..|raw| - 1])|)
  {
  }

  /** Some kept line is a timestamp exactly when some line of the file
      strips to one. */
  lemma CleanLinesTimestamps(raw: seq<string>)
    ensures (forall j :: 0 <= j < |CleanLines(raw)| ==> !IsTimestampLine(CleanLines(raw)[j]))
            <==> (forall i :: 0 <= i < |raw| ==> !IsTimestampLine(Strip(raw[i])))
  {
    var lines := CleanLines(raw);
    if exists j :: 0 <= j < |lines| && IsTimestampLine(lines[j]) {
      var j :| 0 <= j < |lines| && IsTimestampLine(lines[j]);
      CleanLinesFrom(raw, j);
      var i: nat :| KeptAs(raw, i, j);
    }
    if exists i :: 0 <= i < |raw| && IsTimestampLine(Strip(raw[i])) {
      var i :| 0 <= i < |raw| && IsTimestampLine(Strip(raw[i]));
      CleanLinesKeeps(raw, i);
    }
  }

  // ---------------------------------------------------------------------
  // the entries the loop visits (lines 24-44)

  /** One timestamp line with the line that follows it, and its seconds. */
  datatype Entry = Entry(timestamp: string, text: string, seconds: int)

  /** The entries from index i on: a timestamp line takes the next line as
      its text whatever it is ("" after the last line) and the scan goes on
      two lines later; any other line is skipped. */
  function EntriesFrom(lines: seq<string>, i: nat): seq<Entry>
    decreases |lines| - i
  {
    if i >= |lines| then []
    else if IsTimestampLine(lines[i]) then
      TimestampLineSeconds(lines[i]);
      var text := if i + 1 < |lines| then lines[i + 1] else "";
      [Entry(lines[i], text, TimestampToSeconds(lines[i]).value)] + EntriesFrom(lines, i + 2)
    else EntriesFrom(lines, i + 1)
  }

  function Entries(lines: seq<string>): seq<Entry> {
    EntriesFrom(lines, 0)
  }

  /** One step of the scan from index i. */
  lemma EntriesFromAt(lines: seq<string>, i: nat)
    requires i < |lines|
    ensures IsTimestampLine(lines[i]) ==>
              && TimestampToSeconds(lines[i]).Some?
              && EntriesFrom(lines, i) ==
                   [Entry(lines[i], if i + 1 < |lines| then lines[i + 1] else "", TimestampToSeconds(lines[i]).value)]
                   + EntriesFrom(lines, i + 2)
    ensures !IsTimestampLine(lines[i]) ==> EntriesFrom(lines, i) == EntriesFrom(lines, i + 1)
  {
    if IsTimestampLine(lines[i]) {
      TimestampLineSeconds(lines[i]);
    }
  }

  /** Every entry is a timestamp line with its value; there are none exactly
      when no line from i on is a timestamp. */
  lemma {:induction false} EntriesFromFacts(lines: seq<string>, i: nat)
    ensures forall k :: 0 <= k < |EntriesFrom(lines, i)| ==>
              IsTimestampLine(EntriesFrom(lines, i)[k].timestamp)
              && EntriesFrom(lines, i)[k].seconds == MinutesOf(EntriesFrom(lines, i)[k].timestamp) * 60 + SecondsOf(EntriesFrom(lines, i)[k].timestamp)
    ensures EntriesFrom(lines, i) == [] <==> forall j :: i <= j < |lines| ==> !IsTimestampLine(lines[j])
    decreases |lines| - i
  {
    if i < |lines| {
      if IsTimestampLine(lines[i]) {
        EntriesFromFacts(lines, i + 2);
        TimestampLineSeconds(lines[i]);
      } else {
        EntriesFromFacts(lines, i + 1);
      }
    }
  }

  /** "[0:05]" followed by "[0:10]" and "hi": the second timestamp is the
      first one's text, and "hi" is skipped. */
  lemma TimestampConsumedAsText()
    ensures Entries(["[0:05]", "[0:10]", "hi"]) == [Entry("[0:05]", "[0:10]", 5)]
  {
    var lines := ["[0:05]", "[0:10]", "hi"];
    FiveSeconds();
    assert lines[0] == "[0:05]" && lines[1] == "[0:10]";
    EntriesFromAt(lines, 0);
    assert !IsTimestampLine(lines[2]);
    EntriesFromAt(lines, 2);
  }

  /** "[0:05]" is a timestamp line worth five seconds. */
  lemma FiveSeconds()
    ensures IsTimestampLine("[0:05]") && TimestampToSeconds("[0:05]") == Some(5)
  {
    var ts := "[0:05]";
    assert ts[1..2] == "0" && ts[3..5] == "05";
    assert IsTimestampLine(ts);
    assert MinutesOf(ts) == 0 by {
      assert DigitsValue("0") == DigitsValue("0"[..0]) * 10 + DigitValue('0');
    }
    assert SecondsOf(ts) == 5 by {
      assert "05"[..1] == "0";
      assert DigitsValue("05") == DigitsValue("0") * 10 + DigitValue('5');
      assert DigitsValue("0") == DigitsValue("0"[..0]) * 10 + DigitValue('0');
    }
    TimestampLineSeconds(ts);
  }

  // ---------------------------------------------------------------------
  // chunks (lines 31-47)

  /** Line 40: the text an entry adds to its chunk. */
  function EntryText(e: Entry): (s: string)
    ensures |s| > |e.timestamp| && s[..|e.timestamp|] == e.timestamp
  {
    e.timestamp + " " + e.text + " "
  }

  /** The chunk text before strip(): the entries' texts one after another. */
  function Joined(g: seq<Entry>): (s: string)
    ensures g != [] ==> |s| > |g[0].timestamp| && s[..|g[0].timestamp|] == g[0].timestamp
  {
    if g == [] then []
    else
      var init := g[..|g| - 1];
      var s := Joined(init) + EntryText(g[|g| - 1]);
      assert init != [] ==> init[0] == g[0];
      s
  }

  /** Lines 31-38 on the entries: the first entry opens a chunk, and a
      later one opens a new chunk exactly when it is more than maxDuration
      seconds after the first entry of the open chunk. */
  function Group(entries: seq<Entry>, maxDuration: int): seq<seq<Entry>> {
    if entries == [] then []
    else
      var groups: seq<seq<Entry>> := Group(entries[..|entries| - 1], maxDuration);
      var e := entries[|entries| - 1];
      if groups == [] then [[e]]
      else
        var openGroup: seq<Entry> := groups[|groups| - 1];
        if e.seconds - openGroup[0].seconds > maxDuration then groups + [[e]]
        else groups[..|groups| - 1] + [openGroup + [e]]
  }

  /** Line 36 and 47: a chunk is its joined text, stripped. */
  function Render(g: seq<Entry>): string {
    Strip(Joined(g))
  }

  function Renders(groups: seq<seq<Entry>>): (r: seq<string>)
    ensures |r| == |groups|
  {
    if groups == [] then [] else Renders(groups[..|groups| - 1]) + [Render(groups[|groups| - 1])]
  }

  /** The chunks of process_transcript for the cleaned lines. */
  function Chunks(lines: seq<string>, maxDuration: int): seq<string> {
    Renders(Group(Entries(lines), maxDuration))
  }

  /** The loop's chunks, current_chunk and current_start stand for the
      groups so far: the closed ones rendered, the open one joined. */
  predicate Tracks(groups: seq<seq<Entry>>, chunks: seq<string>, current: string, start: Option<int>) {
    if groups == [] then chunks == [] && current == [] && start == None
    else
      var openGroup: seq<Entry> := groups[|groups| - 1];
      && openGroup != []
      && chunks == Renders(groups[..|groups| - 1])
      && current == Joined(openGroup)
      && start == Some(openGroup[0].seconds)
  }

  /** Group on one more entry, case by case. */
  lemma GroupStep(entries: seq<Entry>, e: Entry, maxDuration: int)
    ensures var groups: seq<seq<Entry>> := Group(entries, maxDuration);
            Group(entries + [e], maxDuration) ==
              if groups == [] then [[e]]
              else if e.seconds - groups[|groups| - 1][0].seconds > maxDuration then groups + [[e]]
              else groups[..|groups| - 1] + [groups[|groups| - 1] + [e]]
  {
    assert (entries + [e])[..|entries|] == entries;
  }

  /** One timestamp entry of lines 31-41 keeps the loop's variables in step
      with the groups: the first entry opens the chunk; an entry more than
      maxDuration after the open chunk's start closes it (stripped) and opens
      a new one; any other entry is added to the open chunk. */
  lemma TracksStep(visited: seq<Entry>, e: Entry, maxDuration: int, chunks: seq<string>, current: string, start: Option<int>)
    requires Tracks(Group(visited, maxDuration), chunks, current, start)
    ensures start.None? ==>
              Tracks(Group(visited + [e], maxDuration), chunks, current + EntryText(e), Some(e.seconds))
    ensures start.Some? && e.seconds - start.value > maxDuration ==>
              Tracks(Group(visited + [e], maxDuration), chunks + [Strip(current)], "" + EntryText(e), Some(e.seconds))
    ensures start.Some? && e.seconds - start.value <= maxDuration ==>
              Tracks(Group(visited + [e], maxDuration), chunks, current + EntryText(e), start)
  {
    var groups: seq<seq<Entry>> := Group(visited, maxDuration);
    GroupStep(visited, e, maxDuration);
    assert [e][..0] == [];
    assert "" + EntryText(e) == EntryText(e);
    if groups != [] {
      var openGroup: seq<Entry> := groups[|groups| - 1];
      var front := groups[..|groups| - 1];
      assert groups == front + [openGroup];
      if e.seconds - openGroup[0].seconds > maxDuration {
        assert (groups + [[e]])[..|groups|] == groups;
      } else {
        assert (front + [openGroup + [e]])[..|front|] == front;
        assert (openGroup + [e])[..|openGroup|] == openGroup;
      }
    }
  }

  /** Lines 31-41 for one timestamp entry. */
  method AddEntry(ghost visited: seq<Entry>, chunks: seq<string>, currentChunk: string, currentStart: Option<int>,
                  e: Entry, maxChunkDuration: int)
    returns (chunks': seq<string>, currentChunk': string, currentStart': Option<int>)
    requires Tracks(Group(visited, maxChunkDuration), chunks, currentChunk, currentStart)
    ensures Tracks(Group(visited + [e], maxChunkDuration), chunks', currentChunk', currentStart')
  {
    TracksStep(visited, e, maxChunkDuration, chunks, currentChunk, currentStart);
    chunks', currentChunk', currentStart' := chunks, currentChunk, currentStart;
    if currentStart'.None? {
      currentStart' := Some(e.seconds);
    } else if e.seconds - currentStart'.value > maxChunkDuration {
      chunks' := chunks' + [Strip(currentChunk')];
      currentChunk' := "";
      currentStart' := Some(e.seconds);
    }
    currentChunk' := currentChunk' + (e.timestamp + " " + e.text + " ");
  }

  method ProcessTranscript(lines: seq<string>, maxChunkDuration: int) returns (chunks: seq<string>)
    ensures chunks == Chunks(lines, maxChunkDuration)
  {
    chunks := [];
    var currentChunk: string := "";
    var currentStart: Option<int> := None;
    var i := 0;
    ghost var visited: seq<Entry> := [];
    while i < |lines|
      invariant 0 <= i <= |lines| + 1
      invariant Entries(lines) == visited + EntriesFrom(lines, i)
      invariant Tracks(Group(visited, maxChunkDuration), chunks, currentChunk, currentStart)
      decreases |lines| + 1 - i
    {
      if IsTimestampLine(lines[i]) {
        var timestamp := lines[i];
        var text := if i + 1 < |lines| then lines[i + 1] else "";
        EntriesFromAt(lines, i);
        var timeSec := TimestampToSeconds(timestamp).value;
        var e := Entry(timestamp, text, timeSec);
        assert visited + [e] + EntriesFrom(lines, i + 2) == visited + ([e] + EntriesFrom(lines, i + 2));
        chunks, currentChunk, currentStart := AddEntry(visited, chunks, currentChunk, currentStart, e, maxChunkDuration);
        visited := visited + [e];
        i := i + 2;
      } else {
        EntriesFromAt(lines, i);
        i := i + 1;
      }
    }
    assert EntriesFrom(lines, i) == [];
    assert visited == Entries(lines);
    TracksFinish(Group(visited, maxChunkDuration), chunks, currentChunk, currentStart);
    if currentChunk != [] {
      chunks := chunks + [Strip(currentChunk)];
    }
  }

  /** process_transcript on the file's lines: they are cleaned as at line
      16 and chunked, and there is no chunk at all exactly when no line of
      the file strips to a timestamp. */
  method ChunkFile(raw: seq<string>, maxChunkDuration: int) returns (chunks: seq<string>)
    ensures chunks == Chunks(CleanLines(raw), maxChunkDuration)
    ensures chunks == [] <==> forall i :: 0 <= i < |raw| ==> !IsTimestampLine(Strip(raw[i]))
  {
    var lines := CleanLines(raw);
    chunks := ProcessTranscript(lines, maxChunkDuration);
    ChunksFacts(lines, maxChunkDuration);
    CleanLinesTimestamps(raw);
  }

  /** Lines 46-47: the open chunk, if any, is the last one. */
  lemma TracksFinish(groups: seq<seq<Entry>>, chunks: seq<string>, current: string, start: Option<int>)
    requires Tracks(groups, chunks, current, start)
    ensures (if current != [] then chunks + [Strip(current)] else chunks) == Renders(groups)
  {
  }

  /** The groups put back together. */
  function Flatten(groups: seq<seq<Entry>>): seq<Entry> {
    if groups == [] then [] else Flatten(groups[..|groups| - 1]) + groups[|groups| - 1]
  }

  /** Lines 36-47: every entry lands in exactly one chunk, in input order,
      and no chunk is empty. */
  lemma {:induction false} GroupPartitions(entries: seq<Entry>, maxDuration: int)
    ensures Flatten(Group(entries, maxDuration)) == entries
    ensures forall k :: 0 <= k < |Group(entries, maxDuration)| ==> Group(entries, maxDuration)[k] != []
  {
    if entries != [] {
      var init, e := entries[..|entries| - 1], entries[|entries| - 1];
      GroupPartitions(init, maxDuration);
      GroupStep(init, e, maxDuration);
      assert entries == init + [e];
      var groups: seq<seq<Entry>> := Group(init, maxDuration);
      if groups == [] {
        assert Flatten([[e]]) == Flatten([[e]][..0]) + [e];
      } else {
        var openGroup: seq<Entry> := groups[|groups| - 1];
        var front := groups[..|groups| - 1];
        assert groups == front + [openGroup];
        if e.seconds - openGroup[0].seconds > maxDuration {
          assert (groups + [[e]])[..|groups|] == groups;
        } else {
          var r: seq<seq<Entry>> := front + [openGroup + [e]];
          assert r[..|front|] == front;
          assert Flatten(groups) == Flatten(front) + openGroup;
        }
      }
    }
  }

  /** Every entry of a group is at most maxDuration seconds after the
      group's first entry. */
  ghost predicate SpansWithin(groups: seq<seq<Entry>>, maxDuration: int) {
    forall k, j :: 0 <= k < |groups| && 0 < j < |groups[k]| ==>
      groups[k][j].seconds - groups[k][0].seconds <= maxDuration
  }

  /** Every group after the first starts more than maxDuration seconds after
      the first entry of the group before it. */
  ghost predicate StartsApart(groups: seq<seq<Entry>>, maxDuration: int) {
    forall i: nat :: i + 1 < |groups| ==> NextStartsAfter(groups, i, maxDuration)
  }

  /** Group i + 1 starts more than maxDuration seconds after group i. */
  ghost predicate NextStartsAfter(groups: seq<seq<Entry>>, i: nat, maxDuration: int)
    requires i + 1 < |groups|
  {
    groups[i] != [] && groups[i + 1] != [] && groups[i + 1][0].seconds - groups[i][0].seconds > maxDuration
  }

  /** Lines 34-38: an entry joins the open chunk only when it is at most
      maxDuration seconds after the chunk's first entry, so every chunk spans
      at most maxDuration. */
  lemma {:induction false} GroupSpans(entries: seq<Entry>, maxDuration: int)
    ensures SpansWithin(Group(entries, maxDuration), maxDuration)
  {
    if entries != [] {
      var init, e := entries[..|entries| - 1], entries[|entries| - 1];
      GroupSpans(init, maxDuration);
      GroupPartitions(init, maxDuration);
      SpansStep(Group(init, maxDuration), e, maxDuration);
    }
  }

  /** Adding one entry as the chunker does keeps every chunk's span. */
  lemma SpansStep(groups: seq<seq<Entry>>, e: Entry, maxDuration: int)
    requires SpansWithin(groups, maxDuration)
    requires forall k :: 0 <= k < |groups| ==> groups[k] != []
    ensures SpansWithin(
              if groups == [] then [[e]]
              else if e.seconds - groups[|groups| - 1][0].seconds > maxDuration then groups + [[e]]
              else groups[..|groups| - 1] + [groups[|groups| - 1] + [e]],
              maxDuration)
  {
    if groups != [] {
      var last := |groups| - 1;
      var openGroup: seq<Entry> := groups[last];
      if e.seconds - openGroup[0].seconds > maxDuration {
        var r: seq<seq<Entry>> := groups + [[e]];
        forall k, j | 0 <= k < |r| && 0 < j < |r[k]| ensures r[k][j].seconds - r[k][0].seconds <= maxDuration {
          assert k <= last && r[k] == groups[k];
        }
      } else {
        var r: seq<seq<Entry>> := groups[..last] + [openGroup + [e]];
        forall k, j | 0 <= k < |r| && 0 < j < |r[k]| ensures r[k][j].seconds - r[k][0].seconds <= maxDuration {
          if k < last {
            assert r[k] == groups[k];
          } else {
            assert r[k] == openGroup + [e] && r[k][0] == openGroup[0];
            if j < |openGroup| {
              assert r[k][j] == openGroup[j];
            }
          }
        }
      }
    }
  }

  /** Lines 34-38: a new chunk starts only when an entry is more than
      maxDuration seconds after the open chunk's first entry, so consecutive
      chunks start more than maxDuration apart. */
  lemma {:induction false} GroupStartsApart(entries: seq<Entry>, maxDuration: int)
    ensures StartsApart(Group(entries, maxDuration), maxDuration)
  {
    if entries != [] {
      var init, e := entries[..|entries| - 1], entries[|entries| - 1];
      GroupStartsApart(init, maxDuration);
      GroupPartitions(init, maxDuration);
      var groups: seq<seq<Entry>> := Group(init, maxDuration);
      if groups != [] {
        if e.seconds - groups[|groups| - 1][0].seconds > maxDuration {
          StartsApartOpen(groups, e, maxDuration);
        } else {
          StartsApartExtend(groups, e, maxDuration);
        }
      }
    }
  }

  /** Opening a new group after the last one keeps the starts apart. */
  lemma StartsApartOpen(groups: seq<seq<Entry>>, e: Entry, maxDuration: int)
    requires groups != [] && groups[|groups| - 1] != [] && StartsApart(groups, maxDuration)
    requires e.seconds - groups[|groups| - 1][0].seconds > maxDuration
    ensures StartsApart(groups + [[e]], maxDuration)
  {
    var r: seq<seq<Entry>> := groups + [[e]];
    forall i: nat | i + 1 < |r| ensures NextStartsAfter(r, i, maxDuration) {
      assert r[i] == groups[i];
      if i + 1 < |groups| {
        assert NextStartsAfter(groups, i, maxDuration);
        assert r[i + 1] == groups[i + 1];
      }
    }
  }

  /** Adding an entry to the last group keeps the starts apart. */
  lemma StartsApartExtend(groups: seq<seq<Entry>>, e: Entry, maxDuration: int)
    requires groups != [] && groups[|groups| - 1] != [] && StartsApart(groups, maxDuration)
    ensures StartsApart(groups[..|groups| - 1] + [groups[|groups| - 1] + [e]], maxDuration)
  {
    var last := |groups| - 1;
    var r: seq<seq<Entry>> := groups[..last] + [groups[last] + [e]];
    forall i: nat | i + 1 < |r| ensures NextStartsAfter(r, i, maxDuration) {
      assert r[i] == groups[i];
      assert NextStartsAfter(groups, i, maxDuration);
      if i + 1 < last {
        assert r[i + 1] == groups[i + 1];
      } else {
        assert r[i + 1][0] == groups[i + 1][0];
      }
    }
  }

  /** Each chunk starts with its first entry's timestamp, so no chunk is
      empty: strip() only removes the trailing blanks. */
  lemma RenderStartsWithTimestamp(g: seq<Entry>)
    requires g != [] && IsTimestampLine(g[0].timestamp)
    ensures StartsWith(Render(g), g[0].timestamp) && Render(g) != []
  {
    var s := Joined(g);
    var ts := g[0].timestamp;
    assert s[0] == '[' && s[|ts| - 1] == ']';
    assert LStripBy(s, IsSpace) == s;
    RStripByFacts(s, IsSpace);
    var r := RStripBy(s, IsSpace);
    assert !IsSpace(s[|ts| - 1]);
    assert r[..|ts|] == s[..|r|][..|ts|] == s[..|ts|];
  }

  /** What process_transcript returns: one chunk per group of entries, none
      when the file holds no timestamp line, and every chunk begins with the
      timestamp of its first entry. */
  lemma ChunksFacts(lines: seq<string>, maxDuration: int)
    ensures |Chunks(lines, maxDuration)| == |Group(Entries(lines), maxDuration)|
    ensures Chunks(lines, maxDuration) == [] <==> forall j :: 0 <= j < |lines| ==> !IsTimestampLine(lines[j])
    ensures forall k :: 0 <= k < |Chunks(lines, maxDuration)| ==>
              Group(Entries(lines), maxDuration)[k] != []
              && StartsWith(Chunks(lines, maxDuration)[k], Group(Entries(lines), maxDuration)[k][0].timestamp)
  {
    var entries := Entries(lines);
    var groups: seq<seq<Entry>> := Group(entries, maxDuration);
    EntriesFromFacts(lines, 0);
    GroupPartitions(entries, maxDuration);
    assert entries == [] <==> groups == [] by {
      if groups == [] {
        assert Flatten(groups) == [];
      }
    }
    forall k | 0 <= k < |groups|
      ensures StartsWith(Chunks(lines, maxDuration)[k], groups[k][0].timestamp)
    {
      RendersAt(groups, k);
      FlattenMember(groups, k);
      RenderStartsWithTimestamp(groups[k]);
    }
  }

  lemma {:induction false} RendersAt(groups: seq<seq<Entry>>, k: nat)
    requires k < |groups|
    ensures Renders(groups)[k] == Render(groups[k])
  {
    if k < |groups| - 1 {
      RendersAt(groups[..|groups| - 1], k);
    }
  }

  lemma {:induction false} FlattenMember(groups: seq<seq<Entry>>, k: nat)
    requires k < |groups| && groups[k] != []
    ensures groups[k][0] in Flatten(groups)
  {
    if k < |groups| - 1 {
      FlattenMember(groups[..|groups| - 1], k);
    }
  }

  // ---------------------------------------------------------------------
  // chunk files (lines 50-51)

  /** f"chunk_{idx:03}.txt". */
  function ChunkFileName(idx: nat): (name: string)
    ensures StartsWith(name, "chunk_") && EndsWith(name, ".txt")
    ensures |name| >= 13
    ensures AllDigits(name[6..|name| - 4]) && DigitsValue(name[6..|name| - 4]) == idx
  {
    var name := "chunk_" + ZeroPad(idx, 3) + ".txt";
    assert name[6..|name| - 4] == ZeroPad(idx, 3);
    name
  }

  /** The files are numbered from 1 in chunk order. */
  function ChunkFileNames(chunks: seq<string>): (names: seq<string>)
    ensures |names| == |chunks|
  {
    seq(|chunks|, i requires 0 <= i < |chunks| => ChunkFileName(i + 1))
  }

  /** Two chunks never share a file: the numbers 1, 2, ... are read back
      from the names. */
  lemma ChunkFileNamesDistinct(chunks: seq<string>)
    ensures forall i, j :: 0 <= i < j < |chunks| ==> ChunkFileNames(chunks)[i] != ChunkFileNames(chunks)[j]
    ensures forall i :: 0 <= i < |chunks| ==>
              DigitsValue(ChunkFileNames(chunks)[i][6..|ChunkFileNames(chunks)[i]| - 4]) == i + 1
  {
  }

  /** The first file is chunk_001.txt. */
  lemma FirstChunkFile()
    ensures ChunkFileName(1) == "chunk_001.txt"
  {
    assert NatToDigits(1) == "1";
    assert Zeros(2) == "00";
  }
}
