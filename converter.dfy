/** mkv2m4v.py: a video whose extension (in any letter case) is .mkv, .mp4,
    .mov or .m4v is either re-muxed to <base>.m4v (video copied, audio to
    AAC 192k) or reduced to a 16-bit 44.1 kHz stereo <base>.wav, optionally
    cut to its first two minutes.

    Running ffmpeg and the message boxes are not part of this model: the
    command is modelled as its argument list, and an unsupported file as no
    command. */
module Converter {
  import opened Text

  const SupportedExtensions: seq<string> := [".mkv", ".mp4", ".mov", ".m4v"]
  const CutDuration: string := "00:02:00"

  /** Line 7: os.path.splitext(input_path)[1].lower(). */
  function Extension(inputPath: string): string {
    Lower(SplitExt(inputPath).1)
  }

  /** Line 8. */
  predicate Supported(inputPath: string) {
    Extension(inputPath) in SupportedExtensions
  }

  /** Lines 12-14: the base name with the new extension. */
  function M4vOutput(inputPath: string): string {
    SplitExt(inputPath).0 + ".m4v"
  }

  function WavOutput(inputPath: string): string {
    SplitExt(inputPath).0 + ".wav"
  }

  /** Lines 18-22: audio only, PCM 16-bit little-endian, 44100 Hz, stereo. */
  function WavArguments(inputPath: string): seq<string> {
    ["ffmpeg", "-i", inputPath, "-vn", "-acodec", "pcm_s16le", "-ar", "44100", "-ac", "2"]
  }

  /** Lines 29-33: video copied, audio re-encoded to AAC at 192k. */
  function M4vArguments(inputPath: string): seq<string> {
    ["ffmpeg", "-i", inputPath, "-c:v", "copy", "-c:a", "aac", "-b:a", "192k"]
  }

  /** The command convert_video runs, or None when it refuses the file. */
  function Command(inputPath: string, cutTo2Min: bool, exportWavOnly: bool): Option<seq<string>> {
    if !Supported(inputPath) then None
    else
      var front := if exportWavOnly then WavArguments(inputPath) else M4vArguments(inputPath);
      var output := if exportWavOnly then WavOutput(inputPath) else M4vOutput(inputPath);
      Some(front + (if cutTo2Min then ["-t", CutDuration] else []) + [output])
  }

  /** Lines 6-36: the argument list is grown with += as the source does. */
  method ConvertVideo(inputPath: string, cutTo2Min: bool, exportWavOnly: bool) returns (command: Option<seq<string>>)
    ensures command == Command(inputPath, cutTo2Min, exportWavOnly)
  {
    var ext := Lower(SplitExt(inputPath).1);
    if ext !in SupportedExtensions {
      return None;
    }
    var outputBase := SplitExt(inputPath).0;
    var outputM4v := outputBase + ".m4v";
    var outputWav := outputBase + ".wav";
    if exportWavOnly {
      var wavCommand := ["ffmpeg", "-i", inputPath, "-vn", "-acodec", "pcm_s16le", "-ar", "44100", "-ac", "2"];
      if cutTo2Min {
        wavCommand := wavCommand + ["-t", CutDuration];
      }
      assert wavCommand == WavArguments(inputPath) + (if cutTo2Min then ["-t", CutDuration] else []);
      wavCommand := wavCommand + [outputWav];
      command := Some(wavCommand);
    } else {
      var m4vCommand := ["ffmpeg", "-i", inputPath, "-c:v", "copy", "-c:a", "aac", "-b:a", "192k"];
      if cutTo2Min {
        m4vCommand := m4vCommand + ["-t", CutDuration];
      }
      assert m4vCommand == M4vArguments(inputPath) + (if cutTo2Min then ["-t", CutDuration] else []);
      m4vCommand := m4vCommand + [outputM4v];
      command := Some(m4vCommand);
    }
  }

  /** A supported file has an extension: a dot followed by three letters. */
  lemma SupportedHasExtension(inputPath: string)
    requires Supported(inputPath)
    ensures HasExt(inputPath) && |SplitExt(inputPath).1| == 4 && SplitExt(inputPath).1[0] == '.'
    ensures '.' in inputPath
  {
    var ext := SplitExt(inputPath).1;
    assert |ext| == |Extension(inputPath)| == 4;
    assert inputPath == SplitExt(inputPath).0 + ext;
    assert inputPath[|SplitExt(inputPath).0|] == '.';
  }

  /** Which flags the two fixed argument lists hold, for an input path that
      has a dot (so it is no flag itself). */
  lemma FrontFlags(inputPath: string)
    requires '.' in inputPath
    ensures "-t" !in WavArguments(inputPath) && "-t" !in M4vArguments(inputPath)
    ensures "-vn" in WavArguments(inputPath) && "-c:v" !in WavArguments(inputPath)
    ensures "-c:v" in M4vArguments(inputPath) && "-vn" !in M4vArguments(inputPath)
  {
    assert '.' !in "-t" && '.' !in "-vn" && '.' !in "-c:v";
    assert "aac"[0] != "-vn"[0] && "-i"[1] != "-t"[1];
  }

  /** An output path ends with its extension, so it is no flag either. */
  lemma OutputNoFlag(inputPath: string, wav: bool)
    ensures var output := if wav then WavOutput(inputPath) else M4vOutput(inputPath);
            output != "-t" && output != "-vn" && output != "-c:v"
  {
    var output := if wav then WavOutput(inputPath) else M4vOutput(inputPath);
    assert output[|output| - 4] == '.';
  }

  /** A command is built exactly for the four extensions, in any letter
      case; it reads the input first and writes the output last, with
      "-t 00:02:00" right before the output exactly when the cut is asked
      for. */
  lemma CommandShape(inputPath: string, cutTo2Min: bool, exportWavOnly: bool)
    ensures Command(inputPath, cutTo2Min, exportWavOnly).Some? <==> Lower(SplitExt(inputPath).1) in SupportedExtensions
    ensures var c := Command(inputPath, cutTo2Min, exportWavOnly);
            c.Some? ==>
              && |c.value| >= 4 && c.value[..3] == ["ffmpeg", "-i", inputPath]
              && c.value[|c.value| - 1] == (if exportWavOnly then WavOutput(inputPath) else M4vOutput(inputPath))
              && (cutTo2Min <==> "-t" in c.value)
              && (cutTo2Min ==> c.value[|c.value| - 3..] == ["-t", CutDuration, c.value[|c.value| - 1]])
  {
    var c := Command(inputPath, cutTo2Min, exportWavOnly);
    if c.Some? {
      SupportedHasExtension(inputPath);
      FrontFlags(inputPath);
      OutputNoFlag(inputPath, exportWavOnly);
      var front := if exportWavOnly then WavArguments(inputPath) else M4vArguments(inputPath);
      var output := if exportWavOnly then WavOutput(inputPath) else M4vOutput(inputPath);
      var tail: seq<string> := if cutTo2Min then ["-t", CutDuration] else [];
      assert front[..3] == ["ffmpeg", "-i", inputPath];
      assert c.value == front + tail + [output];
      ArgumentLayout(front, cutTo2Min, output, inputPath);
    }
  }

  /** The fixed options, then the optional cut, then the output. */
  lemma ArgumentLayout(front: seq<string>, cut: bool, output: string, inputPath: string)
    requires |front| >= 3 && front[..3] == ["ffmpeg", "-i", inputPath]
    requires "-t" !in front && output != "-t"
    ensures var argv := front + (if cut then ["-t", CutDuration] else []) + [output];
            && |argv| >= 4 && argv[..3] == ["ffmpeg", "-i", inputPath]
            && argv[|argv| - 1] == output
            && (cut <==> "-t" in argv)
            && (cut ==> argv[|argv| - 3..] == ["-t", CutDuration, output])
  {
    var tail: seq<string> := if cut then ["-t", CutDuration] else [];
    var argv := front + tail + [output];
    assert argv[..3] == front[..3];
    assert "-t" in argv <==> "-t" in front || "-t" in tail || "-t" == output;
  }

  /** The WAV options are present exactly when only audio is exported, the
      video copy exactly otherwise. */
  lemma CommandMode(inputPath: string, cutTo2Min: bool, exportWavOnly: bool)
    requires Supported(inputPath)
    ensures var argv := Command(inputPath, cutTo2Min, exportWavOnly).value;
            && ("-vn" in argv <==> exportWavOnly)
            && ("-c:v" in argv <==> !exportWavOnly)
  {
    SupportedHasExtension(inputPath);
    FrontFlags(inputPath);
    OutputNoFlag(inputPath, exportWavOnly);
    var front := if exportWavOnly then WavArguments(inputPath) else M4vArguments(inputPath);
    var output := if exportWavOnly then WavOutput(inputPath) else M4vOutput(inputPath);
    var tail: seq<string> := if cutTo2Min then ["-t", CutDuration] else [];
    assert Command(inputPath, cutTo2Min, exportWavOnly).value == front + tail + [output];
    assert "-vn" !in tail && "-c:v" !in tail;
  }

  /** Both outputs keep the input's base name and carry the new extension,
      so os.path.splitext reads them back as (base, ".m4v") and (base,
      ".wav"). */
  lemma OutputsKeepBase(inputPath: string)
    requires Supported(inputPath)
    ensures SplitExt(M4vOutput(inputPath)) == (SplitExt(inputPath).0, ".m4v")
    ensures SplitExt(WavOutput(inputPath)) == (SplitExt(inputPath).0, ".wav")
  {
    SupportedHasExtension(inputPath);
    SplitExtReplace(inputPath, ".m4v");
    SplitExtReplace(inputPath, ".wav");
  }

  /** The .m4v output path string equals the input path string exactly
      when the input's extension is ".m4v" in lower case; for ".M4V" and
      the other extensions the two strings differ. */
  lemma M4vOutputIsInput(inputPath: string)
    requires Supported(inputPath)
    ensures M4vOutput(inputPath) == inputPath <==> SplitExt(inputPath).1 == ".m4v"
  {
    var (base, ext) := SplitExt(inputPath);
    assert inputPath == base + ext;
    if M4vOutput(inputPath) == inputPath {
      assert ext == inputPath[|base|..] == M4vOutput(inputPath)[|base|..];
    }
  }
}
