# smalltools core, modelled in Dafny

This project models the computational core of a set of small video, audio
and text utilities, and proves what each part promises.

- **Video detectors.** Four scripts find when a template image shows up
  in a video.
  - `Dall3.py`, modelled in `Segmenter`: scores sampled frames, turns
    the (timestamp, score) series into on-intervals of at least one
    second, and fuses intervals less than four seconds apart.
  - `t_detector_gui_optimized.py`, modelled in `CoarseRefine`: a coarse
    scan that jumps one second on a miss and two minutes on a hit, then
    a look-back refinement that keeps the earliest best frame of the
    three minutes before each hit.
  - `template_detector_autoswitch.py`, modelled in `AutoSwitch`: picks
    template matching, ORB or an HSV colour test from template
    statistics, tests one frame per second, and rescores the frames
    within about 100 ms of the best row.
  - `hsv_detector_from_template.py`, modelled in `HsvDetector`: a
    clamped HSV band around the template's mean colour, a fixed-region
    ratio rule and a moving-object area rule. The band and the `inRange`
    test it shares with the autoswitch script are in `ColorBand`. Frame
    sampling (`range`, frame/second conversion, `int()`) is in
    `Sampling`.
- **`tettt.py`**, modelled in `FunctionDiff`: cuts two versions of a
  Python file into `def`/`class` blocks, names them, compares the two
  name-to-body dicts, and finds the functions that mention a keyword.
- **`txt2chunks.py` and `format_timestamp` of `transcript.py`**,
  modelled in `Transcript`: a transcript of `[M:SS]` lines each followed
  by its text is cut into chunks of at most `max_chunk_duration`
  seconds. The timestamps the transcriber writes are read back by the
  chunker.
- **`extract_clip_gui.py`**, modelled in `Clip`: validates and
  normalises an `H:M:S` start time, and builds the ffmpeg command that
  writes `<base>_clip<ext>`.
- **`ziptotxtCGPT.py`**, modelled in `ChatExport`: picks
  `conversations.json` in a chat export and writes every conversation as
  text. Messages with a numeric `create_time` come first in ascending
  order, the rest follow in their original order.
- **`mkv2m4v.py`**, modelled in `Converter`: the supported extensions,
  the output names and the ffmpeg command for a re-mux to `.m4v` or an
  export to `.wav`.

The Python built-ins these programs rely on are modelled once, in two
modules:

- `Text` covers `str.strip`, `str.split`, `"".join`, `int()`, `str()`,
  `f"{n:0W}"`, `upper`/`lower` (on ASCII letters) and the Windows
  `os.path.splitext`.
- `StableSort` covers `sorted(..., key=..., reverse=...)`, which is
  stable in both directions.

Loops that append to lists or update variables are methods. Each method
is proved equal to a specification function, and the promised properties
are lemmas about that function. Foreign computations are inputs of the
model:

- OpenCV scores, pixel classes, contour boxes and template statistics;
- the file and archive contents;
- the success of a frame read.

A frame read fails when its index is at least the number of readable
frames.

## Model

| member | source | states |
|---|---|---|
| Segmenter.ScoreFrames | Dall3.py:57-68 | the loop's results are the samples of the readable frames at idx*FRAME_SKIP/fps; hits are exactly those scoring strictly above 0.85 |
| Segmenter.SamplesOfIncreasing | Dall3.py:57-66 | the results series has strictly increasing timestamps, at most one sample per frame, each the score of a readable frame at that frame's time |
| Segmenter.AboveMembers | Dall3.py:67-68 | a sample is a hit iff it is in the results and its score is strictly above the threshold |
| Segmenter.SegmentSeries | Dall3.py:72-100 | the rising/falling-edge loop, including the run still open at the end of the series, computes the segmentation function |
| Segmenter.SegmentCharacterized | Dall3.py:75-100 | a detection is emitted iff it is a maximal on-run (first sample >= threshold after one below it, closed at the first sample below it or at the last sample) lasting at least the minimum duration, with start = run start and duration = closing time - start |
| Segmenter.SegmentFromSound | Dall3.py:75-100 | every emitted detection is the detection of some maximal on-run of at least the minimum duration |
| Segmenter.SegmentFromComplete | Dall3.py:75-100 | every maximal on-run of at least the minimum duration is emitted |
| Segmenter.SegmentInvariants | Dall3.py:81-98 | every detection lasts at least MIN_DURATION and scores 1.0; on a strictly increasing series the detections are in start order, do not overlap, and have non-negative durations |
| Segmenter.ScenarioFallingEdge | Dall3.py:75-89 | [(0,.9),(1,.9),(2,.9),(3,.2)] with threshold .85 and minimum 1 gives exactly one detection, start 0, duration 3 |
| Segmenter.ScenarioOpenAtEnd | Dall3.py:92-100 | a run still open at the end closes at the last sample's timestamp |
| Segmenter.ThresholdBoundary | Dall3.py:67-76 | a score of exactly 0.85 is no hit (strict >) but keeps a run on (>=) |
| Segmenter.MergeStepFacts | Dall3.py:105-115 | a detection closer than the minimum gap to the last kept event extends that event to the detection's end and keeps its start and score; otherwise it is appended unchanged |
| Segmenter.MergeClose | Dall3.py:102-118 | the in-place merge loop computes the merge function |
| Segmenter.MergeGaps | Dall3.py:105-115 | after merging, every two adjacent events are at least MIN_GAP_TO_SEPARATE apart |
| Segmenter.MergeFromDetections | Dall3.py:103-118 | no more events than detections; the first start and the last end are kept; every merged start and score is some detection's, every merged end some detection's end |
| Segmenter.MergeKeepsMinDuration | Dall3.py:110-113 | for detections with non-decreasing starts, merging keeps every duration at least the minimum |
| Segmenter.ScenarioFuse | Dall3.py:105-115 | {0,1} and {3,1} with gap 4 fuse into {0,4} |
| Segmenter.MergedSegmentFacts | Dall3.py:70-118 | the final list's events are at least the minimum gap apart, last at least the minimum duration, score 1.0 and start at the first sample of an on-run |
| Segmenter.GapsChain | Dall3.py:103-115 | in the merged list every later event starts at least the gap after any earlier one ends, not only the next one |
| Segmenter.OnsetsOrdered | Dall3.py:120-123 | the onsets dictionary's keys are 0 .. n-1 with no hole, and each key's interval ends at least the gap before any later key's interval starts |
| Segmenter.DetectAppearances | Dall3.py:57-123 | the whole script: results, hits, events and onsets are exactly the samples, Above, Merge(Segment(...)) and their dictionary; events are gapped, long enough, scored 1.0 and start at rising edges; onsets are ordered by key |
| Sampling.Range | template_detector_autoswitch.py:72 | range(start, end, step): empty iff start >= end, starts at start, strictly increasing by step, all below end |
| Sampling.RangeComplete | hsv_detector_from_template.py:85 | every start + k*step below end is sampled |
| Sampling.FrameAtSeconds | template_detector_autoswitch.py:136 | int(t * fps) of a frame's own timestamp f/fps is that frame again |
| CoarseRefine.MaskBinary | t_detector_gui_optimized.py:66 | the inverted threshold at 250 gives a mask of the template's shape holding only 0 and 255, which never keeps a brighter pixel while leaving out a darker one |
| CoarseRefine.CoarseScan | t_detector_gui_optimized.py:76-105 | the while loop, jumping int(fps) frames on a miss and 120*int(fps) on a hit and stopping at the first failed read, computes the coarse-match function |
| CoarseRefine.CoarseCharacterized | t_detector_gui_optimized.py:84-103 | the first coarse match is the first sampled frame scoring >= threshold and no earlier sampled frame does; after each match the next is the first hit on the grid restarting a cooldown later; consecutive matches are at least cooldown_frames apart |
| CoarseRefine.CoarseSuffix | t_detector_gui_optimized.py:97-103 | after a match the scan restarts at match + cooldown_frames |
| CoarseRefine.WindowOfFrame | t_detector_gui_optimized.py:113-115 | the look-back window of a match at frame idx is [max(0, idx - 180*fps), idx) |
| CoarseRefine.RefineWindow | t_detector_gui_optimized.py:117-136 | the refinement for loop computes the pick function over range(start, end, step) |
| CoarseRefine.PickFacts | t_detector_gui_optimized.py:117-138 | best_frame stays -1 (with best_score -1) iff no readable window frame reaches the threshold; otherwise it is a window frame with that frame's score, >= threshold |
| CoarseRefine.PickFirstMax | t_detector_gui_optimized.py:134-136 | for a non-negative threshold the refined frame scores at least every readable window frame and strictly more than every earlier one |
| CoarseRefine.PickStopsAtFailedRead | t_detector_gui_optimized.py:125-126 | stopping at the first failed read gives the same pick as scanning only the frames before it |
| CoarseRefine.NegativeThresholdKeepsLater | t_detector_gui_optimized.py:134 | with a negative threshold the best_score < 0 test lets a later, lower score replace the best |
| CoarseRefine.DetectCoarseAndRefined | t_detector_gui_optimized.py:62-143 | both passes: coarse matches as scanned, refined matches as picked per coarse match |
| CoarseRefine.RefinedWithinLookBack | t_detector_gui_optimized.py:112-141 | at most one refined time per coarse match; each is a readable frame scoring >= threshold, before its coarse match and at most 180 s earlier |
| ColorBand.MakeBand | template_detector_autoswitch.py:97-98 | each lower bound is >= 0 and >= mean - tol, each upper bound <= 179 (hue) or 255 and <= mean + tol |
| ColorBand.MeanInsideBand | hsv_detector_from_template.py:59-66 | for a mean inside the channel ranges, lower <= mean <= upper on every channel |
| ColorBand.InBandWithinTolerance | hsv_detector_from_template.py:94-104 | with exact bounds, a valid pixel passes inRange iff every channel is within its tolerance of the mean |
| ColorBand.RoundHalfEven | template_detector_autoswitch.py:96-98 | the bound inRange uses is within half a unit of the computed one, and a tie goes to the even integer |
| ColorBand.RoundedChannel | template_detector_autoswitch.py:96-101 | an integer channel passes the rounded bounds only within half a unit of the exact bounds, and always strictly inside that margin |
| ColorBand.RoundedBandWithinHalf | template_detector_autoswitch.py:96-101 | a pixel in the rounded band lies in the exact band widened by 0.5, and every pixel strictly inside that widened band is in the rounded band |
| ColorBand.WholeBandUnrounded | hsv_detector_from_template.py:59-66 | a band around whole-number means with whole-number tolerances is left unchanged by the rounding |
| ColorBand.RoundingAdmitsPixelBelowExactBound | template_detector_autoswitch.py:96-98 | a saturation mean of 100.3 gives the exact lower bound 50.3, which rejects saturation 50, while the rounded bound 50 accepts it |
| ColorBand.CountRowCounts | hsv_detector_from_template.py:105 | the in-band count of a row is the size of the set of its in-band pixels |
| ColorBand.RoiCountBound | hsv_detector_from_template.py:103-105 | the ROI slice holds at most w*h in-band pixels |
| ColorBand.MatchRatio | hsv_detector_from_template.py:105 | the ratio exists iff w*h > 0 and then lies in [0, 1] |
| AutoSwitch.StrategyMonotone | template_detector_autoswitch.py:28-33 | a template that is no flatter, no smaller and has no fewer keypoints never moves back to template_match, and an orb choice stays orb |
| AutoSwitch.FlatSmallTemplateIgnoresKeypoints | template_detector_autoswitch.py:28-31 | a 30x30 template with saturation mean 5 and deviation 3 gets template_match whatever its keypoint count |
| AutoSwitch.MoreKeypointsKeepOrb | template_detector_autoswitch.py:30-31 | more keypoints never turn an orb choice into another one |
| AutoSwitch.RowScoreFacts | template_detector_autoswitch.py:81-108 | a row's time converts back to its frame; orb yields none; a template-matching row's score, a match above 0.9 rounded to 3 digits, is at least 0.9, with the template's size; a fixed colour row's ratio, rounded to 2 digits, is in [0.5, 1]; a moving colour row's score is 255 per in-band pixel and above w*h*100; fixed-mode rows sit at the template's place |
| AutoSwitch.RoundedAtLeast | template_detector_autoswitch.py:84-85 | round(x, d) of a value above a multiple of 10^-d is at least that multiple, so round(max_val, 3) of a match above 0.9 is at least 0.9 |
| AutoSwitch.RoundedAtMost | template_detector_autoswitch.py:105-108 | round(x, d) of a value at most a multiple of 10^-d stays at most that multiple, so a ratio of at most 1 is written as at most 1 |
| AutoSwitch.RoundedRatioBounds | template_detector_autoswitch.py:105-108 | a match ratio above 0.5 and at most 1 is written by round(match_ratio, 2) as a value in [0.5, 1] |
| AutoSwitch.RoundedTieKeepsFirst | template_detector_autoswitch.py:108 | ratios 0.871 and 0.874 are both written as 0.87, and idxmax over the written column picks the first |
| AutoSwitch.MovingColourRuleCountsPixels | template_detector_autoswitch.py:100-101 | the mask-sum rule accepts iff 255 times the in-band pixel count exceeds w*h*100 |
| AutoSwitch.DetectRows | template_detector_autoswitch.py:72-108 | the detection loop over range(0, total_frames, int(fps)), skipping failed reads, computes the rows function |
| AutoSwitch.OrbYieldsNoRows | template_detector_autoswitch.py:81-108 | the loop has no orb branch, so the orb strategy yields no rows |
| AutoSwitch.RowsSound | template_detector_autoswitch.py:72-108 | every row comes from a readable sampled frame accepted by the strategy's rule |
| AutoSwitch.RowsOrdered | template_detector_autoswitch.py:72-108 | rows come in strictly increasing time order |
| AutoSwitch.RowsComplete | template_detector_autoswitch.py:72-108 | every readable sampled frame the rule accepts yields its row |
| AutoSwitch.ArgMaxFirst | template_detector_autoswitch.py:130 | idxmax: a position whose score is the maximum and strictly above every earlier one |
| AutoSwitch.RefineAroundBest | template_detector_autoswitch.py:140-153 | the refinement loop over range(-window, window+1), skipping negative indices and failed reads, computes the rescoring function |
| AutoSwitch.AroundEntries | template_detector_autoswitch.py:141-152 | at most 2*window+1 entries, each a readable frame within the window with its full-frame score; non-empty when the best frame is readable |
| AutoSwitch.RefinementPass | template_detector_autoswitch.py:129-158 | no refinement iff no rows; otherwise the refined entry is the first maximum of the frames rescored around the first best row |
| AutoSwitch.RefineReadableFrame | template_detector_autoswitch.py:136-156 | around a readable best frame the refined entry exists, is a frame within the window and scores at least every rescored frame |
| AutoSwitch.BestRowFrameReadable | template_detector_autoswitch.py:130-136 | the best row's timestamp points back at a readable frame |
| AutoSwitch.RunAutoSwitch | template_detector_autoswitch.py:16-158 | the whole script: strategy as decided, rows as detected with the clamped 15/50/50 band as inRange rounds it, no refinement iff no rows (so always for orb), and otherwise the refined result is the first maximum of the frames rescored around the first best row of the rounded score column, which always exist |
| HsvDetector.TemplateBandHoldsMean | hsv_detector_from_template.py:59-66 | the band built from the truncated mean with tolerances 20/50/50 holds that mean on every channel, so it is not empty |
| HsvDetector.RegionRowsExactly | hsv_detector_from_template.py:96-101 | a row is emitted iff some region's area is >= 0.5*w*h, with the region's box and its area as score; every row has the frame's time |
| HsvDetector.TwoRegionsTwoRows | hsv_detector_from_template.py:96-101 | two large regions in one frame give two rows, not only the largest |
| HsvDetector.FrameRows | hsv_detector_from_template.py:93-108 | moving mode gives the region rows; fixed mode gives one row iff the ROI ratio exists and is > 0.5, at the template's place with that ratio (<= 1) as score |
| HsvDetector.ScanContours | hsv_detector_from_template.py:96-101 | the contour loop computes the region rows |
| HsvDetector.DetectHsv | hsv_detector_from_template.py:83-108 | the frame loop over range(0, total_frames, int(fps)), skipping failed reads, computes the rows function |
| HsvDetector.RowsAccepted | hsv_detector_from_template.py:85-108 | every row is one of the rows of a readable sampled frame, carries that frame's time and passes its mode's rule |
| HsvDetector.RowsComplete | hsv_detector_from_template.py:85-108 | every row a readable sampled frame yields is among the results |
| HsvDetector.TemplateBandIsWhole | hsv_detector_from_template.py:59-66 | the band of the truncated means has whole-number bounds, so inRange's rounding leaves it unchanged |
| HsvDetector.DetectFromTemplate | hsv_detector_from_template.py:57-108 | the whole detection with the band inRange applies to the template's int() means: the results are the rows of the readable sampled frames under that band, each row is one of its frame's rows and passes the rule, and every such row is reported |
| FunctionDiff.FirstHeader | tettt.py:29-36 | the index of the first header line: no earlier line is one |
| FunctionDiff.ExtractFunctions | tettt.py:23-43 | the line loop with current_func/in_function computes the blocks function |
| FunctionDiff.ScanKeepsInvariant | tettt.py:31-38 | the loop keeps: closed and open blocks are well formed, their count is the header count so far, and together they are the lines from the first header on |
| FunctionDiff.BlocksFacts | tettt.py:31-41 | every block starts at a header and holds no other; one block per header line; the blocks concatenate to the input from the first header on |
| FunctionDiff.WordPrefix | tettt.py:49 | the longest prefix of \w characters |
| FunctionDiff.NameMatch | tettt.py:49 | a match gives a non-empty identifier of \w characters following "def " or "class " at the start of the stripped line |
| FunctionDiff.BlockName | tettt.py:48-52 | a block is named iff one of its lines matches |
| FunctionDiff.HeaderNamesBlock | tettt.py:48-52 | a block from the splitter is named by its header line |
| FunctionDiff.ExtractFunctionNames | tettt.py:45-53 | the naming loop, stopping at the first matching line, computes the named-blocks function |
| FunctionDiff.NamedSound | tettt.py:45-53 | every (name, block) pair names one of the blocks by its first match; unnamed blocks are dropped |
| FunctionDiff.LookupItem | tettt.py:65-66 | in a dict with distinct names, (k, v) is an item iff looking k up gives v |
| FunctionDiff.PutLookup | tettt.py:57 | after d[k] = v, k maps to v and every other name is unchanged |
| FunctionDiff.FromPairsFacts | tettt.py:57 | dict(pairs) has distinct names, each name maps to its last pair's block, and every item is one of the pairs |
| FunctionDiff.FunctionDictFacts | tettt.py:55-57 | the function dict has distinct names; each body is a well-formed block named by its header; a repeated name keeps its later block |
| FunctionDiff.Mismatches | tettt.py:68 | the count of differing positions over the common prefix is at most either length |
| FunctionDiff.DiffSizeBounds | tettt.py:67-69 | diff_size is 0 iff the bodies are equal, and at most the longer body's length |
| FunctionDiff.CompareFunctions | tettt.py:59-82 | the two loops and the three sorts compute the comparison function |
| FunctionDiff.ModifiedOfExactly | tettt.py:64-70 | an entry is modified iff its name is in both dicts with unequal bodies, with that diff_size |
| FunctionDiff.AddedOfExactly | tettt.py:71-72 | an entry is added iff its name is only in the modified dict |
| FunctionDiff.RemovedOfExactly | tettt.py:74-76 | an entry is removed iff its name is only in the original dict |
| FunctionDiff.ComparisonFacts | tettt.py:64-82 | modified iff in both with unequal bodies, with 1 <= diff_size <= max length; added iff only in the new dict; removed iff only in the old; each list sorted descending, a permutation of its unsorted list, and stable |
| FunctionDiff.FindRelatedFunctions | tettt.py:84-89 | the search loop computes the related function |
| FunctionDiff.RelatedExactly | tettt.py:86-88 | a function is related iff it is in the dict and its joined body contains the keyword |
| FunctionDiff.RelatedInOrder | tettt.py:84-89 | related functions keep the dict's order |
| StableSort.SortByCorrect | tettt.py:78-81 | sorted(..., key, reverse) is ordered by the key, a permutation of its input, and keeps input order among equal keys |
| StableSort.SortByMembers | ziptotxtCGPT.py:50 | sorting keeps the length and exactly the same elements |
| Text.LStripByFacts | extract_clip_gui.py:9 | the left strip removes the longest prefix of stripped characters and no more |
| Text.RStripByFacts | extract_clip_gui.py:9 | the right strip removes the longest suffix of stripped characters and no more |
| Text.NatToDigits | extract_clip_gui.py:33 | the decimal digits of n, no leading zero, reading back as n |
| Text.ZeroPad | txt2chunks.py:51 | digits reading back as n, padded with zeros to the width |
| Text.IntToString | extract_clip_gui.py:33 | str(i): digits of i, with a leading '-' for a negative i |
| Text.FormatInt | extract_clip_gui.py:18 | f"{i:0W}": at least W digits reading back as i, with '-' first for a negative i |
| Text.ParseDigits | extract_clip_gui.py:13 | int() of a digit string is its decimal value |
| Text.IntToStringRoundTrip | extract_clip_gui.py:33 | int(str(i)) == i |
| Text.SplitJoin | extract_clip_gui.py:9 | joining the pieces of split(c) with c gives the string back, and no piece contains c |
| Text.CaseMappingFacts | ziptotxtCGPT.py:23 | upper() leaves no lower-case letter and lower() no upper-case one; each is idempotent and lower(upper(s)) == lower(s), upper(lower(s)) == upper(s) |
| Text.SplitExt | extract_clip_gui.py:23 | base + ext is the path; ext is empty or a dot followed by no dot and no separator |
| Text.SplitExtInsert | extract_clip_gui.py:23-24 | inserting a dot-free suffix before the extension keeps the extension |
| Text.SplitExtReplace | mkv2m4v.py:12-14 | replacing the extension gives a path that splits into the same base and the new extension |
| Transcript.FieldsToSeconds | txt2chunks.py:7-8 | minutes*60 + seconds requires exactly two fields, each int()-parsable |
| Transcript.TimestampLineSeconds | txt2chunks.py:6-8 | timestamp_to_seconds("[M:SS]") = M*60 + SS for every line the chunker accepts as a timestamp |
| Transcript.FormatTimestampRoundTrip | transcript.py:30-33 | format_timestamp(s) matches ^\[\d+:\d{2}\]$ iff s >= 0, and then timestamp_to_seconds reads it back as floor(s) |
| Transcript.FieldsOfFormat | transcript.py:31-33 | minutes*60 + seconds = floor(s); seconds = floor(s) mod 60 with exactly two digits; minutes >= 0 with at least two digits for s >= 0 and negative otherwise |
| Transcript.SecondsField | transcript.py:32 | int(seconds % 60) is in 0..59 |
| Transcript.CleanLinesPrefix | txt2chunks.py:16 | the lines kept from a prefix of the file are a prefix of the lines kept from the file, so order is kept |
| Transcript.CleanLinesKeeps | txt2chunks.py:16 | every line that is not blank once stripped is kept, stripped, at the position counting the kept lines before it |
| Transcript.CleanLinesFrom | txt2chunks.py:16 | every kept line is such a stripped non-blank line of the file, at that position |
| Transcript.CleanLinesTimestamps | txt2chunks.py:16-18 | some kept line is a timestamp iff some line of the file strips to one |
| Transcript.ChunkFile | txt2chunks.py:16-47 | the file's lines are cleaned and chunked, and there is no chunk iff no line of the file strips to a timestamp |
| Transcript.EntriesFromAt | txt2chunks.py:25-44 | a timestamp line consumes the next line as its text ("" on the last line) and moves on two lines; any other line is skipped |
| Transcript.EntriesFromFacts | txt2chunks.py:25-44 | every entry's timestamp matches the pattern and its seconds are M*60+SS; no entries iff no timestamp lines |
| Transcript.TimestampConsumedAsText | txt2chunks.py:26-28 | a timestamp right after a timestamp is taken as the first one's text |
| Transcript.EntryText | txt2chunks.py:40 | each entry's text starts with its timestamp |
| Transcript.GroupStep | txt2chunks.py:31-41 | an entry opens the first chunk, starts a new one iff it is more than max_chunk_duration after the open chunk's first entry, and joins the open chunk otherwise |
| Transcript.TracksStep | txt2chunks.py:31-41 | one iteration of the loop keeps chunks, current_chunk and current_start in step with the grouping |
| Transcript.ProcessTranscript | txt2chunks.py:18-47 | the while loop with its mutable chunk state computes the chunks function |
| Transcript.TracksFinish | txt2chunks.py:46-47 | appending the non-empty open chunk completes the rendered chunks |
| Transcript.GroupPartitions | txt2chunks.py:36-47 | every entry lands in exactly one chunk, in input order, and no chunk is empty |
| Transcript.GroupSpans | txt2chunks.py:34-38 | every later entry of a chunk is at most max_chunk_duration after its first entry |
| Transcript.GroupStartsApart | txt2chunks.py:34-38 | each chunk starts more than max_chunk_duration after the previous chunk's start |
| Transcript.RenderStartsWithTimestamp | txt2chunks.py:36-47 | a chunk is non-empty and starts with its first timestamp |
| Transcript.ChunksFacts | txt2chunks.py:36-47 | one chunk per group; no chunks iff no timestamp lines; every chunk starts with its first entry's timestamp |
| Transcript.ChunkFileName | txt2chunks.py:50-51 | chunk_<idx>.txt with at least three digits reading back as idx |
| Transcript.ChunkFileNamesDistinct | txt2chunks.py:50-51 | the file names are distinct and numbered from 1 |
| Transcript.FirstChunkFile | txt2chunks.py:50-51 | the first file is chunk_001.txt |
| Clip.ParseTimestampKeepsValues | extract_clip_gui.py:7-18 | an accepted time's output has three fields that int() reads as the input's own field values, minutes and seconds two characters wide; an input is rejected iff it lacks three integer fields with h >= 0 and m, s in 0..59 |
| Clip.NormalizedShape | extract_clip_gui.py:18 | the output is three digit fields separated by ':', hours at least two digits, minutes and seconds exactly two, each reading back as its value |
| Clip.NormalizedReadsBack | extract_clip_gui.py:7-18 | parse_timestamp accepts its own output for fields in range and returns it unchanged |
| Clip.ParseTimestampIdempotent | extract_clip_gui.py:7-18 | parse_timestamp(parse_timestamp(x)) == parse_timestamp(x) for accepted x |
| Clip.PadsSingleDigits | extract_clip_gui.py:18 | 1, 2, 3 print as "01:02:03" |
| Clip.ClipPathKeepsExtension | extract_clip_gui.py:23-24 | the clip path splits into the video's base + "_clip" and the video's extension, and is never the video itself |
| Clip.ClipCommand | extract_clip_gui.py:25-37 | the argument list has eleven entries |
| Clip.ClipCommandArguments | extract_clip_gui.py:25-37 | exactly ffmpeg -y -ss start -i video -t duration -c copy clip, in that order, with the clip path (not the video) last |
| Clip.ClipDurationReadsBack | extract_clip_gui.py:32-33 | the duration argument reads back as the given seconds |
| ChatExport.SelectEntry | ziptotxtCGPT.py:12 | a chosen entry is one of the names and ends with conversations.json |
| ChatExport.SelectEntryFirst | ziptotxtCGPT.py:12 | nothing is chosen iff no name ends with conversations.json; otherwise the first such name is chosen |
| ChatExport.ConversationsEntry | ziptotxtCGPT.py:12-14 | success iff an entry is found, with that entry; FileNotFoundError otherwise |
| ChatExport.MessageFields | ziptotxtCGPT.py:23-25 | the role label has no lower-case letter and is UNKNOWN when author or role is missing; non-empty text is the first part of a non-empty parts list |
| ChatExport.ConversationLines | ziptotxtCGPT.py:21-26 | the header line and then one block per message, in order |
| ChatExport.FormatConversation | ziptotxtCGPT.py:20-27 | the appending loop and the final join give the lines joined by "\n" |
| ChatExport.FormatLayout | ziptotxtCGPT.py:21-27 | the joined text is the header followed by each message's block after one line break |
| ChatExport.LayoutStartsWithHeader | ziptotxtCGPT.py:20-27 | the text starts with the title header |
| ChatExport.Kept | ziptotxtCGPT.py:41-45 | no more messages than mapping entries |
| ChatExport.CollectMessages | ziptotxtCGPT.py:41-45 | the mapping loop computes the kept messages |
| ChatExport.KeptExactly | ziptotxtCGPT.py:42-45 | a message is kept iff its entry holds a non-empty dict |
| ChatExport.WithTime | ziptotxtCGPT.py:47 | a message is in with_time iff it is kept and its create_time is an int, float or bool |
| ChatExport.NotInIsWithoutTime | ziptotxtCGPT.py:48 | the value-equality membership test keeps exactly the messages without a numeric time, in order |
| ChatExport.TimeSplitPermutes | ziptotxtCGPT.py:47-48 | the two lists together are a permutation of the kept messages |
| ChatExport.WithoutTimeMembers | ziptotxtCGPT.py:48 | a message is in without_time iff it is kept and has no numeric time |
| ChatExport.OrderedFacts | ziptotxtCGPT.py:47-50 | the order is a permutation of the kept messages: the timed ones first, sorted ascending and stable, then the others in original order |
| ChatExport.ConversationTexts | ziptotxtCGPT.py:36-51 | one formatted text per conversation, in order |
| ChatExport.ExportText | ziptotxtCGPT.py:36-55 | the export loop gives the conversation texts joined by "\n" |
| Converter.ConvertVideo | mkv2m4v.py:6-36 | the argument list grown with += is the command function's list, or nothing for an unsupported file |
| Converter.SupportedHasExtension | mkv2m4v.py:7-8 | a supported file has a four-character extension starting with a dot |
| Converter.CommandShape | mkv2m4v.py:7-36 | a command is built iff the lower-cased extension is .mkv, .mp4, .mov or .m4v; it starts ffmpeg -i input and ends with the output; -t is present iff the cut is asked for, and then -t 00:02:00 sits right before the output |
| Converter.CommandMode | mkv2m4v.py:17-33 | -vn is present iff only audio is exported; -c:v is present iff not |
| Converter.OutputsKeepBase | mkv2m4v.py:12-14 | both outputs split into the input's base and .m4v or .wav |
| Converter.M4vOutputIsInput | mkv2m4v.py:11-12 | the .m4v output path string equals the input path string iff the input's extension is exactly ".m4v" |

## Left out

- OpenCV, ORB and PIL computations are not modelled: template matching,
  `minMaxLoc`, colour conversion, resizing, keypoints, contours and
  bounding boxes. The model takes their results as inputs: per-frame
  scores, locations, HSV pixels, region boxes and template statistics.
- Video access, ffmpeg and other subprocess runs, temporary
  directories, Tkinter windows, dialogs and message boxes, threads,
  file, CSV, JSON and zip reading and writing, plotting, and
  `print`/log output are left out. They are I/O: commands are modelled
  as argument lists, files as their lines or decoded values.
- Frame rates are whole numbers of frames per second and timestamps are
  exact reals. `int(fps)`, `int(ts * fps)` and `frame / fps` are
  therefore exact. Floating-point rounding is not modelled.
- Segmenter.SegmentSeries: the `round(..., 3)` of start and duration
  (Dall3.py:84-85, 96-97) is not modelled. Detections carry exact values.
- Segmenter.MergeClose: the `round(..., 3)` of a fused duration
  (Dall3.py:113) is not modelled.
- Converter.M4vOutputIsInput: path strings are compared. On a
  case-insensitive file system (Windows), `a.M4V` and `a.m4v` name the
  same file, so there the output also overwrites the input; file systems
  are not modelled.
- AutoSwitch.RowScoreFacts: the rounding of the score column is
  modelled as round-half-even on exact reals, not on binary doubles, so
  a value whose double lies just beside a tie may round the other way.
- AutoSwitch.RunAutoSwitch: the `round(frame_idx / fps, 2)` of the time
  column is not written out. Sampled frames are multiples of the whole
  frame rate, so that time is a whole number of seconds and the rounding
  leaves it unchanged.
- HsvDetector.FrameRows: rows hold exact timestamps. `round(frame_idx /
  fps, 2)` is not modelled.
- CoarseRefine.DetectCoarseAndRefined: the `scale_factor` resize and the
  `f"{t:.3f}"` output file are not modelled. Scores are given at the
  scale used.
- FunctionDiff.NameMatch: `\w` is taken as ASCII letters, digits and `_`.
  Python's Unicode word characters are not modelled.
- Text.CaseMappingFacts: `upper()` and `lower()` map ASCII letters only.
  Python's full Unicode case mapping is not modelled: `"ß".upper()` is
  `"SS"`, so at ziptotxtCGPT.py:23 the label can be longer than the role,
  and the Kelvin sign lowers to `k`, so mkv2m4v.py:7 accepts an
  extension the model refuses.
- ChatExport.MessageFields: the label's length equals the role's only
  under the ASCII case mapping above.
- Transcript.EntriesFromFacts: `\d` of the timestamp pattern
  (txt2chunks.py:18) is taken as an ASCII digit. Python's `\d` and
  `int()` also accept other Unicode decimal digits, such as
  Arabic-Indic ones; the model skips such lines where the program reads
  them.
- `keyword_propagation_analysis` (tettt.py:91-100) is not modelled. It
  puts an unescaped keyword into regular expressions, so its meaning
  depends on the regex engine.
- The `difflib.unified_diff` report and the configuration prompt of
  tettt.py are not modelled.
- `current_end` (txt2chunks.py:22, 33, 41) is assigned but never read,
  so it is not modelled.
- ChatExport.MessageFields: a null author or content, a non-string role
  and mapping values that are not dicts make the code raise; these
  shapes are not modelled. A first part that is not a string (an image
  part's dict, or null printed as "None") is formatted by the code
  without raising (ziptotxtCGPT.py:25-26); the model takes only string
  parts, so that output is not modelled. A NaN `create_time`, which
  Python's sort leaves in an unspecified relative order, is not
  modelled either.
- Clip.ParseTimestampKeepsValues: the three error messages are modelled as
  error kinds. `int()`'s Unicode digits are not modelled; ASCII digits,
  a sign, surrounding whitespace and single underscores between digits
  are.
- The GUI glue that calls the modelled operations is left out as UI:
  `launch_extraction`, `pick_file_and_convert` and `main`. So are
  `generate_t_template_from_video` (drawing with float ratios) and
  Whisper transcription with its duration estimate.
- The commented-out hit-grouping block of Dall3.py is not modelled.
