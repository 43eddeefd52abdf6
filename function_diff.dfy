/** tettt.py: the function-level differ for two versions of a Python file.
    A file (its lines as readlines() returns them) is cut into blocks, each
    starting at a `def ` or `class ` header; each block is named by the
    header's identifier; the two name-to-body dicts are compared into
    modified, added and removed functions; and a keyword search picks the
    functions whose text contains it.

    Reading the files, the Tkinter dialogs, the configuration prompt, the
    report writing and the unified diff are not part of this model. */
module FunctionDiff {
  import opened Text
  import StableSort

  /** One line of the file, with its newline. */
  type Line = string
  type Block = seq<Line>

  /** Line 32: the stripped line starts with "def " or "class ". */
  predicate IsHeader(line: Line) {
    var t := Strip(line);
    StartsWith(t, "def ") || StartsWith(t, "class ")
  }

  /** A block as extract_functions builds it: a header line followed by
      non-header lines. */
  predicate WellFormed(b: Block) {
    && |b| > 0 && IsHeader(b[0])
    && forall j :: 1 <= j < |b| ==> !IsHeader(b[j])
  }

  function HeaderCount(lines: seq<Line>): (n: nat)
    ensures n <= |lines|
  {
    if lines == [] then 0
    else HeaderCount(lines[..|lines| - 1]) + (if IsHeader(lines[|lines| - 1]) then 1 else 0)
  }

  /** The index of the first header line, or |lines| when there is none. */
  function FirstHeader(lines: seq<Line>): (k: nat)
    ensures k <= |lines|
    ensures forall j :: 0 <= j < k ==> !IsHeader(lines[j])
    ensures k < |lines| ==> IsHeader(lines[k])
  {
    if lines == [] then 0
    else
      var k := FirstHeader(lines[..|lines| - 1]);
      if k < |lines| - 1 || IsHeader(lines[|lines| - 1]) then k else |lines|
  }

  /** The blocks' lines one after the other. */
  function Flatten(blocks: seq<Block>): seq<Line> {
    if blocks == [] then [] else Flatten(blocks[..|blocks| - 1]) + blocks[|blocks| - 1]
  }

  // ---------------------------------------------------------------------
  // extract_functions (lines 23-43)

  /** The loop's variables functions, current_func and in_function. */
  datatype ScanState = ScanState(functions: seq<Block>, current: Block, inFunction: bool)

  /** One iteration of lines 31-38. */
  function Step(st: ScanState, line: Line): ScanState {
    if IsHeader(line) then
      if st.inFunction then ScanState(st.functions + [st.current], [line], true)
      else ScanState(st.functions, st.current + [line], true)
    else if st.inFunction then st.(current := st.current + [line])
    else st
  }

  /** The loop's state after the given lines. */
  function Scan(lines: seq<Line>): ScanState {
    if lines == [] then ScanState([], [], false)
    else Step(Scan(lines[..|lines| - 1]), lines[|lines| - 1])
  }

  /** The result of extract_functions: lines 40-41 add the last open block. */
  function Blocks(lines: seq<Line>): seq<Block> {
    var st := Scan(lines);
    if st.current != [] then st.functions + [st.current] else st.functions
  }

  method ExtractFunctions(lines: seq<Line>) returns (functions: seq<Block>)
    ensures functions == Blocks(lines)
  {
    functions := [];
    var currentFunc: Block := [];
    var inFunction := false;
    for i := 0 to |lines|
      invariant Scan(lines[..i]) == ScanState(functions, currentFunc, inFunction)
    {
      var line := lines[i];
      assert lines[..i + 1][..i] == lines[..i] && lines[..i + 1][i] == line;
      if IsHeader(line) {
        if inFunction {
          functions := functions + [currentFunc];
          currentFunc := [];
        }
        inFunction := true;
      }
      if inFunction {
        currentFunc := currentFunc + [line];
      }
    }
    assert lines[..|lines|] == lines;
    if currentFunc != [] {
      functions := functions + [currentFunc];
    }
  }

  /** What the loop keeps true about its state. */
  predicate ScanInvariant(lines: seq<Line>, st: ScanState) {
    StateFits(FirstHeader(lines) < |lines|, HeaderCount(lines), lines[FirstHeader(lines)..], st)
  }

  /** The state after a header has been seen exactly when started, with
      count blocks open or closed, holding the lines tail block by block. */
  predicate StateFits(started: bool, count: nat, tail: seq<Line>, st: ScanState) {
    && (st.inFunction <==> started)
    && (!st.inFunction ==> st.functions == [] && st.current == [])
    && (st.inFunction ==> WellFormed(st.current))
    && (forall i :: 0 <= i < |st.functions| ==> WellFormed(st.functions[i]))
    && |st.functions| + (if st.inFunction then 1 else 0) == count
    && Flatten(st.functions) + st.current == tail
  }

  lemma {:induction false} ScanKeepsInvariant(lines: seq<Line>)
    ensures ScanInvariant(lines, Scan(lines))
  {
    if lines != [] {
      var init, line := lines[..|lines| - 1], lines[|lines| - 1];
      ScanKeepsInvariant(init);
      assert lines == init + [line];
      StepKeepsInvariant(init, line, Scan(init));
    }
  }

  /** One more line keeps the invariant, branch by branch of Step. */
  lemma StepKeepsInvariant(init: seq<Line>, line: Line, st: ScanState)
    requires ScanInvariant(init, st)
    ensures ScanInvariant(init + [line], Step(st, line))
  {
    var lines := init + [line];
    var k := FirstHeader(init);
    AppendLine(init, line);
    if st.inFunction {
      assert lines[k..] == init[k..] + [line];
      if IsHeader(line) {
        StepNewBlock(HeaderCount(init), init[k..], line, st);
      } else {
        StepExtendBlock(HeaderCount(init), init[k..], line, st);
      }
    } else if IsHeader(line) {
      assert lines[k..] == [line];
      assert Step(st, line) == ScanState([], [line], true);
    } else {
      assert lines[|lines|..] == [];
    }
  }

  /** What one more line does to the header count and the first header. */
  lemma AppendLine(init: seq<Line>, line: Line)
    ensures HeaderCount(init + [line]) == HeaderCount(init) + (if IsHeader(line) then 1 else 0)
    ensures FirstHeader(init + [line]) == if FirstHeader(init) < |init| || IsHeader(line) then FirstHeader(init) else |init| + 1
  {
    assert (init + [line])[..|init|] == init;
  }

  /** A header closes the open block and opens a new one. */
  lemma StepNewBlock(count: nat, tail: seq<Line>, line: Line, st: ScanState)
    requires StateFits(true, count, tail, st) && IsHeader(line)
    ensures StateFits(true, count + 1, tail + [line], Step(st, line))
  {
    var fs := st.functions + [st.current];
    assert fs[..|st.functions|] == st.functions && fs[|st.functions|] == st.current;
    assert Flatten(fs) == Flatten(st.functions) + st.current;
  }

  /** Any other line joins the open block. */
  lemma StepExtendBlock(count: nat, tail: seq<Line>, line: Line, st: ScanState)
    requires StateFits(true, count, tail, st) && !IsHeader(line)
    ensures StateFits(true, count, tail + [line], Step(st, line))
  {
    var cur := st.current + [line];
    assert Flatten(st.functions) + cur == (Flatten(st.functions) + st.current) + [line];
    assert forall j :: 1 <= j < |cur| ==> cur[j] == if j < |st.current| then st.current[j] else line;
  }

  /** Lines 31-41: every block starts at a header and holds no other header,
      there is one block per header line, and the blocks put back together
      give the file from its first header on (earlier lines are dropped). */
  lemma BlocksFacts(lines: seq<Line>)
    ensures forall i :: 0 <= i < |Blocks(lines)| ==> WellFormed(Blocks(lines)[i])
    ensures |Blocks(lines)| == HeaderCount(lines)
    ensures Flatten(Blocks(lines)) == lines[FirstHeader(lines)..]
  {
    ScanKeepsInvariant(lines);
    var st := Scan(lines);
    if st.current != [] {
      assert (st.functions + [st.current])[..|st.functions|] == st.functions;
    }
  }

  // ---------------------------------------------------------------------
  // extract_function_names (lines 45-53)

  /** \w, on ASCII. */
  predicate IsWordChar(c: char) {
    'a' <= c <= 'z' || 'A' <= c <= 'Z' || '0' <= c <= '9' || c == '_'
  }

  /** The longest run of word characters at the start of s. */
  function WordPrefix(s: string): (w: string)
    ensures |w| <= |s| && w == s[..|w|]
    ensures forall i :: 0 <= i < |w| ==> IsWordChar(w[i])
    ensures |w| < |s| ==> !IsWordChar(s[|w|])
  {
    if s != [] && IsWordChar(s[0]) then [s[0]] + WordPrefix(s[1..]) else []
  }

  /** Line 49: group 2 of ^(def|class) (\w+) on the stripped line. A match
      is a header, and its name is a maximal non-empty run of word
      characters right after the keyword. */
  function NameMatch(line: Line): (r: Option<string>)
    ensures r.Some? ==> IsHeader(line) && r.value != []
    ensures r.Some? ==> StartsWith(Strip(line), "def " + r.value) || StartsWith(Strip(line), "class " + r.value)
    ensures r.Some? ==> forall i :: 0 <= i < |r.value| ==> IsWordChar(r.value[i])
  {
    var t := Strip(line);
    var d := KeywordName(t, "def ");
    if d.Some? then d else KeywordName(t, "class ")
  }

  /** The word right after keyword kw at the start of t, if t starts so. */
  function KeywordName(t: string, kw: string): (r: Option<string>)
    ensures r.Some? ==> StartsWith(t, kw) && r.value != [] && StartsWith(t, kw + r.value)
    ensures r.Some? ==> forall i :: 0 <= i < |r.value| ==> IsWordChar(r.value[i])
    ensures r.None? ==> !StartsWith(t, kw) || WordPrefix(t[|kw|..]) == []
  {
    if StartsWith(t, kw) && WordPrefix(t[|kw|..]) != [] then
      var w := WordPrefix(t[|kw|..]);
      assert t[..|kw| + |w|] == kw + w;
      Some(w)
    else None
  }

  /** The name of the first matching line of a block, if any. */
  function BlockName(block: Block): (r: Option<string>)
    ensures r.Some? <==> exists j :: 0 <= j < |block| && NameMatch(block[j]).Some?
  {
    if block == [] then None
    else if NameMatch(block[0]).Some? then NameMatch(block[0])
    else
      assert forall j :: 1 <= j < |block| ==> block[j] == block[1..][j - 1];
      BlockName(block[1..])
  }

  /** In a block of extract_functions only the header can match, so the
      block is named by its header. */
  lemma HeaderNamesBlock(b: Block)
    requires WellFormed(b)
    ensures BlockName(b) == NameMatch(b[0])
  {
    if NameMatch(b[0]).None? {
      assert forall j :: 0 <= j < |b[1..]| ==> NameMatch(b[1..][j]).None? by {
        forall j | 0 <= j < |b[1..]| ensures NameMatch(b[1..][j]).None? {
          assert b[1..][j] == b[j + 1];
        }
      }
    }
  }

  /** The (name, block) pairs of the named blocks, in order. */
  function Named(blocks: seq<Block>): seq<(string, Block)> {
    if blocks == [] then []
    else
      var b := blocks[|blocks| - 1];
      Named(blocks[..|blocks| - 1]) + (if BlockName(b).Some? then [(BlockName(b).value, b)] else [])
  }

  method ExtractFunctionNames(funcBlocks: seq<Block>) returns (names: seq<(string, Block)>)
    ensures names == Named(funcBlocks)
  {
    names := [];
    for i := 0 to |funcBlocks|
      invariant names == Named(funcBlocks[..i])
    {
      var block := funcBlocks[i];
      assert funcBlocks[..i + 1][..i] == funcBlocks[..i] && funcBlocks[..i + 1][i] == block;
      for j := 0 to |block|
        invariant names == Named(funcBlocks[..i])
        invariant BlockName(block) == BlockName(block[j..])
      {
        var m := NameMatch(block[j]);
        assert block[j..][0] == block[j] && block[j..][1..] == block[j + 1..];
        if m.Some? {
          names := names + [(m.value, block)];
          break;
        }
      }
    }
    assert funcBlocks[..|funcBlocks|] == funcBlocks;
  }

  /** Every pair comes from one of the blocks and carries that block's name. */
  lemma {:induction false} NamedSound(blocks: seq<Block>)
    ensures forall e :: e in Named(blocks) ==> e.1 in blocks && BlockName(e.1) == Some(e.0)
    ensures |Named(blocks)| <= |blocks|
  {
    if blocks != [] {
      NamedSound(blocks[..|blocks| - 1]);
      assert blocks == blocks[..|blocks| - 1] + [blocks[|blocks| - 1]];
    }
  }

  // ---------------------------------------------------------------------
  // get_function_dict (lines 55-57)

  /** A Python dict from names to bodies: its items in insertion order. */
  type Dict = seq<(string, Block)>

  predicate DistinctKeys(d: Dict) {
    forall i, j :: 0 <= i < j < |d| ==> d[i].0 != d[j].0
  }

  function Keys(d: Dict): set<string> {
    set i | 0 <= i < |d| :: d[i].0
  }

  /** d.get(k). */
  function Lookup(d: Dict, k: string): (r: Option<Block>)
    ensures r.Some? ==> (k, r.value) in d
    ensures r.None? <==> k !in Keys(d)
  {
    if d == [] then None
    else if d[0].0 == k then Some(d[0].1)
    else
      var r := Lookup(d[1..], k);
      assert Keys(d) == {d[0].0} + Keys(d[1..]) by {
        forall x | x in Keys(d) ensures x in {d[0].0} + Keys(d[1..]) {
          var i :| 0 <= i < |d| && d[i].0 == x;
          if i > 0 { assert d[1..][i - 1] == d[i]; }
        }
      }
      r
  }

  /** With distinct keys, an item is in the dict exactly when the lookup of
      its key gives its value. */
  lemma {:induction false} LookupItem(d: Dict, k: string, v: Block)
    requires DistinctKeys(d)
    ensures (k, v) in d <==> Lookup(d, k) == Some(v)
  {
    if d != [] && d[0].0 != k {
      LookupItem(d[1..], k, v);
      assert (k, v) in d <==> (k, v) in d[1..];
    }
  }

  /** d[k] = v: the value of an existing key is replaced in place, a new key
      goes last. */
  function Put(d: Dict, k: string, v: Block): Dict {
    if d == [] then [(k, v)]
    else if d[0].0 == k then [(k, v)] + d[1..]
    else [d[0]] + Put(d[1..], k, v)
  }

  /** Put keeps every existing key at its position; a new key is appended. */
  lemma {:induction false} PutShape(d: Dict, k: string, v: Block)
    ensures |Put(d, k, v)| == if Lookup(d, k).Some? then |d| else |d| + 1
    ensures forall i :: 0 <= i < |d| ==> Put(d, k, v)[i].0 == d[i].0
    ensures forall e :: e in Put(d, k, v) ==> e == (k, v) || e in d
    ensures Lookup(d, k).None? ==> Put(d, k, v) == d + [(k, v)]
  {
    if d != [] && d[0].0 != k {
      var tail := d[1..];
      PutShape(tail, k, v);
      assert Put(d, k, v) == [d[0]] + Put(tail, k, v);
      assert d == [d[0]] + tail;
    }
  }

  /** After d[k] = v, d[k] is v and every other key keeps its value. */
  lemma {:induction false} PutLookup(d: Dict, k: string, v: Block)
    ensures Lookup(Put(d, k, v), k) == Some(v)
    ensures forall x :: x != k ==> Lookup(Put(d, k, v), x) == Lookup(d, x)
  {
    if d != [] {
      var tail := d[1..];
      if d[0].0 == k {
        assert Put(d, k, v)[1..] == tail;
      } else {
        PutLookup(tail, k, v);
        assert Put(d, k, v)[1..] == Put(tail, k, v);
      }
    }
  }

  lemma PutDistinct(d: Dict, k: string, v: Block)
    requires DistinctKeys(d)
    ensures DistinctKeys(Put(d, k, v))
  {
    PutShape(d, k, v);
    var r := Put(d, k, v);
    forall i, j | 0 <= i < j < |r| ensures r[i].0 != r[j].0 {
      if j == |d| {
        assert d[i].0 in Keys(d);
      }
    }
  }

  /** dict(pairs). */
  function FromPairs(pairs: seq<(string, Block)>): Dict {
    if pairs == [] then []
    else
      var last := pairs[|pairs| - 1];
      Put(FromPairs(pairs[..|pairs| - 1]), last.0, last.1)
  }

  /** The value of the last pair with key k. */
  function LastValue(pairs: seq<(string, Block)>, k: string): Option<Block> {
    if pairs == [] then None
    else if pairs[|pairs| - 1].0 == k then Some(pairs[|pairs| - 1].1)
    else LastValue(pairs[..|pairs| - 1], k)
  }

  /** dict(pairs) has one item per distinct name, the later pair wins, and
      every item is one of the pairs. */
  lemma FromPairsFacts(pairs: seq<(string, Block)>)
    ensures DistinctKeys(FromPairs(pairs))
    ensures forall k :: Lookup(FromPairs(pairs), k) == LastValue(pairs, k)
    ensures forall e :: e in FromPairs(pairs) ==> e in pairs
  {
    FromPairsDistinct(pairs);
    FromPairsLookup(pairs);
    FromPairsItems(pairs);
  }

  lemma {:induction false} FromPairsDistinct(pairs: seq<(string, Block)>)
    ensures DistinctKeys(FromPairs(pairs))
  {
    if pairs != [] {
      var init, last := pairs[..|pairs| - 1], pairs[|pairs| - 1];
      FromPairsDistinct(init);
      PutDistinct(FromPairs(init), last.0, last.1);
    }
  }

  lemma {:induction false} FromPairsLookup(pairs: seq<(string, Block)>)
    ensures forall k :: Lookup(FromPairs(pairs), k) == LastValue(pairs, k)
  {
    if pairs != [] {
      var init, last := pairs[..|pairs| - 1], pairs[|pairs| - 1];
      FromPairsLookup(init);
      PutLookup(FromPairs(init), last.0, last.1);
    }
  }

  lemma {:induction false} FromPairsItems(pairs: seq<(string, Block)>)
    ensures forall e :: e in FromPairs(pairs) ==> e in pairs
  {
    if pairs != [] {
      var init, last := pairs[..|pairs| - 1], pairs[|pairs| - 1];
      FromPairsItems(init);
      PutShape(FromPairs(init), last.0, last.1);
      assert pairs == init + [last];
    }
  }

  /** get_function_dict on the file's lines. */
  function GetFunctionDict(lines: seq<Line>): Dict {
    FromPairs(Named(Blocks(lines)))
  }

  /** Lines 47-57: the dict's names are distinct, each body is one block of
      extract_functions whose header carries that name, and a repeated name
      keeps the last of its blocks. */
  lemma FunctionDictFacts(lines: seq<Line>)
    ensures DistinctKeys(GetFunctionDict(lines))
    ensures forall e :: e in GetFunctionDict(lines) ==>
              e.1 in Blocks(lines) && WellFormed(e.1) && NameMatch(e.1[0]) == Some(e.0)
    ensures forall k :: Lookup(GetFunctionDict(lines), k) == LastValue(Named(Blocks(lines)), k)
  {
    var blocks := Blocks(lines);
    BlocksFacts(lines);
    NamedSound(blocks);
    FromPairsFacts(Named(blocks));
    forall e | e in GetFunctionDict(lines)
      ensures e.1 in blocks && WellFormed(e.1) && NameMatch(e.1[0]) == Some(e.0)
    {
      assert e in Named(blocks);
      HeaderNamesBlock(e.1);
    }
  }

  // ---------------------------------------------------------------------
  // compare_functions (lines 59-82)

  /** Line 68: the positions of the common prefix where the lines differ. */
  function Mismatches(a: Block, b: Block): (n: nat)
    ensures n <= |a| && n <= |b|
  {
    if a == [] || b == [] then 0
    else (if a[0] != b[0] then 1 else 0) + Mismatches(a[1..], b[1..])
  }

  function Dist(a: nat, b: nat): nat {
    if a >= b then a - b else b - a
  }

  function MaxLen(a: Block, b: Block): nat {
    if |a| >= |b| then |a| else |b|
  }

  /** Lines 68-69. */
  function DiffSize(oldBody: Block, newBody: Block): nat {
    Mismatches(oldBody, newBody) + Dist(|oldBody|, |newBody|)
  }

  /** diff_size is zero exactly for equal bodies and never exceeds the longer
      body, so every modified function has a size between 1 and that length. */
  lemma {:induction false} DiffSizeBounds(oldBody: Block, newBody: Block)
    ensures DiffSize(oldBody, newBody) == 0 <==> oldBody == newBody
    ensures DiffSize(oldBody, newBody) <= MaxLen(oldBody, newBody)
  {
    if oldBody != [] && newBody != [] {
      DiffSizeBounds(oldBody[1..], newBody[1..]);
      if oldBody[0] == newBody[0] && oldBody[1..] == newBody[1..] {
        assert oldBody == [oldBody[0]] + oldBody[1..];
        assert newBody == [newBody[0]] + newBody[1..];
      }
    }
  }

  datatype Change = Change(name: string, body: Block, diffSize: nat)

  /** Lines 64-70, the modified entries in the order of modified's items. */
  function ModifiedOf(original: Dict, modified: Dict): seq<Change> {
    if modified == [] then []
    else
      var (name, newBody) := modified[|modified| - 1];
      var previous := Lookup(original, name);
      ModifiedOf(original, modified[..|modified| - 1])
        + (if previous.Some? && previous.value != newBody then [Change(name, newBody, DiffSize(previous.value, newBody))] else [])
  }

  /** Lines 71-72. */
  function AddedOf(original: Dict, modified: Dict): seq<(string, Block)> {
    if modified == [] then []
    else
      var e := modified[|modified| - 1];
      AddedOf(original, modified[..|modified| - 1]) + (if Lookup(original, e.0).None? then [e] else [])
  }

  /** Lines 74-76. */
  function RemovedOf(original: Dict, modified: Dict): seq<(string, Block)> {
    if original == [] then []
    else
      var e := original[|original| - 1];
      RemovedOf(original[..|original| - 1], modified) + (if Lookup(modified, e.0).None? then [e] else [])
  }

  function DiffKey(c: Change): real {
    c.diffSize as real
  }

  function BodyKey(e: (string, Block)): real {
    |e.1| as real
  }

  /** Lines 78-82: the three lists, each sorted in descending order. */
  function Comparison(original: Dict, modified: Dict): (seq<Change>, seq<(string, Block)>, seq<(string, Block)>) {
    (StableSort.SortBy(ModifiedOf(original, modified), DiffKey, true),
     StableSort.SortBy(AddedOf(original, modified), BodyKey, true),
     StableSort.SortBy(RemovedOf(original, modified), BodyKey, true))
  }

  method CompareFunctions(originalFuncs: Dict, modifiedFuncs: Dict)
    returns (modified: seq<Change>, added: seq<(string, Block)>, removed: seq<(string, Block)>)
    ensures (modified, added, removed) == Comparison(originalFuncs, modifiedFuncs)
  {
    modified, added, removed := [], [], [];
    for i := 0 to |modifiedFuncs|
      invariant modified == ModifiedOf(originalFuncs, modifiedFuncs[..i])
      invariant added == AddedOf(originalFuncs, modifiedFuncs[..i])
    {
      var (name, newBody) := modifiedFuncs[i];
      assert modifiedFuncs[..i + 1][..i] == modifiedFuncs[..i] && modifiedFuncs[..i + 1][i] == (name, newBody);
      var previous := Lookup(originalFuncs, name);
      if previous.Some? {
        var oldBody := previous.value;
        if oldBody != newBody {
          var diffSize := Mismatches(oldBody, newBody);
          diffSize := diffSize + Dist(|oldBody|, |newBody|);
          modified := modified + [Change(name, newBody, diffSize)];
        }
      } else {
        added := added + [(name, newBody)];
      }
    }
    assert modifiedFuncs[..|modifiedFuncs|] == modifiedFuncs;
    for i := 0 to |originalFuncs|
      invariant removed == RemovedOf(originalFuncs[..i], modifiedFuncs)
    {
      var (name, oldBody) := originalFuncs[i];
      assert originalFuncs[..i + 1][..i] == originalFuncs[..i] && originalFuncs[..i + 1][i] == (name, oldBody);
      if Lookup(modifiedFuncs, name).None? {
        removed := removed + [(name, oldBody)];
      }
    }
    assert originalFuncs[..|originalFuncs|] == originalFuncs;
    modified := StableSort.SortBy(modified, DiffKey, true);
    added := StableSort.SortBy(added, BodyKey, true);
    removed := StableSort.SortBy(removed, BodyKey, true);
  }

  lemma {:induction false} ModifiedOfExactly(original: Dict, modified: Dict)
    ensures forall c :: c in ModifiedOf(original, modified) <==>
              && (c.name, c.body) in modified
              && Lookup(original, c.name).Some?
              && Lookup(original, c.name).value != c.body
              && c.diffSize == DiffSize(Lookup(original, c.name).value, c.body)
  {
    if modified != [] {
      var init, last := modified[..|modified| - 1], modified[|modified| - 1];
      ModifiedOfExactly(original, init);
      assert modified == init + [last];
      forall c: Change ensures (c.name, c.body) in modified <==> (c.name, c.body) in init || (c.name, c.body) == last {
      }
    }
  }

  lemma {:induction false} AddedOfExactly(original: Dict, modified: Dict)
    ensures forall e :: e in AddedOf(original, modified) <==> e in modified && e.0 !in Keys(original)
  {
    if modified != [] {
      AddedOfExactly(original, modified[..|modified| - 1]);
      assert modified == modified[..|modified| - 1] + [modified[|modified| - 1]];
    }
  }

  lemma {:induction false} RemovedOfExactly(original: Dict, modified: Dict)
    ensures forall e :: e in RemovedOf(original, modified) <==> e in original && e.0 !in Keys(modified)
  {
    if original != [] {
      RemovedOfExactly(original[..|original| - 1], modified);
      assert original == original[..|original| - 1] + [original[|original| - 1]];
    }
  }

  /** Lines 64-82: with distinct names on both sides, a function is listed
      as modified exactly when both versions have it with different bodies,
      with a diff size between 1 and the longer body's length; as added
      exactly when only the new version has it; as removed exactly when only
      the original has it. Each list is in descending order of its key and a
      stable permutation of what the loops collected. */
  lemma ComparisonFacts(original: Dict, modified: Dict)
    requires DistinctKeys(original) && DistinctKeys(modified)
    ensures forall c :: c in Comparison(original, modified).0 <==>
              && Lookup(modified, c.name) == Some(c.body)
              && Lookup(original, c.name).Some?
              && Lookup(original, c.name).value != c.body
              && c.diffSize == DiffSize(Lookup(original, c.name).value, c.body)
    ensures forall c :: c in Comparison(original, modified).0 ==>
              1 <= c.diffSize <= MaxLen(Lookup(original, c.name).value, c.body)
    ensures forall e :: e in Comparison(original, modified).1 <==>
              Lookup(modified, e.0) == Some(e.1) && Lookup(original, e.0).None?
    ensures forall e :: e in Comparison(original, modified).2 <==>
              Lookup(original, e.0) == Some(e.1) && Lookup(modified, e.0).None?
    ensures StableSort.Sorted(Comparison(original, modified).0, DiffKey, true)
    ensures StableSort.Sorted(Comparison(original, modified).1, BodyKey, true)
    ensures StableSort.Sorted(Comparison(original, modified).2, BodyKey, true)
    ensures multiset(Comparison(original, modified).0) == multiset(ModifiedOf(original, modified))
    ensures multiset(Comparison(original, modified).1) == multiset(AddedOf(original, modified))
    ensures multiset(Comparison(original, modified).2) == multiset(RemovedOf(original, modified))
    ensures forall v :: StableSort.WithKey(Comparison(original, modified).0, DiffKey, v) == StableSort.WithKey(ModifiedOf(original, modified), DiffKey, v)
    ensures forall v :: StableSort.WithKey(Comparison(original, modified).1, BodyKey, v) == StableSort.WithKey(AddedOf(original, modified), BodyKey, v)
    ensures forall v :: StableSort.WithKey(Comparison(original, modified).2, BodyKey, v) == StableSort.WithKey(RemovedOf(original, modified), BodyKey, v)
  {
    var mods, adds, rems := ModifiedOf(original, modified), AddedOf(original, modified), RemovedOf(original, modified);
    StableSort.SortByCorrect(mods, DiffKey, true);
    StableSort.SortByCorrect(adds, BodyKey, true);
    StableSort.SortByCorrect(rems, BodyKey, true);
    StableSort.SortByMembers(mods, DiffKey, true);
    StableSort.SortByMembers(adds, BodyKey, true);
    StableSort.SortByMembers(rems, BodyKey, true);
    ModifiedOfExactly(original, modified);
    AddedOfExactly(original, modified);
    RemovedOfExactly(original, modified);
    forall c: Change ensures (c.name, c.body) in modified <==> Lookup(modified, c.name) == Some(c.body) {
      LookupItem(modified, c.name, c.body);
    }
    forall e: (string, Block) ensures e in modified <==> Lookup(modified, e.0) == Some(e.1) {
      LookupItem(modified, e.0, e.1);
    }
    forall e: (string, Block) ensures e in original <==> Lookup(original, e.0) == Some(e.1) {
      LookupItem(original, e.0, e.1);
    }
    forall c | c in mods ensures 1 <= c.diffSize <= MaxLen(Lookup(original, c.name).value, c.body) {
      DiffSizeBounds(Lookup(original, c.name).value, c.body);
    }
  }

  // ---------------------------------------------------------------------
  // find_related_functions (lines 84-89)

  /** The items whose joined body contains the keyword, in dict order. */
  function Related(keyword: string, d: Dict): seq<(string, Block)> {
    if d == [] then []
    else
      var e := d[|d| - 1];
      Related(keyword, d[..|d| - 1]) + (if Contains(Concat(e.1), keyword) then [e] else [])
  }

  method FindRelatedFunctions(keyword: string, funcDict: Dict) returns (related: seq<(string, Block)>)
    ensures related == Related(keyword, funcDict)
  {
    related := [];
    for i := 0 to |funcDict|
      invariant related == Related(keyword, funcDict[..i])
    {
      var (name, body) := funcDict[i];
      assert funcDict[..i + 1][..i] == funcDict[..i] && funcDict[..i + 1][i] == (name, body);
      if Contains(Concat(body), keyword) {
        related := related + [(name, body)];
      }
    }
    assert funcDict[..|funcDict|] == funcDict;
  }

  /** The positions in d of the items Related keeps. */
  function RelatedIndices(keyword: string, d: Dict): seq<nat> {
    if d == [] then []
    else
      var e := d[|d| - 1];
      RelatedIndices(keyword, d[..|d| - 1]) + (if Contains(Concat(e.1), keyword) then [|d| - 1] else [])
  }

  /** Exactly the items whose concatenated body contains the keyword. */
  lemma {:induction false} RelatedExactly(keyword: string, d: Dict)
    ensures forall e :: e in Related(keyword, d) <==> e in d && Contains(Concat(e.1), keyword)
  {
    if d != [] {
      var init, e := d[..|d| - 1], d[|d| - 1];
      RelatedExactly(keyword, init);
      assert d == init + [e];
    }
  }

  /** The kept items are in the dict's order: the k-th is the item at a
      position that grows strictly with k. */
  lemma {:induction false} RelatedInOrder(keyword: string, d: Dict)
    ensures |RelatedIndices(keyword, d)| == |Related(keyword, d)|
    ensures forall k :: 0 <= k < |RelatedIndices(keyword, d)| ==>
              RelatedIndices(keyword, d)[k] < |d| && Related(keyword, d)[k] == d[RelatedIndices(keyword, d)[k]]
    ensures forall k, l :: 0 <= k < l < |RelatedIndices(keyword, d)| ==>
              RelatedIndices(keyword, d)[k] < RelatedIndices(keyword, d)[l]
  {
    if d != [] {
      var init := d[..|d| - 1];
      RelatedInOrder(keyword, init);
      var idx, r := RelatedIndices(keyword, init), Related(keyword, init);
      assert forall k :: 0 <= k < |idx| ==> idx[k] < |init| && r[k] == d[idx[k]];
    }
  }
}
