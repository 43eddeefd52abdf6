/** String helpers shared by the text utilities: Python's whitespace test and
    strip, decimal digits, zero-padded integer formatting, int() parsing,
    split/join on a separator, substring search, ASCII case mapping and the
    Windows form of os.path.splitext. Strings are seq<char>. */
module Text {

  datatype Option<+T> = None | Some(value: T)

  /** Python's str.isspace(): the characters str.strip() removes by default. */
  predicate IsSpace(c: char) {
    || 9 <= c as int <= 13
    || 28 <= c as int <= 32
    || c as int == 0x85 || c as int == 0xA0 || c as int == 0x1680
    || 0x2000 <= c as int <= 0x200A
    || c as int == 0x2028 || c as int == 0x2029 || c as int == 0x202F
    || c as int == 0x205F || c as int == 0x3000
  }

  predicate StartsWith(s: string, prefix: string) {
    |prefix| <= |s| && s[..|prefix|] == prefix
  }

  predicate EndsWith(s: string, suffix: string) {
    |suffix| <= |s| && s[|s| - |suffix|..] == suffix
  }

  /** `sub in s` for Python strings (the empty string is in every string). */
  predicate Contains(s: string, sub: string) {
    exists i | 0 <= i <= |s| - |sub| :: OccursAt(s, sub, i)
  }

  predicate OccursAt(s: string, sub: string, i: int) {
    0 <= i <= |s| - |sub| && s[i..i + |sub|] == sub
  }

  // ---------------------------------------------------------------------
  // strip

  /** Drops the leading characters satisfying `drop`. */
  function LStripBy(s: string, drop: char -> bool): string {
    if s != [] && drop(s[0]) then LStripBy(s[1..], drop) else s
  }

  /** Drops the trailing characters satisfying `drop`. */
  function RStripBy(s: string, drop: char -> bool): string {
    if s != [] && drop(s[|s| - 1]) then RStripBy(s[..|s| - 1], drop) else s
  }

  /** What lstrip leaves is a suffix that starts with a kept character, and
      everything it removed was dropped. */
  lemma {:induction false} LStripByFacts(s: string, drop: char -> bool)
    ensures |LStripBy(s, drop)| <= |s| && LStripBy(s, drop) == s[|s| - |LStripBy(s, drop)|..]
    ensures LStripBy(s, drop) != [] ==> !drop(LStripBy(s, drop)[0])
    ensures forall i :: 0 <= i < |s| - |LStripBy(s, drop)| ==> drop(s[i])
  {
    if s != [] && drop(s[0]) {
      var t := s[1..];
      LStripByFacts(t, drop);
      var r := LStripBy(t, drop);
      assert LStripBy(s, drop) == r;
      assert t[|t| - |r|..] == s[|s| - |r|..];
      forall i | 0 <= i < |s| - |r|
        ensures drop(s[i])
      {
        if i > 0 {
          assert s[i] == t[i - 1];
        }
      }
    }
  }

  /** What rstrip leaves is a prefix that ends with a kept character, and
      everything it removed was dropped. */
  lemma {:induction false} RStripByFacts(s: string, drop: char -> bool)
    ensures |RStripBy(s, drop)| <= |s| && RStripBy(s, drop) == s[..|RStripBy(s, drop)|]
    ensures RStripBy(s, drop) != [] ==> !drop(RStripBy(s, drop)[|RStripBy(s, drop)| - 1])
    ensures forall i :: |RStripBy(s, drop)| <= i < |s| ==> drop(s[i])
  {
    if s != [] && drop(s[|s| - 1]) {
      RStripByFacts(s[..|s| - 1], drop);
    }
  }

  function StripBy(s: string, drop: char -> bool): string {
    RStripBy(LStripBy(s, drop), drop)
  }

  /** Python's str.strip() with no argument. */
  function Strip(s: string): string {
    StripBy(s, IsSpace)
  }

  /** A string that neither begins nor ends with a dropped character is its own strip. */
  lemma StripByNoop(s: string, drop: char -> bool)
    requires s != [] ==> !drop(s[0]) && !drop(s[|s| - 1])
    ensures StripBy(s, drop) == s
  {
  }

  // ---------------------------------------------------------------------
  // decimal digits

  predicate IsDigit(c: char) {
    '0' <= c <= '9'
  }

  predicate AllDigits(s: string) {
    forall i :: 0 <= i < |s| ==> IsDigit(s[i])
  }

  function DigitChar(d: nat): (c: char)
    requires d < 10
    ensures IsDigit(c)
  {
    ('0' as int + d) as char
  }

  function DigitValue(c: char): (d: nat)
    requires IsDigit(c)
    ensures d < 10 && DigitChar(d) == c
  {
    c as int - '0' as int
  }

  /** The value of a string of decimal digits, most significant first. */
  function DigitsValue(s: string): nat
    requires AllDigits(s)
  {
    if s == [] then 0 else DigitsValue(s[..|s| - 1]) * 10 + DigitValue(s[|s| - 1])
  }

  /** The shortest decimal numeral of n: "0" for zero, otherwise no leading zero. */
  function NatToDigits(n: nat): (s: string)
    ensures 1 <= |s| && AllDigits(s)
    ensures |s| > 1 ==> s[0] != '0'
    ensures DigitsValue(s) == n
  {
    if n < 10 then [DigitChar(n)]
    else
      var prefix := NatToDigits(n / 10);
      var s := prefix + [DigitChar(n % 10)];
      assert s[..|s| - 1] == prefix;
      s
  }

  function Zeros(k: nat): (s: string)
    ensures |s| == k && AllDigits(s)
    ensures forall i :: 0 <= i < k ==> s[i] == '0'
  {
    seq(k, _ => '0')
  }

  /** Leading zeros do not change the value of a numeral. */
  lemma {:induction false} LeadingZerosValue(k: nat, s: string)
    requires AllDigits(s)
    ensures AllDigits(Zeros(k) + s) && DigitsValue(Zeros(k) + s) == DigitsValue(s)
  {
    var t := Zeros(k) + s;
    if s == [] {
      ZerosValue(k);
      assert t == Zeros(k);
    } else {
      assert t[..|t| - 1] == Zeros(k) + s[..|s| - 1];
      LeadingZerosValue(k, s[..|s| - 1]);
    }
  }

  lemma {:induction false} ZerosValue(k: nat)
    ensures DigitsValue(Zeros(k)) == 0
  {
    if k > 0 {
      assert Zeros(k)[..k - 1] == Zeros(k - 1);
      ZerosValue(k - 1);
    }
  }

  /** Python's f"{n:0<width>}" for n >= 0: the numeral, left-padded with zeros
      to at least `width` characters. */
  function ZeroPad(n: nat, width: nat): (s: string)
    ensures AllDigits(s) && DigitsValue(s) == n
    ensures |s| == if |NatToDigits(n)| < width then width else |NatToDigits(n)|
    ensures n < 10 && width == 2 ==> s == ['0', DigitChar(n)]
  {
    var digits := NatToDigits(n);
    var pad := if |digits| < width then width - |digits| else 0;
    LeadingZerosValue(pad, digits);
    Zeros(pad) + digits
  }

  /** Python's str(i) for an int. */
  function IntToString(i: int): (s: string)
    ensures 1 <= |s|
    ensures i >= 0 ==> AllDigits(s) && DigitsValue(s) == i
    ensures i < 0 ==> s[0] == '-' && AllDigits(s[1..]) && DigitsValue(s[1..]) == -i
  {
    if i < 0 then "-" + NatToDigits(-i) else NatToDigits(i)
  }

  /** Python's f"{i:0<width>}": zero padding goes after the sign, and the sign
      counts towards the width. */
  function FormatInt(i: int, width: nat): (s: string)
    ensures i >= 0 ==> AllDigits(s) && DigitsValue(s) == i && width <= |s|
    ensures i < 0 ==> |s| >= 2 && s[0] == '-' && AllDigits(s[1..]) && DigitsValue(s[1..]) == -i
  {
    if i < 0 then "-" + ZeroPad(-i, if width > 0 then width - 1 else 0) else ZeroPad(i, width)
  }

  // ---------------------------------------------------------------------
  // Python int() on a str

  /** The digit part accepted by int(): digits, with single underscores allowed
      between two digits. */
  predicate IsDigitRun(s: string) {
    && s != []
    && IsDigit(s[0]) && IsDigit(s[|s| - 1])
    && DigitsOrUnderscores(s)
    && (forall i, j :: 0 <= i < |s| && 0 <= j < |s| && j == i + 1 ==> s[i] != '_' || s[j] != '_')
  }

  predicate DigitsOrUnderscores(s: string) {
    forall i :: 0 <= i < |s| ==> IsDigit(s[i]) || s[i] == '_'
  }

  /** The number a run of digits and underscores denotes, the underscores
      skipped. */
  function RunValue(s: string): nat
    requires DigitsOrUnderscores(s)
  {
    if s == [] then 0
    else if s[|s| - 1] == '_' then RunValue(s[..|s| - 1])
    else RunValue(s[..|s| - 1]) * 10 + DigitValue(s[|s| - 1])
  }

  /** Without underscores the run's value is the plain decimal value. */
  lemma {:induction false} RunValueOfDigits(s: string)
    requires AllDigits(s)
    ensures RunValue(s) == DigitsValue(s)
  {
    if s != [] {
      RunValueOfDigits(s[..|s| - 1]);
    }
  }

  /** Python's int(s) in base 10: surrounding whitespace, an optional sign and a
      digit run; None where int() raises ValueError. */
  function ParseInt(s: string): Option<int> {
    ParseSigned(Strip(s))
  }

  /** An optional leading sign, then the digit run. */
  function ParseSigned(t: string): Option<int> {
    if t != [] && t[0] == '-' then
      (match ParseDigitRun(t[1..]) case Some(v) => Some(-v) case None => None)
    else if t != [] && t[0] == '+' then ParseDigitRun(t[1..])
    else ParseDigitRun(t)
  }

  function ParseDigitRun(b: string): Option<int> {
    if !IsDigitRun(b) then None else Some(RunValue(b))
  }

  /** int() reads a plain string of decimal digits as its value. */
  lemma ParseDigits(s: string)
    requires AllDigits(s) && s != []
    ensures ParseInt(s) == Some(DigitsValue(s))
  {
    StripByNoop(s, IsSpace);
    assert IsDigitRun(s);
    RunValueOfDigits(s);
  }

  /** int(str(i)) == i: str() of an int reads back as the same int. */
  lemma IntToStringRoundTrip(i: int)
    ensures ParseInt(IntToString(i)) == Some(i)
  {
    var s := IntToString(i);
    StripByNoop(s, IsSpace);
    if i < 0 {
      var digits := s[1..];
      assert IsDigitRun(digits);
      RunValueOfDigits(digits);
    } else {
      assert IsDigitRun(s);
      RunValueOfDigits(s);
    }
  }

  // ---------------------------------------------------------------------
  // split and join

  /** Python's sep.join(parts). */
  function Join(parts: seq<string>, sep: string): string {
    if parts == [] then []
    else if |parts| == 1 then parts[0]
    else parts[0] + sep + Join(parts[1..], sep)
  }

  /** Appending one more part adds the separator and the part at the end. */
  lemma {:induction false} JoinSnoc(parts: seq<string>, x: string, sep: string)
    requires parts != []
    ensures Join(parts + [x], sep) == Join(parts, sep) + sep + x
  {
    if |parts| > 1 {
      JoinSnoc(parts[1..], x, sep);
      assert (parts + [x])[1..] == parts[1..] + [x];
    }
  }

  /** Concatenation of a list of strings, as "".join(parts). */
  function Concat(parts: seq<string>): (s: string)
    ensures |parts| == 0 ==> s == []
  {
    if parts == [] then [] else parts[0] + Concat(parts[1..])
  }

  /** Python's s.split(c) for a one-character separator: the pieces between
      separators, never an empty list. */
  function Split(s: string, c: char): (parts: seq<string>)
    ensures 1 <= |parts|
  {
    if s == [] then [[]]
    else if s[0] == c then [[]] + Split(s[1..], c)
    else
      var rest := Split(s[1..], c);
      [[s[0]] + rest[0]] + rest[1..]
  }

  /** Joining the pieces back with c gives s, and no piece holds c. */
  lemma {:induction false} SplitJoin(s: string, c: char)
    ensures Join(Split(s, c), [c]) == s
    ensures forall k :: 0 <= k < |Split(s, c)| ==> c !in Split(s, c)[k]
  {
    if s != [] {
      SplitJoin(s[1..], c);
      var rest := Split(s[1..], c);
      if s[0] == c {
        assert [c] + Join(rest, [c]) == s;
      } else {
        var parts := [[s[0]] + rest[0]] + rest[1..];
        assert parts[1..] == rest[1..];
      }
    }
  }

  /** A string without the separator splits into itself alone. */
  lemma {:induction false} SplitNoSeparator(s: string, c: char)
    requires c !in s
    ensures Split(s, c) == [s]
  {
    if s != [] {
      SplitNoSeparator(s[1..], c);
      assert [s[0]] + s[1..] == s;
    }
  }

  /** Splitting "a:b:c" where no piece holds ':' gives the three pieces back. */
  lemma {:induction false} SplitThree(a: string, b: string, d: string, c: char)
    requires c !in a && c !in b && c !in d
    ensures Split(a + [c] + b + [c] + d, c) == [a, b, d]
  {
    SplitPrefix(a, b + [c] + d, c);
    SplitPrefix(b, d, c);
    SplitNoSeparator(d, c);
    assert a + [c] + b + [c] + d == a + [c] + (b + [c] + d);
  }

  lemma {:induction false} SplitPrefix(a: string, rest: string, c: char)
    requires c !in a
    ensures Split(a + [c] + rest, c) == [a] + Split(rest, c)
  {
    if a == [] {
      assert a + [c] + rest == [c] + rest;
      assert ([c] + rest)[1..] == rest;
    } else {
      var s := a + [c] + rest;
      assert s[0] == a[0] && s[1..] == a[1..] + [c] + rest;
      SplitPrefix(a[1..], rest, c);
      assert [a[0]] + a[1..] == a;
    }
  }

  // ---------------------------------------------------------------------
  // ASCII case mapping

  function UpperChar(c: char): char {
    if 'a' <= c <= 'z' then (c as int - 32) as char else c
  }

  function LowerChar(c: char): char {
    if 'A' <= c <= 'Z' then (c as int + 32) as char else c
  }

  /** str.upper() on ASCII letters. */
  function Upper(s: string): (r: string)
    ensures |r| == |s| && forall i :: 0 <= i < |s| ==> r[i] == UpperChar(s[i])
  {
    seq(|s|, i requires 0 <= i < |s| => UpperChar(s[i]))
  }

  /** str.lower() on ASCII letters. */
  function Lower(s: string): (r: string)
    ensures |r| == |s| && forall i :: 0 <= i < |s| ==> r[i] == LowerChar(s[i])
  {
    seq(|s|, i requires 0 <= i < |s| => LowerChar(s[i]))
  }

  /** upper() leaves no lower-case letter and lower() no upper-case one;
      each is idempotent, and either one after the other equals the second
      one alone, so case is the only thing they change. */
  lemma CaseMappingFacts(s: string)
    ensures forall i :: 0 <= i < |s| ==> !('a' <= Upper(s)[i] <= 'z') && !('A' <= Lower(s)[i] <= 'Z')
    ensures Upper(Upper(s)) == Upper(s) && Lower(Lower(s)) == Lower(s)
    ensures Lower(Upper(s)) == Lower(s) && Upper(Lower(s)) == Upper(s)
  {
  }

  // ---------------------------------------------------------------------
  // os.path.splitext (Windows rules: both '\' and '/' separate directories)

  predicate IsPathSep(c: char) {
    c == '\\' || c == '/'
  }

  predicate IsDot(c: char) {
    c == '.'
  }

  /** Index of the last character satisfying p, or -1 (str.rfind). */
  function LastIndex(s: string, p: char -> bool): (r: int)
    ensures -1 <= r < |s|
    ensures r >= 0 ==> p(s[r])
    ensures forall k :: r < k < |s| ==> !p(s[k])
  {
    if s == [] then -1
    else if p(s[|s| - 1]) then |s| - 1
    else LastIndex(s[..|s| - 1], p)
  }

  /** The extension starts at the last dot after the last separator, provided
      some character between that separator and the dot is not a dot (leading
      dots of a file name do not start an extension). */
  predicate HasExt(p: string) {
    var sep := LastIndex(p, IsPathSep);
    var dot := LastIndex(p, IsDot);
    dot > sep && exists k | sep < k < dot :: p[k] != '.'
  }

  /** os.path.splitext(p) as (root, ext). */
  function SplitExt(p: string): (r: (string, string))
    ensures r.0 + r.1 == p
    ensures r.1 == [] || (r.1[0] == '.' && forall k :: 1 <= k < |r.1| ==> !IsDot(r.1[k]) && !IsPathSep(r.1[k]))
    ensures r.1 != [] <==> HasExt(p)
  {
    if HasExt(p) then
      var dot := LastIndex(p, IsDot);
      (p[..dot], p[dot..])
    else (p, [])
  }

  /** rfind over a concatenation: the last match in b, else the last in a. */
  lemma {:induction false} LastIndexConcat(a: string, b: string, p: char -> bool)
    ensures LastIndex(a + b, p) == if LastIndex(b, p) >= 0 then |a| + LastIndex(b, p) else LastIndex(a, p)
  {
    if b != [] {
      assert (a + b)[..|a + b| - 1] == a + b[..|b| - 1];
      LastIndexConcat(a, b[..|b| - 1], p);
    } else {
      assert a + b == a;
    }
  }

  lemma LastIndexNone(s: string, p: char -> bool)
    requires forall k :: 0 <= k < |s| ==> !p(s[k])
    ensures LastIndex(s, p) == -1
  {
  }

  /** Appending a suffix without dots or separators to the root keeps the
      extension: splitext(root + suffix + ext) == (root + suffix, ext). */
  lemma SplitExtInsert(p: string, suffix: string)
    requires forall k :: 0 <= k < |suffix| ==> !IsDot(suffix[k]) && !IsPathSep(suffix[k])
    ensures SplitExt(SplitExt(p).0 + suffix + SplitExt(p).1) == (SplitExt(p).0 + suffix, SplitExt(p).1)
  {
    LastIndexNone(suffix, IsDot);
    LastIndexNone(suffix, IsPathSep);
    if HasExt(p) {
      SplitExtInsertWithExt(p, suffix);
    } else {
      SplitExtAppendNoExt(p, suffix);
      assert SplitExt(p) == (p, []);
      assert p + suffix + [] == p + suffix;
    }
  }

  lemma SplitExtInsertWithExt(p: string, suffix: string)
    requires HasExt(p)
    requires LastIndex(suffix, IsDot) == -1 && LastIndex(suffix, IsPathSep) == -1
    ensures SplitExt(SplitExt(p).0 + suffix + SplitExt(p).1) == (SplitExt(p).0 + suffix, SplitExt(p).1)
  {
    var (root, ext) := SplitExt(p);
    var q := root + suffix + ext;
    LastIndexConcat(root, suffix, IsDot);
    LastIndexConcat(root, suffix, IsPathSep);
    LastIndexConcat(root + suffix, ext, IsDot);
    LastIndexConcat(root + suffix, ext, IsPathSep);
    LastIndexConcat(root, ext, IsDot);
    LastIndexConcat(root, ext, IsPathSep);
    var sepP, dotP := LastIndex(p, IsPathSep), LastIndex(p, IsDot);
    var sepQ, dotQ := LastIndex(q, IsPathSep), LastIndex(q, IsDot);
    LastIndexNone(ext, IsPathSep);
    assert LastIndex(ext, IsDot) == 0;
    assert dotQ == |root| + |suffix| && dotP == |root|;
    assert sepQ == sepP;
    var w :| sepP < w < dotP && p[w] != '.';
    assert q[w] == p[w];
    assert HasExt(q);
    assert q[..dotQ] == root + suffix;
    assert q[dotQ..] == ext;
  }

  /** Replacing the extension of a path that has one: splitext(root + e)
      == (root, e) for an extension e made of a dot and no further dot or
      separator. */
  lemma SplitExtReplace(p: string, e: string)
    requires HasExt(p)
    requires IsExt(e)
    ensures SplitExt(SplitExt(p).0 + e) == (SplitExt(p).0, e)
  {
    RootOfExt(p);
    SplitAtExt(SplitExt(p).0, e);
  }

  /** A dot followed by no dot and no separator. */
  predicate IsExt(e: string) {
    |e| >= 1 && e[0] == '.' && forall k :: 1 <= k < |e| ==> !IsDot(e[k]) && !IsPathSep(e[k])
  }

  /** The file name at the end of root holds a character that is not a dot. */
  predicate HasStem(root: string) {
    exists w :: LastIndex(root, IsPathSep) < w < |root| && root[w] != '.'
  }

  /** The root of a path with an extension still has a stem. */
  lemma RootOfExt(p: string)
    requires HasExt(p)
    ensures HasStem(SplitExt(p).0)
  {
    var (root, ext) := SplitExt(p);
    LastIndexConcat(root, ext, IsPathSep);
    LastIndexNone(ext, IsPathSep);
    var sepP, dotP := LastIndex(p, IsPathSep), LastIndex(p, IsDot);
    assert dotP == |root|;
    var w :| sepP < w < dotP && p[w] != '.';
    assert root[w] == p[w];
  }

  /** An extension appended to a root with a stem is split off again. */
  lemma SplitAtExt(root: string, e: string)
    requires IsExt(e) && HasStem(root)
    ensures SplitExt(root + e) == (root, e)
  {
    var q := root + e;
    LastIndexConcat(root, e, IsDot);
    LastIndexConcat(root, e, IsPathSep);
    LastIndexNone(e, IsPathSep);
    assert LastIndex(e, IsDot) == 0;
    assert LastIndex(q, IsDot) == |root|;
    var w :| LastIndex(root, IsPathSep) < w < |root| && root[w] != '.';
    assert q[w] == root[w];
    assert HasExt(q);
    assert q[..|root|] == root && q[|root|..] == e;
  }

  lemma SplitExtAppendNoExt(p: string, suffix: string)
    requires !HasExt(p)
    requires LastIndex(suffix, IsDot) == -1 && LastIndex(suffix, IsPathSep) == -1
    ensures !HasExt(p + suffix)
  {
    var q := p + suffix;
    LastIndexConcat(p, suffix, IsDot);
    LastIndexConcat(p, suffix, IsPathSep);
    assert forall w :: 0 <= w < |p| ==> q[w] == p[w];
  }
}
