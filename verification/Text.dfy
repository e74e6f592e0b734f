/** The text side of RTSP messages: lines, header fields, decimal numbers. */
module Text {
  import opened Bytes

  const CRLF: bytes := [13, 10]
  const MAX_INT: nat := 0x7fff_ffff

  predicate CrlfAt(b: bytes, i: nat) {
    i + 2 <= |b| && b[i] == 13 && b[i + 1] == 10
  }

  /** A line break at `i`, or with `twice` the blank line that ends a header. */
  predicate BreakAt(b: bytes, twice: bool, i: nat) {
    CrlfAt(b, i) && (twice ==> CrlfAt(b, i + 2))
  }

  /** First break from `from` on, or |b|. */
  function Find(b: bytes, twice: bool, from: nat): (j: nat)
    requires from <= |b|
    ensures from <= j <= |b|
    ensures j < |b| ==> BreakAt(b, twice, j)
    decreases |b| - from
  {
    if from == |b| || BreakAt(b, twice, from) then from else Find(b, twice, from + 1)
  }

  lemma {:induction false} FindNoneBefore(b: bytes, twice: bool, from: nat, k: nat)
    requires from <= |b| && from <= k < Find(b, twice, from)
    ensures !BreakAt(b, twice, k)
    decreases |b| - from
  {
    if from < k {
      FindNoneBefore(b, twice, from + 1, k);
    }
  }

  lemma {:induction false} FindIs(b: bytes, twice: bool, from: nat, j: nat)
    requires from <= j <= |b|
    requires forall k :: from <= k < j ==> !BreakAt(b, twice, k)
    requires j < |b| ==> BreakAt(b, twice, j)
    ensures Find(b, twice, from) == j
    decreases j - from
  {
    if from < j {
      FindIs(b, twice, from + 1, j);
    }
  }

  /** A break found inside `b` is found at the same place when more bytes follow. */
  lemma FindStable(b: bytes, c: bytes, twice: bool)
    requires Find(b, twice, 0) < |b|
    ensures Find(b + c, twice, 0) == Find(b, twice, 0)
  {
    var j := Find(b, twice, 0);
    forall k | 0 <= k < j ensures !BreakAt(b + c, twice, k) {
      FindNoneBefore(b, twice, 0, k);
    }
    FindIs(b + c, twice, 0, j);
  }

  /** A break of `b + c` that ends inside `b` is a break of `b`. */
  lemma FindInside(b: bytes, c: bytes, twice: bool)
    requires Find(b + c, twice, 0) + (if twice then 4 else 2) <= |b|
    ensures Find(b, twice, 0) == Find(b + c, twice, 0)
  {
    var j := Find(b + c, twice, 0);
    forall k | 0 <= k < j ensures !BreakAt(b, twice, k) {
      FindNoneBefore(b + c, twice, 0, k);
    }
    FindIs(b, twice, 0, j);
  }

  predicate NoCrlf(b: bytes) {
    Find(b, false, 0) == |b|
  }

  // ------------------------------------------------------------------ lines

  function FirstLine(b: bytes): (r: bytes) {
    b[..Find(b, false, 0)]
  }

  function AfterLine(b: bytes): (r: bytes)
    requires !NoCrlf(b)
    ensures |r| < |b|
  {
    b[Find(b, false, 0) + 2..]
  }

  function Lines(header: bytes): (lines: seq<bytes>)
  {
    if header == [] then []
    else if NoCrlf(header) then [header]
    else [FirstLine(header)] + Lines(AfterLine(header))
  }

  lemma {:induction false} ShiftFind(b: bytes, twice: bool, s: nat, from: nat)
    requires s + from <= |b|
    ensures Find(b, twice, s + from) == s + Find(b[s..], twice, from)
    decreases |b| - from
  {
    assert BreakAt(b, twice, s + from) == BreakAt(b[s..], twice, from);
    if s + from < |b| {
      ShiftFind(b, twice, s, from + 1);
    }
  }

  lemma Slices<T>(b: seq<T>, s: nat, n: nat)
    requires s + n <= |b|
    ensures b[s..][..n] == b[s..s + n] && b[s..][n..] == b[s + n..]
  {
  }

  lemma LineOf(t: bytes, j: nat)
    requires j == Find(t, false, 0)
    ensures j <= |t| && FirstLine(t) == t[..j] && (NoCrlf(t) <==> j == |t|)
    ensures j < |t| ==> j + 2 <= |t| && AfterLine(t) == t[j + 2..]
  {
  }

  lemma LineParts(b: bytes, s: nat, end: nat, t: bytes, first: bytes, after: bytes)
    requires s <= end <= |b| && t == b[s..] && first == t[..end - s]
    requires end < |b| ==> end + 2 <= |b| && after == t[end - s + 2..]
    ensures first == b[s..end] && (end < |b| ==> after == b[end + 2..])
  {
    Slices(b, s, end - s);
    if end < |b| {
      Slices(b, s, end - s + 2);
    }
  }

  /** The line of `b` that starts at `s`. */
  lemma LineAt(b: bytes, s: nat, end: nat)
    requires s <= |b| && end == Find(b, false, s)
    ensures FirstLine(b[s..]) == b[s..end]
    ensures NoCrlf(b[s..]) <==> end == |b|
    ensures end < |b| ==> AfterLine(b[s..]) == b[end + 2..]
  {
    var t := b[s..];
    ShiftFind(b, false, s, 0);
    LineOf(t, end - s);
    LineParts(b, s, end, t, FirstLine(t), if end < |b| then AfterLine(t) else []);
  }

  method SplitLinesKeepEmpty(header: bytes) returns (lines: seq<bytes>)
    ensures lines == Lines(header)
  {
    lines := [];
    var start := 0;
    ghost var goal := Lines(header);
    assert header[0..] == header;
    while start < |header|
      invariant start <= |header|
      invariant lines + Lines(header[start..]) == goal
      decreases |header| - start
    {
      var end := Find(header, false, start);
      LineAt(header, start, end);
      if end == |header| {
        return lines + [header[start..]];
      }
      Assoc(lines, [header[start..end]], Lines(header[end + 2..]));
      lines := lines + [header[start..end]];
      start := end + 2;
    }
    assert header[start..] == [];
  }

  /** A line followed by CRLF is cut off whole, whatever byte it ends in. */
  lemma FindAfterLine(line: bytes, rest: bytes)
    requires NoCrlf(line)
    ensures Find(line + (CRLF + rest), false, 0) == |line|
  {
    var b := line + (CRLF + rest);
    assert b[|line|] == 13 && b[|line| + 1] == 10;
    forall k | 0 <= k < |line| ensures !BreakAt(b, false, k) {
      FindNoneBefore(line, false, 0, k);
    }
    FindIs(b, false, 0, |line|);
  }

  lemma LinesCons(line: bytes, rest: bytes)
    requires NoCrlf(line)
    ensures Lines(line + (CRLF + rest)) == [line] + Lines(rest)
  {
    var b := line + (CRLF + rest);
    FindAfterLine(line, rest);
    assert b[..|line|] == line;
    assert b[|line| + 2..] == rest;
  }

  // ---------------------------------------------------------- header fields

  function LowerByte(c: byte): (r: byte) {
    if 65 <= c <= 90 then c + 32 else c
  }

  predicate StartsWithCi(s: bytes, p: bytes) {
    |s| >= |p| && forall i :: 0 <= i < |p| ==> LowerByte(s[i]) == LowerByte(p[i])
  }

  /** The same letter in either case, or the same octet. */
  predicate SameLetter(x: byte, y: byte) {
    x == y || (65 <= x <= 90 && y == x + 32) || (65 <= y <= 90 && x == y + 32)
  }

  /** The same text but for the case of its letters. */
  predicate SameButCase(a: bytes, b: bytes) {
    |a| == |b| && forall i :: 0 <= i < |a| ==> SameLetter(a[i], b[i])
  }

  lemma LowerMeaning(x: byte, y: byte)
    ensures LowerByte(x) == LowerByte(y) <==> SameLetter(x, y)
  {
  }

  /** Prefixes are compared by letters, whatever their case. */
  lemma StartsWithCiMeaning(s: bytes, p: bytes)
    ensures StartsWithCi(s, p) <==> |p| <= |s| && SameButCase(s[..|p|], p)
  {
    if |p| <= |s| {
      forall i | 0 <= i < |p| ensures LowerByte(s[i]) == LowerByte(p[i]) <==> SameLetter(s[..|p|][i], p[i]) {
        LowerMeaning(s[i], p[i]);
      }
    }
  }

  predicate IsBlank(c: byte) {
    c == 32 || c == 9 || c == 13 || c == 10
  }

  function TrimLeft(s: bytes): (r: bytes)
    ensures |r| <= |s| && (r != [] ==> !IsBlank(r[0]))
  {
    if s != [] && IsBlank(s[0]) then TrimLeft(s[1..]) else s
  }

  lemma {:induction false} TrimLeftIsSuffix(s: bytes)
    ensures TrimLeft(s) == s[|s| - |TrimLeft(s)|..]
  {
    if s != [] && IsBlank(s[0]) {
      TrimLeftIsSuffix(s[1..]);
    }
  }

  function TrimRight(s: bytes): (r: bytes)
    ensures r <= s
    ensures r != [] ==> !IsBlank(r[|r| - 1])
  {
    if s != [] && IsBlank(s[|s| - 1]) then TrimRight(s[..|s| - 1]) else s
  }

  function Trim(s: bytes): (r: bytes) {
    TrimRight(TrimLeft(s))
  }

  predicate AllBlank(s: bytes) {
    forall i :: 0 <= i < |s| ==> s[i] in {32, 9, 13, 10}
  }

  lemma {:induction false} TrimLeftCutsBlanks(s: bytes)
    ensures AllBlank(s[..|s| - |TrimLeft(s)|])
  {
    if s != [] && IsBlank(s[0]) {
      TrimLeftCutsBlanks(s[1..]);
      assert s[..|s| - |TrimLeft(s)|] == [s[0]] + s[1..][..|s| - 1 - |TrimLeft(s)|];
    }
  }

  lemma {:induction false} TrimRightCutsBlanks(s: bytes)
    ensures AllBlank(s[|TrimRight(s)|..])
  {
    if s != [] && IsBlank(s[|s| - 1]) {
      var front := s[..|s| - 1];
      TrimRightCutsBlanks(front);
      assert s[|TrimRight(s)|..] == front[|TrimRight(s)|..] + [s[|s| - 1]];
    }
  }

  /** What is trimmed off is blank, and what is left has no blank at either end. */
  lemma TrimMeaning(s: bytes) returns (left: bytes, right: bytes)
    ensures s == left + Trim(s) + right && AllBlank(left) && AllBlank(right)
    ensures Trim(s) == [] || !(Trim(s)[0] in {32, 9, 13, 10} || Trim(s)[|Trim(s)| - 1] in {32, 9, 13, 10})
  {
    var inner := TrimLeft(s);
    left, right := s[..|s| - |inner|], inner[|TrimRight(inner)|..];
    TrimLeftIsSuffix(s);
    TrimLeftCutsBlanks(s);
    TrimRightCutsBlanks(inner);
    ThreeParts(s, left, inner, TrimRight(inner), right);
    BareInside(inner);
  }

  lemma ThreeParts(s: bytes, left: bytes, inner: bytes, core: bytes, right: bytes)
    requires |inner| <= |s| && inner == s[|s| - |inner|..] && left == s[..|s| - |inner|]
    requires core <= inner && right == inner[|core|..]
    ensures s == left + core + right
  {
  }

  lemma BareInside(inner: bytes)
    requires inner != [] ==> !IsBlank(inner[0])
    ensures var r := TrimRight(inner); r == [] || (!IsBlank(r[0]) && !IsBlank(r[|r| - 1]))
  {
  }

  lemma TrimOfBare(s: bytes)
    requires s != [] && !IsBlank(s[0]) && !IsBlank(s[|s| - 1])
    ensures Trim([32] + s) == s
  {
    assert ([32] + s)[1..] == s;
    assert TrimLeft(s) == s;
    assert TrimLeft([32] + s) == s;
  }

  function HeaderField(header: bytes, name: bytes): (value: bytes)
  {
    if NoCrlf(header) then []
    else if StartsWithCi(FirstLine(header), name + [58]) then Trim(FirstLine(header)[|name| + 1..])
    else HeaderField(AfterLine(header), name)
  }

  lemma NoFieldAt(header: bytes, name: bytes, start: nat)
    requires start <= |header| && Find(header, false, start) == |header|
    ensures HeaderField(header[start..], name) == []
  {
    LineAt(header, start, |header|);
  }

  lemma FieldAt(header: bytes, name: bytes, start: nat, end: nat, line: bytes)
    requires start <= |header| && end == Find(header, false, start) < |header| && line == header[start..end]
    requires StartsWithCi(line, name + [58])
    ensures HeaderField(header[start..], name) == Trim(line[|name| + 1..])
  {
    LineAt(header, start, end);
  }

  lemma FieldBehind(header: bytes, name: bytes, start: nat, end: nat, line: bytes)
    requires start <= |header| && end == Find(header, false, start) < |header| && line == header[start..end]
    requires !StartsWithCi(line, name + [58])
    ensures end + 2 <= |header| && HeaderField(header[start..], name) == HeaderField(header[end + 2..], name)
  {
    LineAt(header, start, end);
  }

  method HeaderValue(header: bytes, name: bytes) returns (value: bytes)
    ensures value == HeaderField(header, name)
  {
    var start := 0;
    ghost var goal := HeaderField(header, name);
    assert header[0..] == header;
    while start < |header|
      invariant start <= |header|
      invariant HeaderField(header[start..], name) == goal
      decreases |header| - start
    {
      var end := Find(header, false, start);
      if end == |header| {
        NoFieldAt(header, name, start);
        return [];
      }
      var line := header[start..end];
      if StartsWithCi(line, name + [58]) {
        FieldAt(header, name, start, end, line);
        return Trim(line[|name| + 1..]);
      }
      FieldBehind(header, name, start, end, line);
      start := end + 2;
    }
    assert header[start..] == [];
    return [];
  }

  lemma SubrangeNoCrlf(s: bytes, i: nat, j: nat)
    requires NoCrlf(s) && i <= j <= |s|
    ensures NoCrlf(s[i..j])
  {
    forall k | 0 <= k < j - i ensures !BreakAt(s[i..j], false, k) {
      FindNoneBefore(s, false, 0, i + k);
    }
    FindIs(s[i..j], false, 0, j - i);
  }

  lemma TrimNoCrlf(s: bytes)
    requires NoCrlf(s)
    ensures NoCrlf(Trim(s))
  {
    var left := TrimLeft(s);
    var k := |s| - |left|;
    TrimLeftIsSuffix(s);
    SubrangeNoCrlf(s, k, |s|);
    assert s[k..|s|] == left;
    var r := TrimRight(left);
    SubrangeNoCrlf(left, 0, |r|);
    assert left[0..|r|] == r;
  }

  lemma FirstLineNoCrlf(header: bytes)
    ensures NoCrlf(FirstLine(header))
  {
    var end := Find(header, false, 0);
    forall k | 0 <= k < end ensures !BreakAt(FirstLine(header), false, k) {
      FindNoneBefore(header, false, 0, k);
    }
    FindIs(FirstLine(header), false, 0, end);
  }

  /** A header value never holds a line break, so it can be echoed in a header line of its own. */
  lemma {:induction false} HeaderFieldIsOneLine(header: bytes, name: bytes)
    ensures NoCrlf(HeaderField(header, name))
    decreases |header|
  {
    if !NoCrlf(header) {
      var line := FirstLine(header);
      if StartsWithCi(line, name + [58]) {
        FirstLineNoCrlf(header);
        SubrangeNoCrlf(line, |name| + 1, |line|);
        assert line[|name| + 1..|line|] == line[|name| + 1..];
        TrimNoCrlf(line[|name| + 1..]);
      } else {
        HeaderFieldIsOneLine(AfterLine(header), name);
      }
    }
  }

  // --------------------------------------------------------------- decimals

  predicate IsDigit(c: byte) {
    48 <= c <= 57
  }

  predicate AllDigits(v: bytes) {
    forall i :: 0 <= i < |v| ==> IsDigit(v[i])
  }

  function DecimalValue(v: bytes): (n: nat)
    requires AllDigits(v)
  {
    if v == [] then 0 else DecimalValue(v[..|v| - 1]) as int * 10 + (v[|v| - 1] - 48)
  }

  function Decimal(n: nat): (v: bytes)
    ensures v != [] && AllDigits(v)
  {
    if n < 10 then [48 + n] else Decimal(n / 10) + [48 + n % 10]
  }

  lemma {:induction false} DecimalRoundTrip(n: nat)
    ensures DecimalValue(Decimal(n)) == n
  {
    if n >= 10 {
      DecimalRoundTrip(n / 10);
      assert Decimal(n)[..|Decimal(n)| - 1] == Decimal(n / 10);
    } else {
      assert Decimal(n)[..0] == [];
    }
  }

  /** The value std::stoi gives, or -1 for what the caller refuses. */
  function ParseLength(v: bytes): (n: int)
    ensures -1 <= n <= MAX_INT
  {
    if v == [] || !AllDigits(v) || DecimalValue(v) > MAX_INT then -1 else DecimalValue(v)
  }

  /** A length is read as printed, up to the largest 32-bit int; a larger one or no digits at all is refused. */
  lemma LengthLimit(n: nat)
    ensures ParseLength(Decimal(n)) == if n <= 2147483647 then n else -1
    ensures ParseLength([]) == -1
  {
    DecimalRoundTrip(n);
  }

  function LengthField(lines: seq<bytes>): (n: int)
    ensures -1 <= n <= MAX_INT
  {
    if lines == [] then 0
    else if StartsWithCi(lines[0], CONTENT_LENGTH) then ParseLength(Trim(lines[0][|CONTENT_LENGTH|..]))
    else LengthField(lines[1..])
  }

  const CONTENT_LENGTH: bytes := Ascii("Content-Length:")

  function ContentLength(header: bytes): (n: int)
    ensures -1 <= n <= MAX_INT
  {
    LengthField(Lines(header))
  }

  method ContentLengthFromHeader(header: bytes) returns (n: int)
    ensures n == ContentLength(header)
  {
    var lines := SplitLinesKeepEmpty(header);
    for i := 0 to |lines|
      invariant LengthField(lines[i..]) == LengthField(lines)
    {
      var line := lines[i];
      assert lines[i..][1..] == lines[i + 1..];
      if !StartsWithCi(line, CONTENT_LENGTH) {
        continue;
      }
      return ParseLength(Trim(line[|CONTENT_LENGTH|..]));
    }
    return 0;
  }
}
