/**
 Cutting an H.26x access unit into NAL units: Annex-B start codes when the unit
 holds one, four-byte length prefixes otherwise.
 */
module AccessUnit {
  import opened Bytes

  /** Length of the start code at `pos`: 3, 4, or 0 when there is none. */
  function StartCodeSize(d: bytes, pos: nat): (n: nat)
    ensures n == 0 || ((n == 3 || n == 4) && pos + n <= |d|)
  {
    if pos + 3 <= |d| && d[pos] == 0 && d[pos + 1] == 0 && d[pos + 2] == 1 then 3
    else if pos + 4 <= |d| && d[pos] == 0 && d[pos + 1] == 0 && d[pos + 2] == 0 && d[pos + 3] == 1 then 4
    else 0
  }

  /** First position from `from` on that holds a start code, or |d|. */
  function NextStart(d: bytes, from: nat): (j: nat)
    requires from <= |d|
    ensures from <= j <= |d|
    ensures j < |d| ==> StartCodeSize(d, j) != 0
    decreases |d| - from
  {
    if from == |d| || StartCodeSize(d, from) != 0 then from else NextStart(d, from + 1)
  }

  predicate StartFree(d: bytes) {
    NextStart(d, 0) == |d|
  }

  /** The bytes behind the first start code. */
  function AfterCode(d: bytes): (r: bytes)
    requires !StartFree(d)
    ensures |r| < |d|
  {
    var s := NextStart(d, 0);
    d[s + StartCodeSize(d, s)..]
  }

  /** A NAL is kept unless it is empty. */
  function Piece(nal: bytes): (nals: seq<bytes>) {
    if nal == [] then [] else [nal]
  }

  /** The NAL units of `d`, whose first byte follows a start code. */
  function Cut(d: bytes): (nals: seq<bytes>)
  {
    Piece(d[..NextStart(d, 0)]) + if StartFree(d) then [] else Cut(AfterCode(d))
  }

  /** The NAL units of `d`; bytes before its first start code belong to none. */
  function AnnexB(d: bytes): (nals: seq<bytes>)
  {
    if StartFree(d) then [] else Cut(AfterCode(d))
  }

  /** The length-prefix loop from `d[0]`: the NALs taken and the bytes left over, or None when a length is refused. */
  function LengthRun(d: bytes): (r: Option<(seq<bytes>, bytes)>)
  {
    if |d| < 4 then Some(([], d))
    else
      var length := ReadU32(d[..4]);
      if length == 0 || length > |d| - 4 then None
      else
        match LengthRun(d[4 + length..])
        case None => None
        case Some((nals, rest)) => Some(([d[4..4 + length]] + nals, rest))
  }

  function SplitLengths(d: bytes): (nals: seq<bytes>)
  {
    match LengthRun(d)
    case None => [d]
    case Some((nals, rest)) => if nals != [] && rest == [] then nals else nals + Piece(d)
  }

  function Split(d: bytes): (nals: seq<bytes>)
  {
    if StartFree(d) then SplitLengths(d) else AnnexB(d)
  }

  // ------------------------------------------------------- where codes start

  lemma {:induction false} NoneBefore(d: bytes, from: nat, k: nat)
    requires from <= |d| && from <= k < NextStart(d, from)
    ensures StartCodeSize(d, k) == 0
    decreases |d| - from
  {
    if from < k {
      NoneBefore(d, from + 1, k);
    }
  }

  lemma {:induction false} NextStartIs(d: bytes, from: nat, j: nat)
    requires from <= j <= |d|
    requires forall k :: from <= k < j ==> StartCodeSize(d, k) == 0
    requires j < |d| ==> StartCodeSize(d, j) != 0
    ensures NextStart(d, from) == j
    decreases j - from
  {
    if from < j {
      NextStartIs(d, from + 1, j);
    }
  }

  /** A unit is start-code free exactly when no position of it holds a start code. */
  lemma StartFreeMeaning(d: bytes)
    ensures StartFree(d) <==> forall k :: 0 <= k < |d| ==> StartCodeSize(d, k) == 0
  {
    if StartFree(d) {
      forall k | 0 <= k < |d| ensures StartCodeSize(d, k) == 0 {
        NoneBefore(d, 0, k);
      }
    }
  }

  lemma Shift(d: bytes, p: nat, k: nat)
    requires p <= |d|
    ensures StartCodeSize(d, p + k) == StartCodeSize(d[p..], k)
  {
  }

  lemma {:induction false} ShiftNext(d: bytes, p: nat, from: nat)
    requires p + from <= |d|
    ensures NextStart(d, p + from) == p + NextStart(d[p..], from)
    decreases |d| - from
  {
    Shift(d, p, from);
    if p + from < |d| {
      ShiftNext(d, p, from + 1);
    }
  }

  lemma {:induction false} NextFromLater(d: bytes, from: nat, later: nat)
    requires from <= |d| && from <= later <= NextStart(d, from)
    ensures NextStart(d, later) == NextStart(d, from)
    decreases later - from
  {
    if from < later {
      NextFromLater(d, from + 1, later);
    }
  }

  lemma SliceStartFree(d: bytes)
    ensures StartFree(d[..NextStart(d, 0)])
  {
    var e := NextStart(d, 0);
    forall k | 0 <= k < e ensures StartCodeSize(d[..e], k) == 0 {
      NoneBefore(d, 0, k);
    }
    NextStartIs(d[..e], 0, e);
  }

  lemma AtCode(d: bytes)
    requires StartCodeSize(d, 0) != 0
    ensures !StartFree(d) && AfterCode(d) == d[StartCodeSize(d, 0)..]
  {
  }

  lemma SkipKeepsCode(d: bytes, p: nat)
    requires p <= NextStart(d, 0)
    ensures StartFree(d) == StartFree(d[p..])
    ensures !StartFree(d) ==> AfterCode(d) == AfterCode(d[p..])
  {
    NextFromLater(d, 0, p);
    ShiftNext(d, p, 0);
    var s := NextStart(d, 0);
    Shift(d, p, s - p);
    if s < |d| {
      var n := s + StartCodeSize(d, s);
      assert AfterCode(d[p..]) == d[p..][n - p..];
      assert d[p..][n - p..] == d[n..];
    }
  }

  lemma SkipTo(d: bytes, p: nat)
    requires p <= NextStart(d, 0)
    ensures AnnexB(d) == AnnexB(d[p..])
  {
    SkipKeepsCode(d, p);
  }

  lemma CutAt(d: bytes, e: nat)
    requires e == NextStart(d, 0)
    ensures Cut(d) == Piece(d[..e]) + AnnexB(d[e..])
  {
    SkipTo(d, e);
  }

  // --------------------------------------------------------------- the loops

  method ScanToStartCode(d: bytes, from: nat) returns (j: nat)
    requires from <= |d|
    ensures j == NextStart(d, from)
  {
    j := from;
    while j < |d| && StartCodeSize(d, j) == 0
      invariant from <= j <= |d|
      invariant NextStart(d, from) == NextStart(d, j)
    {
      j := j + 1;
    }
  }

  /** One turn of the outer loop: the NAL between the start code at `pos` and the next one. */
  lemma CutBetween(d: bytes, pos: nat, nalStart: nat, next: nat)
    requires pos < |d| && StartCodeSize(d, pos) != 0
    requires pos + StartCodeSize(d, pos) == nalStart && next == NextStart(d, nalStart)
    ensures AnnexB(d[pos..]) == Piece(d[nalStart..next]) + AnnexB(d[next..])
  {
    AnnexBAtCode(d, pos);
    ShiftNext(d, nalStart, 0);
    CutFrom(d, nalStart, next);
  }

  lemma CutFrom(d: bytes, i: nat, j: nat)
    requires i <= j <= |d| && j == i + NextStart(d[i..], 0)
    ensures Cut(d[i..]) == Piece(d[i..j]) + AnnexB(d[j..])
  {
    CutAt(d[i..], j - i);
    Slices(d, i, j);
  }

  lemma AnnexBAtCode(d: bytes, pos: nat)
    requires pos < |d| && StartCodeSize(d, pos) != 0
    ensures AnnexB(d[pos..]) == Cut(d[pos + StartCodeSize(d, pos)..])
  {
    Shift(d, pos, 0);
    AtCode(d[pos..]);
    assert d[pos..][StartCodeSize(d, pos)..] == d[pos + StartCodeSize(d, pos)..];
  }

  lemma Slices(d: bytes, i: nat, j: nat)
    requires i <= j <= |d|
    ensures d[i..][..j - i] == d[i..j] && d[i..][j - i..] == d[j..]
  {
  }

  method SplitAtStartCodes(d: bytes, first: nat) returns (nals: seq<bytes>)
    requires first <= |d|
    ensures nals == AnnexB(d[first..])
  {
    nals := [];
    var pos := first;
    ghost var goal := AnnexB(d[first..]);
    while pos < |d|
      invariant first <= pos <= |d|
      invariant nals + AnnexB(d[pos..]) == goal
      decreases |d| - pos
    {
      var prefix := StartCodeSize(d, pos);
      if prefix == 0 {
        Shift(d, pos, 0);
        SkipTo(d[pos..], 1);
        assert d[pos..][1..] == d[pos + 1..];
        pos := pos + 1;
        continue;
      }
      var nalStart := pos + prefix;
      var next := ScanToStartCode(d, nalStart);
      CutBetween(d, pos, nalStart, next);
      Reassociate(nals, d[nalStart..next], AnnexB(d[next..]));
      if next > nalStart {
        nals := nals + [d[nalStart..next]];
      }
      pos := next;
    }
    assert d[pos..] == [];
  }

  lemma Reassociate(before: seq<bytes>, nal: bytes, more: seq<bytes>)
    ensures before + (Piece(nal) + more) == (if nal == [] then before else before + [nal]) + more
  {
  }

  /** The state of the length-prefix loop after it has taken `taken`. */
  ghost function Prepend(taken: seq<bytes>, r: Option<(seq<bytes>, bytes)>)
    : (all: Option<(seq<bytes>, bytes)>)
  {
    match r
    case None => None
    case Some((nals, rest)) => Some((taken + nals, rest))
  }

  lemma TakeOne(nals: seq<bytes>, d: bytes, pos: nat, length: nat)
    requires pos + 4 <= |d| && length == ReadU32(d[pos..pos + 4]) && 0 < length <= |d| - pos - 4
    ensures var after := pos + 4 + length;
      Prepend(nals, LengthRun(d[pos..])) == Prepend(nals + [d[pos + 4..after]], LengthRun(d[after..]))
  {
    var t, after := d[pos..], pos + 4 + length;
    assert t[..4] == d[pos..pos + 4] && t[4..4 + length] == d[pos + 4..after] && t[4 + length..] == d[after..];
    match LengthRun(d[after..]) {
      case None =>
      case Some((more, rest)) => Assoc(nals, [d[pos + 4..after]], more);
    }
  }

  lemma TakeNone(nals: seq<bytes>, d: bytes, pos: nat)
    requires pos <= |d|
    requires pos + 4 <= |d| ==> var length := ReadU32(d[pos..pos + 4]); length == 0 || length > |d| - pos - 4
    ensures Prepend(nals, LengthRun(d[pos..])) == if pos + 4 <= |d| then None else Some((nals, d[pos..]))
  {
    if pos + 4 <= |d| {
      assert d[pos..][..4] == d[pos..pos + 4];
    } else {
      assert nals + [] == nals;
    }
  }

  lemma PrependNothing(d: bytes)
    ensures Prepend([], LengthRun(d[0..])) == LengthRun(d)
  {
    assert d[0..] == d;
    assert forall more: seq<bytes> :: [] + more == more;
  }

  method SplitAtLengths(d: bytes) returns (nals: seq<bytes>)
    ensures nals == SplitLengths(d)
  {
    nals := [];
    var pos := 0;
    PrependNothing(d);
    while pos + 4 <= |d|
      invariant pos <= |d|
      invariant Prepend(nals, LengthRun(d[pos..])) == LengthRun(d)
      decreases |d| - pos
    {
      var length := ReadU32(d[pos..pos + 4]);
      if length == 0 || length > |d| - pos - 4 {
        TakeNone(nals, d, pos);
        return [d];
      }
      TakeOne(nals, d, pos, length);
      nals := nals + [d[pos + 4..pos + 4 + length]];
      pos := pos + 4 + length;
    }
    TakeNone(nals, d, pos);
    if nals != [] && pos == |d| {
      return;
    }
    if d != [] {
      nals := nals + [d];
    }
  }

  method SplitAccessUnit(d: bytes) returns (nals: seq<bytes>)
    ensures nals == Split(d)
  {
    var first := ScanToStartCode(d, 0);
    if first < |d| {
      SkipTo(d, first);
      nals := SplitAtStartCodes(d, first);
    } else {
      nals := SplitAtLengths(d);
    }
  }

  // ---------------------------------------------------------------- Annex B

  ghost predicate Clean(nals: seq<bytes>) {
    forall i :: 0 <= i < |nals| ==> nals[i] != [] && StartFree(nals[i])
  }

  lemma {:induction false} CutIsClean(d: bytes)
    ensures Clean(Cut(d))
  {
    SliceStartFree(d);
    if !StartFree(d) {
      CutIsClean(AfterCode(d));
    }
  }

  /** No NAL cut at start codes is empty or holds a start code. */
  lemma AnnexBIsClean(d: bytes)
    ensures Clean(AnnexB(d))
  {
    if !StartFree(d) {
      CutIsClean(AfterCode(d));
    }
  }

  function Code(long: bool): (r: bytes) {
    if long then [0, 0, 0, 1] else [0, 0, 1]
  }

  /** Each NAL behind its own start code; `long[i]` picks the four-byte code for `nals[i]`. */
  function Join(long: seq<bool>, nals: seq<bytes>): (r: bytes)
    requires |long| == |nals|
  {
    if nals == [] then [] else Code(long[0]) + (nals[0] + Join(long[1..], nals[1..]))
  }

  /** What is left of a NAL in front of a start code: a short code takes a trailing zero. */
  function Kept(nal: bytes, long: bool): (r: bytes) {
    if nal != [] && nal[|nal| - 1] == 0 && !long then nal[..|nal| - 1] else nal
  }

  function Survivors(long: seq<bool>, nals: seq<bytes>): (r: seq<bytes>)
    requires |long| == |nals|
  {
    if nals == [] then []
    else Piece(if |nals| > 1 then Kept(nals[0], long[1]) else nals[0]) + Survivors(long[1..], nals[1..])
  }

  lemma CodeAtFront(long: bool, d: bytes)
    ensures !StartFree(Code(long) + d)
    ensures AnnexB(Code(long) + d) == Cut(d)
  {
    var x := Code(long) + d;
    assert StartCodeSize(x, 0) == |Code(long)|;
    AtCode(x);
    assert x[|Code(long)|..] == d;
  }

  /** Before a start code, a start-code-free NAL can only lend its last zero to a match. */
  lemma NoEarlyMatch(nal: bytes, j: bytes, k: nat)
    requires StartFree(nal) && k < |nal|
    requires |j| >= 3 && j[0] == 0 && j[1] == 0
    requires j[2] == 0 || nal[|nal| - 1] != 0 || k < |nal| - 1
    ensures StartCodeSize(nal + j, k) == 0
  {
    NoneBefore(nal, 0, k);
    var x := nal + j;
    assert x[|nal|] == 0 && x[|nal| + 1] == 0 && x[|nal| + 2] == j[2];
  }

  lemma CutBeforeCode(nal: bytes, kept: bytes, j: bytes, long: bool, rest: bytes)
    requires StartFree(nal) && |kept| <= |nal|
    requires |j| >= 3 && j[0] == 0 && j[1] == 0
    requires j[2] == 0 || nal == [] || nal[|nal| - 1] != 0 || |kept| < |nal|
    requires nal + j == kept + (Code(long) + rest)
    ensures Cut(nal + j) == Piece(kept) + Cut(rest)
  {
    var x, e, tail := nal + j, |kept|, Code(long) + rest;
    forall k | 0 <= k < e ensures StartCodeSize(x, k) == 0 {
      NoEarlyMatch(nal, j, k);
    }
    assert x[e..] == tail;
    assert StartCodeSize(tail, 0) != 0;
    Shift(x, e, 0);
    NextStartIs(x, 0, e);
    CutAt(x, e);
    CodeAtFront(long, rest);
    assert x[..e] == kept;
  }

  lemma LendZero(nal: bytes, rest: bytes)
    requires nal != [] && nal[|nal| - 1] == 0
    ensures nal + (Code(false) + rest) == nal[..|nal| - 1] + (Code(true) + rest)
  {
    assert nal == nal[..|nal| - 1] + [0];
    assert [0] + [0, 0, 1] == Code(true);
  }

  lemma CutNal(nal: bytes, long: bool, rest: bytes)
    requires StartFree(nal)
    ensures Cut(nal + (Code(long) + rest)) == Piece(Kept(nal, long)) + Cut(rest)
  {
    var j := Code(long) + rest;
    if nal != [] && nal[|nal| - 1] == 0 && !long {
      LendZero(nal, rest);
      CutBeforeCode(nal, nal[..|nal| - 1], j, true, rest);
    } else {
      CutBeforeCode(nal, nal, j, long, rest);
    }
  }

  /** Splitting a joined unit, exactly: only a zero before a three-byte code is ever lost. */
  lemma {:induction false} SplitOfJoin(long: seq<bool>, nals: seq<bytes>)
    requires |long| == |nals|
    requires forall i :: 0 <= i < |nals| ==> StartFree(nals[i])
    ensures AnnexB(Join(long, nals)) == Survivors(long, nals)
  {
    if nals != [] {
      var long', nals' := long[1..], nals[1..];
      var j := Join(long', nals');
      CodeAtFront(long[0], nals[0] + j);
      SplitOfJoin(long', nals');
      if nals' == [] {
        assert nals[0] + j == nals[0];
        CutAt(nals[0], |nals[0]|);
        assert nals[0][|nals[0]|..] == [];
        assert nals[0][..|nals[0]|] == nals[0];
      } else {
        var rest := nals'[0] + Join(long'[1..], nals'[1..]);
        CutNal(nals[0], long'[0], rest);
        CodeAtFront(long'[0], rest);
      }
    }
  }

  ghost predicate EndsInZero(nal: bytes) {
    nal != [] && nal[|nal| - 1] == 0
  }

  ghost predicate KeepsZeros(long: seq<bool>, nals: seq<bytes>)
    requires |long| == |nals|
  {
    forall i :: 0 <= i < |nals| - 1 && EndsInZero(nals[i]) ==> long[i + 1]
  }

  lemma {:induction false} SurvivorsOf(long: seq<bool>, nals: seq<bytes>)
    requires |long| == |nals|
    requires forall i :: 0 <= i < |nals| ==> nals[i] != []
    ensures |Flatten(Survivors(long, nals))| <= |Flatten(nals)|
    ensures KeepsZeros(long, nals) ==> Survivors(long, nals) == nals
    ensures !KeepsZeros(long, nals) ==> |Flatten(Survivors(long, nals))| < |Flatten(nals)|
  {
    if nals != [] {
      var long', nals' := long[1..], nals[1..];
      SurvivorsOf(long', nals');
      var kept := if |nals| > 1 then Kept(nals[0], long[1]) else nals[0];
      FlattenConcat(Piece(kept), Survivors(long', nals'));
      assert |Flatten(Piece(kept))| == |kept|;
      if KeepsZeros(long, nals) {
        forall i | 0 <= i < |nals'| - 1 && EndsInZero(nals'[i]) ensures long'[i + 1] {
          assert EndsInZero(nals[i + 1]);
        }
        assert EndsInZero(nals[0]) && |nals| > 1 ==> long[0 + 1];
      } else {
        var i :| 0 <= i < |nals| - 1 && EndsInZero(nals[i]) && !long[i + 1];
        if i > 0 {
          assert EndsInZero(nals'[i - 1]) && !long'[i];
        }
      }
    }
  }

  /** Splitting inverts joining exactly when no NAL that ends in zero meets a three-byte start code. */
  lemma JoinRoundTrip(long: seq<bool>, nals: seq<bytes>)
    requires |long| == |nals|
    requires Clean(nals)
    ensures Split(Join(long, nals)) == nals <==> KeepsZeros(long, nals)
  {
    SplitOfJoin(long, nals);
    SurvivorsOf(long, nals);
    if nals != [] {
      CodeAtFront(long[0], nals[0] + Join(long[1..], nals[1..]));
    }
  }

  lemma SurvivorsOfTwo(a: bytes, b: bytes)
    requires EndsInZero(a) && b != []
    ensures Survivors([true, false], [a, b]) == Piece(a[..|a| - 1]) + [b]
  {
    var long, nals := [true, false], [a, b];
    assert long[1..] == [false] && nals[1..] == [b];
    assert Survivors([false], [b]) == Piece(b) + Survivors([false][1..], [b][1..]) == [b];
  }

  /** Two NALs, the first ending in zero and the second behind a three-byte code: the zero is lost. */
  lemma ZeroBeforeShortCode(a: bytes, b: bytes)
    requires StartFree(a) && StartFree(b) && EndsInZero(a) && b != []
    ensures Split(Join([true, false], [a, b])) == Piece(a[..|a| - 1]) + [b]
  {
    var long, nals := [true, false], [a, b];
    SplitOfJoin(long, nals);
    SurvivorsOfTwo(a, b);
    CodeAtFront(true, nals[0] + Join(long[1..], nals[1..]));
  }

  /** One such unit. */
  lemma TrailingZeroIsLost()
    ensures Split(Join([true, false], [[1, 0], [2]])) == [[1], [2]]
  {
    var a: bytes := [1, 0];
    StartFreeMeaning(a);
    StartFreeMeaning([2]);
    ZeroBeforeShortCode(a, [2]);
    assert a[..1] == [1];
  }

  function AllLong(n: nat): (r: seq<bool>)
    ensures |r| == n && forall i :: 0 <= i < n ==> r[i]
  {
    seq(n, _ => true)
  }

  /** Annex-B splitting is a normal form, and its NALs are clean. */
  lemma SplitNormalForm(d: bytes)
    requires !StartFree(d)
    ensures Clean(Split(d))
    ensures Split(Join(AllLong(|Split(d)|), Split(d))) == Split(d)
  {
    AnnexBIsClean(d);
    JoinRoundTrip(AllLong(|Split(d)|), Split(d));
  }

  /** Whatever the input, no NAL handed to the packetizer is empty. */
  lemma SplitHasNoEmptyNal(d: bytes)
    ensures forall i :: 0 <= i < |Split(d)| ==> Split(d)[i] != []
  {
    AnnexBIsClean(d);
    LengthRunNonEmpty(d);
  }

  lemma {:induction false} LengthRunNonEmpty(d: bytes)
    ensures LengthRun(d).Some? ==> forall i :: 0 <= i < |LengthRun(d).value.0| ==> LengthRun(d).value.0[i] != []
    ensures LengthRun(d).None? ==> d != []
  {
    if |d| >= 4 {
      var length := ReadU32(d[..4]);
      if 0 < length <= |d| - 4 {
        LengthRunNonEmpty(d[4 + length..]);
      }
    }
  }
}
