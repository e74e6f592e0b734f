/**
 Access units with four-byte length prefixes: when such a unit comes back from the
 splitter, which looks for start codes first.
 */
module LengthPrefixes {
  import opened Bytes
  import opened AccessUnit

  ghost predicate Prefixable(nals: seq<bytes>) {
    forall i :: 0 <= i < |nals| ==> 0 < |nals[i]| < 0x1_0000_0000
  }

  function LengthJoin(nals: seq<bytes>): (r: bytes)
    requires Prefixable(nals)
  {
    if nals == [] then [] else U32(|nals[0]|) + (nals[0] + LengthJoin(nals[1..]))
  }

  /** Here the length loop stops: no four bytes are left, or they give a length of zero or of more than is left. */
  ghost predicate Halts(rest: bytes) {
    |rest| < 4 ||
    var n := 0x100_0000 * rest[0] as int + 0x1_0000 * rest[1] as int + 256 * rest[2] as int + rest[3];
    n == 0 || n > |rest| - 4
  }

  lemma HaltedRun(rest: bytes)
    requires Halts(rest)
    ensures LengthRun(rest) == if |rest| < 4 then Some(([], rest)) else None
  {
    if |rest| >= 4 {
      ReadU32Meaning(rest[..4]);
    }
  }

  lemma LengthAhead(d: bytes, nal: bytes, rest: bytes)
    requires 0 < |nal| < 0x1_0000_0000 && d == U32(|nal|) + (nal + rest)
    ensures |d| >= 4 && ReadU32(d[..4]) == |nal| <= |d| - 4
    ensures d[4..4 + |nal|] == nal && d[4 + |nal|..] == rest
  {
    assert d[..4] == U32(|nal|);
    U32RoundTrip(|nal|);
  }

  lemma {:induction false} LengthRunOfJoin(nals: seq<bytes>, tail: bytes)
    requires Prefixable(nals) && Halts(tail)
    ensures LengthRun(LengthJoin(nals) + tail) == if |tail| < 4 then Some((nals, tail)) else None
  {
    var d := LengthJoin(nals) + tail;
    if nals == [] {
      assert d == tail;
      HaltedRun(tail);
    } else {
      var rest := LengthJoin(nals[1..]) + tail;
      assert d == U32(|nals[0]|) + (nals[0] + rest);
      LengthAhead(d, nals[0], rest);
      LengthRunOfJoin(nals[1..], tail);
      assert [nals[0]] + nals[1..] == nals;
    }
  }

  /**
   Units by their lengths, with `tail` where the loop stops. Without a start code anywhere the
   NALs come back; one to three stray bytes add the whole unit behind them; a length that
   is refused leaves the whole unit and nothing else. With a start code the unit is cut as
   Annex B.
   */
  lemma LengthPrefixedSplit(nals: seq<bytes>, tail: bytes)
    requires Prefixable(nals) && Halts(tail)
    ensures
      var unit := LengthJoin(nals) + tail;
      Split(unit) ==
      if !StartFree(unit) then AnnexB(unit)
      else if |tail| >= 4 then [unit]
      else if tail == [] then nals else nals + [unit]
  {
    LengthRunOfJoin(nals, tail);
  }

  /** Every unit is of that shape. */
  lemma {:induction false} EveryUnitHalts(unit: bytes) returns (nals: seq<bytes>, tail: bytes)
    ensures Prefixable(nals) && Halts(tail) && unit == LengthJoin(nals) + tail
  {
    if Halts(unit) {
      nals, tail := [], unit;
    } else {
      var n := ReadU32(unit[..4]);
      ReadU32Meaning(unit[..4]);
      var more, rest := EveryUnitHalts(unit[4 + n..]);
      nals, tail := [unit[4..4 + n]] + more, rest;
      assert U32(n) == unit[..4] by {
        U32OfRead(unit[..4]);
      }
      assert nals[1..] == more;
    }
  }

  /** A NAL that itself holds a start code never comes back from its length-prefixed form. */
  lemma EmbeddedStartCodeBreaksLengths(nals: seq<bytes>, i: nat)
    requires Prefixable(nals) && i < |nals| && !StartFree(nals[i])
    ensures Split(LengthJoin(nals)) != nals
  {
    LengthJoinHolds(nals, i);
    AnnexBIsClean(LengthJoin(nals));
  }

  lemma StartCodeInside(d: bytes, p: nat, part: bytes)
    requires p + |part| <= |d| && d[p..p + |part|] == part && !StartFree(part)
    ensures !StartFree(d)
  {
    var k := NextStart(part, 0);
    assert forall i :: 0 <= i < |part| ==> d[p + i] == part[i];
    assert StartCodeSize(d, p + k) != 0;
    StartFreeMeaning(d);
  }

  lemma {:induction false} LengthJoinHolds(nals: seq<bytes>, i: nat)
    requires Prefixable(nals) && i < |nals| && !StartFree(nals[i])
    ensures !StartFree(LengthJoin(nals))
  {
    var d, p := LengthJoin(nals), 4 + |nals[0]|;
    if i == 0 {
      assert d[4..4 + |nals[0]|] == nals[0];
      StartCodeInside(d, 4, nals[0]);
    } else {
      LengthJoinHolds(nals[1..], i - 1);
      assert d[p..p + |LengthJoin(nals[1..])|] == LengthJoin(nals[1..]);
      StartCodeInside(d, p, LengthJoin(nals[1..]));
    }
  }

  lemma {:induction false} CutSize(d: bytes)
    ensures |Flatten(Cut(d))| <= |d|
  {
    var e := NextStart(d, 0);
    if e < |d| {
      CutSize(AfterCode(d));
      FlattenConcat(Piece(d[..e]), Cut(AfterCode(d)));
    }
    assert |Flatten(Piece(d[..e]))| == e;
  }

  lemma CutOfFreeNal(nal: bytes)
    requires StartFree(nal) && nal != []
    ensures Cut(nal) == [nal]
  {
    assert nal[..|nal|] == nal;
  }

  lemma LowOctets(n: u32)
    ensures
      var p := U32(n);
      |p| == 4 && p[1] == n / 0x1_0000 % 256 && p[2] == n % 0x1_0000 / 256 && p[3] == n % 0x1_0000 % 256
  {
  }

  lemma LowOctetsJoin(n: u32)
    ensures
      n % 0x100_0000 == n / 0x1_0000 % 256 * 0x1_0000 + (n % 0x1_0000 / 256 * 256 + n % 0x1_0000 % 256)
  {
    var h, l := n / 0x1_0000, n % 0x1_0000;
    assert h == 256 * (h / 256) + h % 256 && l == 256 * (l / 256) + l % 256;
    Divides(n, 0x100_0000, h / 256, h % 256 * 0x1_0000 + l);
  }

  /** The prefix of a length that is 1 modulo 2^24 ends in a start code, and no other prefix does. */
  lemma PrefixAsStartCode(n: u32, d: bytes)
    requires n > 0 && |d| >= 4 && d[..4] == U32(n)
    ensures n % 0x100_0000 == 1 <==> d[1] == 0 && d[2] == 0 && d[3] == 1
  {
    LowOctets(n);
    LowOctetsJoin(n);
    assert d[1] == d[..4][1] && d[2] == d[..4][2] && d[3] == d[..4][3];
  }

  /**
   One length-prefixed NAL comes back exactly when its encoding holds no start code, or
   the only one is the end of its prefix (a length of 1 modulo 2^24).
   */
  lemma OneLengthPrefixedNal(nal: bytes)
    requires Prefixable([nal])
    ensures Split(LengthJoin([nal])) == [nal]
       <==> StartFree(LengthJoin([nal])) || (StartFree(nal) && |nal| % 0x100_0000 == 1)
  {
    var d := LengthJoin([nal]);
    assert d == U32(|nal|) + (nal + LengthJoin([nal][1..])) == U32(|nal|) + nal;
    assert d + [] == d;
    LengthPrefixedSplit([nal], []);
    if !StartFree(nal) {
      LengthJoinHolds([nal], 0);
      EmbeddedStartCodeBreaksLengths([nal], 0);
    } else if !StartFree(d) {
      OneNalBehindCode(d, nal);
    }
  }

  lemma OneNalBehindCode(d: bytes, nal: bytes)
    requires 0 < |nal| < 0x1_0000_0000 && StartFree(nal) && d == U32(|nal|) + nal && !StartFree(d)
    ensures AnnexB(d) == [nal] <==> |nal| % 0x100_0000 == 1
  {
    var s := NextStart(d, 0);
    var n := s + StartCodeSize(d, s);
    PrefixAsStartCode(|nal|, d);
    if n == 4 {
      assert d[n..] == nal;
      CutOfFreeNal(nal);
    } else {
      if |nal| % 0x100_0000 == 1 {
        CodeEndsAtFour(d);
      }
      ShortenedCut(d, n, nal);
    }
  }

  lemma CodeEndsAtFour(d: bytes)
    requires |d| >= 4 && d[1] == 0 && d[2] == 0 && d[3] == 1
    ensures NextStart(d, 0) < |d| && NextStart(d, 0) + StartCodeSize(d, NextStart(d, 0)) == 4
  {
    if d[0] == 0 {
      NextStartIs(d, 0, 0);
    } else {
      NextStartIs(d, 0, 1);
    }
  }

  lemma ShortenedCut(d: bytes, n: nat, nal: bytes)
    requires |d| == |nal| + 4 && n <= |d| && n != 4 && n >= 3
    ensures Cut(d[n..]) != [nal]
  {
    var x := d[n..];
    CutSize(x);
    if Cut(x) == [nal] {
      assert Flatten([nal]) == nal + Flatten([nal][1..]) == nal;
      var e := NextStart(x, 0);
      if e == 0 {
        CutSize(AfterCode(x));
      }
      assert false;
    }
  }

  // ------------------------------------------------- several NALs, exactly when

  /** In front of a four-byte code nothing matches that did not match before. */
  lemma NoStraddle(x: bytes, rest: bytes, k: nat)
    requires k < |x|
    ensures StartCodeSize(x + (Code(true) + rest), k) == StartCodeSize(x, k)
  {
    var d := x + (Code(true) + rest);
    assert d[|x|] == 0 && d[|x| + 1] == 0 && d[|x| + 2] == 0;
  }

  lemma FirstCodeStays(x: bytes, rest: bytes)
    requires !StartFree(x)
    ensures
      var d := x + (Code(true) + rest);
      && NextStart(d, 0) == NextStart(x, 0) && !StartFree(d)
      && AfterCode(d) == AfterCode(x) + (Code(true) + rest)
  {
    var d, s := x + (Code(true) + rest), NextStart(x, 0);
    forall k | 0 <= k < s ensures StartCodeSize(d, k) == 0 {
      NoneBefore(x, 0, k);
      NoStraddle(x, rest, k);
    }
    NoStraddle(x, rest, s);
    NextStartIs(d, 0, s);
    var n := s + StartCodeSize(x, s);
    assert d[n..] == x[n..] + (Code(true) + rest);
  }

  lemma CutOfFree(x: bytes)
    requires StartFree(x)
    ensures Cut(x) == Piece(x)
  {
    assert x[..|x|] == x;
  }

  lemma {:induction false} CutAtLongCode(x: bytes, rest: bytes)
    ensures Cut(x + (Code(true) + rest)) == Cut(x) + Cut(rest)
    decreases |x|
  {
    if StartFree(x) {
      CutOfFree(x);
      CutNal(x, true, rest);
    } else {
      FirstCodeStays(x, rest);
      var d, s := x + (Code(true) + rest), NextStart(x, 0);
      CutAtLongCode(AfterCode(x), rest);
      assert d[..s] == x[..s];
      Assoc(Piece(x[..s]), Cut(AfterCode(x)), Cut(rest));
    }
  }

  lemma LongCodeIsFirst(x: bytes, rest: bytes)
    requires StartFree(x)
    ensures NextStart(x + (Code(true) + rest), 0) == |x|
  {
    var d := x + (Code(true) + rest);
    forall k | 0 <= k < |x| ensures StartCodeSize(d, k) == 0 {
      NoneBefore(x, 0, k);
      NoStraddle(x, rest, k);
    }
    NextStartIs(d, 0, |x|);
  }

  /** A four-byte code cuts a unit in two, whatever stands before it. */
  lemma AnnexBAtLongCode(x: bytes, rest: bytes)
    ensures AnnexB(x + (Code(true) + rest)) == AnnexB(x) + Cut(rest)
  {
    var d := x + (Code(true) + rest);
    if StartFree(x) {
      LongCodeIsFirst(x, rest);
      SkipTo(d, |x|);
      assert d[|x|..] == Code(true) + rest;
      CodeAtFront(true, rest);
      assert [] + Cut(rest) == Cut(rest);
    } else {
      FirstCodeStays(x, rest);
      CutAtLongCode(AfterCode(x), rest);
    }
  }

  ghost predicate EndsInCode(d: bytes) {
    |d| >= 3 && d[|d| - 3] == 0 && d[|d| - 2] == 0 && d[|d| - 1] == 1
  }

  /** `nal` is the end of `d`, right behind a start code. */
  ghost predicate BehindCode(d: bytes, nal: bytes) {
    |nal| <= |d| && d[|d| - |nal|..] == nal && EndsInCode(d[..|d| - |nal|])
  }

  lemma LaterBehindCode(d: bytes, n: nat, nal: bytes)
    requires n <= |d| && EndsInCode(d[..n]) && (nal == d[n..] || BehindCode(d[n..], nal))
    ensures BehindCode(d, nal)
  {
    if nal != d[n..] {
      var t, k := d[n..], |d| - |nal|;
      assert t[|t| - |nal|..] == d[k..];
      assert t[..|t| - |nal|] == d[n..k];
      assert d[..k][n..] == d[n..k];
    }
  }

  lemma AfterCodeEnds(d: bytes)
    requires !StartFree(d)
    ensures
      var n := |d| - |AfterCode(d)|;
      d[n..] == AfterCode(d) && EndsInCode(d[..n])
  {
  }

  lemma AfterCodeGoesOn(d: bytes)
    requires !StartFree(d) && !EndsInCode(d)
    ensures AfterCode(d) != [] && !EndsInCode(AfterCode(d))
  {
    AfterCodeEnds(d);
    assert d[..|d|] == d;
  }

  /** The last NAL of a cut that does not end in a start code ends it. */
  lemma {:induction false} CutLast(d: bytes)
    requires d != [] && !EndsInCode(d)
    ensures Cut(d) != []
    ensures var last := Cut(d)[|Cut(d)| - 1]; last == d || BehindCode(d, last)
  {
    if StartFree(d) {
      CutOfFree(d);
    } else {
      AfterCodeGoesOn(d);
      AfterCodeEnds(d);
      CutLast(AfterCode(d));
      LaterBehindCode(d, |d| - |AfterCode(d)|, Cut(AfterCode(d))[|Cut(AfterCode(d))| - 1]);
    }
  }

  lemma LastBehindCode(d: bytes, rest: bytes, nals: seq<bytes>)
    requires !StartFree(d) && rest == AfterCode(d) && nals == Cut(rest) && rest != [] && !EndsInCode(rest)
    ensures nals != [] && BehindCode(d, nals[|nals| - 1])
  {
    AfterCodeEnds(d);
    CutLast(rest);
    LaterBehindCode(d, |d| - |rest|, nals[|nals| - 1]);
  }

  lemma AnnexBLast(d: bytes)
    requires AnnexB(d) != [] && !EndsInCode(d)
    ensures BehindCode(d, AnnexB(d)[|AnnexB(d)| - 1])
  {
    AfterCodeGoesOn(d);
    LastBehindCode(d, AfterCode(d), AnnexB(d));
  }

  lemma {:induction false} LengthJoinLast(front: seq<bytes>, last: bytes)
    requires Prefixable(front) && 0 < |last| < 0x1_0000_0000 && Prefixable(front + [last])
    ensures LengthJoin(front + [last]) == LengthJoin(front) + (U32(|last|) + last)
  {
    var nals, z := front + [last], U32(|last|) + last;
    if front == [] {
      assert nals == [last] && [last][1..] == [];
      assert last + [] == last && [] + z == z;
    } else {
      assert nals[1..] == front[1..] + [last];
      LengthJoinLast(front[1..], last);
      Assoc(front[0], LengthJoin(front[1..]), z);
      Assoc(U32(|front[0]|), front[0] + LengthJoin(front[1..]), z);
    }
  }

  /** All NALs shorter than 2^24 bytes, as in any unit a camera sends. */
  ghost predicate Short(nals: seq<bytes>) {
    forall i :: 0 <= i < |nals| ==> |nals[i]| < 0x100_0000
  }

  ghost predicate AllSingle(nals: seq<bytes>) {
    forall i :: 0 <= i < |nals| ==> |nals[i]| == 1
  }

  lemma PrefixEndsNoCode(x: bytes, nal: bytes)
    requires 0 < |nal| < 0x100_0000 && StartFree(nal)
    ensures !EndsInCode(x + (U32(|nal|) + nal))
  {
    var d := x + (U32(|nal|) + nal);
    if EndsInCode(d) {
      if |nal| >= 3 {
        assert StartCodeSize(nal, |nal| - 3) != 0;
        StartFreeMeaning(nal);
      }
    }
  }

  /** A NAL right behind the end of its own prefix as a code has one byte. */
  lemma PrefixIsCode(x: bytes, nal: bytes)
    requires 0 < |nal| < 0x100_0000 && BehindCode(x + (U32(|nal|) + nal), nal)
    ensures U32(|nal|) == Code(true) && |nal| == 1
  {
    var d := x + (U32(|nal|) + nal);
    assert d[..|d| - |nal|] == x + U32(|nal|);
    PrefixAsStartCode(|nal|, U32(|nal|));
  }

  lemma LastIsSingle(x: bytes, front: seq<bytes>, last: bytes)
    requires 0 < |last| < 0x100_0000 && AnnexB(x + (U32(|last|) + last)) == front + [last]
    ensures |last| == 1 && AnnexB(x) == front
  {
    var d, nals := x + (U32(|last|) + last), front + [last];
    AnnexBIsClean(d);
    assert nals[|nals| - 1] == last;
    PrefixEndsNoCode(x, last);
    AnnexBLast(d);
    PrefixIsCode(x, last);
    AnnexBAtLongCode(x, last);
    CutOfFree(last);
    assert (AnnexB(x) + [last])[..|front|] == front;
  }

  /** From the last NAL backwards: lengths that are cut apart as start codes are all 1. */
  lemma {:induction false} CutAsCodes(nals: seq<bytes>)
    requires Prefixable(nals) && Short(nals) && AnnexB(LengthJoin(nals)) == nals
    ensures AllSingle(nals)
  {
    if nals != [] {
      var front, last := nals[..|nals| - 1], nals[|nals| - 1];
      assert nals == front + [last];
      LengthJoinLast(front, last);
      LastIsSingle(LengthJoin(front), front, last);
      CutAsCodes(front);
    }
  }

  lemma {:induction false} SinglesAsJoin(nals: seq<bytes>)
    requires AllSingle(nals)
    ensures LengthJoin(nals) == Join(AllLong(|nals|), nals)
  {
    if nals != [] {
      SinglesAsJoin(nals[1..]);
      assert AllLong(|nals|)[1..] == AllLong(|nals| - 1);
      assert U32(1) == Code(true);
    }
  }

  lemma SinglesComeBack(nals: seq<bytes>)
    requires AllSingle(nals)
    ensures Split(LengthJoin(nals)) == nals
  {
    SinglesAsJoin(nals);
    assert Clean(nals);
    JoinRoundTrip(AllLong(|nals|), nals);
  }

  /**
   Any number of length-prefixed NALs, each shorter than 2^24 bytes: they come back
   exactly when their encoding holds no start code, or each of them is a single byte, so
   that every prefix is a start code of its own.
   */
  lemma LengthRoundTrip(nals: seq<bytes>)
    requires Prefixable(nals) && Short(nals) && nals != []
    ensures Split(LengthJoin(nals)) == nals <==> StartFree(LengthJoin(nals)) || AllSingle(nals)
  {
    assert LengthJoin(nals) + [] == LengthJoin(nals);
    LengthPrefixedSplit(nals, []);
    if AllSingle(nals) {
      SinglesComeBack(nals);
    } else if !StartFree(LengthJoin(nals)) && AnnexB(LengthJoin(nals)) == nals {
      CutAsCodes(nals);
    }
  }

  /** A NAL of 256 to 511 bytes has a start code for a prefix, so no unit that begins with one comes back. */
  lemma LongerNalLooksLikeAnnexB(nals: seq<bytes>)
    requires Prefixable(nals) && Short(nals) && nals != [] && 256 <= |nals[0]| < 512
    ensures Split(LengthJoin(nals)) != nals
  {
    var d := LengthJoin(nals);
    assert d[0] == 0 && d[1] == 0 && d[2] == 1;
    assert StartCodeSize(d, 0) == 3;
    LengthRoundTrip(nals);
  }

  /** One such unit: NALs of 300 and 700 bytes. */
  lemma LengthsLostExample()
    ensures
      var nals := [seq(300, _ => 5), seq(700, _ => 6)];
      Prefixable(nals) && Split(LengthJoin(nals)) != nals
  {
    var nals: seq<bytes> := [seq(300, _ => 5), seq(700, _ => 6)];
    LongerNalLooksLikeAnnexB(nals);
  }
}
