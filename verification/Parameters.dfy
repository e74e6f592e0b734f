/** Cached parameter sets, their base64 form in the SDP, and that a client can get them back out. */
module Parameters {
  import opened Bytes
  import opened Rtp
  import opened AccessUnit
  import opened FrameQueue

  // --------------------------------------------------------------------- base64

  function Letter(i: nat): (c: byte)
    requires i < 64
  {
    if i < 26 then 65 + i else if i < 52 then 71 + i else if i < 62 then i - 4 else if i == 62 then 43 else 47
  }

  const PAD: byte := 61

  /** The four letters of the group that starts at `i`; missing bytes count as zero and print as padding. */
  function Group(input: bytes, i: nat): (letters: bytes)
    requires i < |input|
    ensures |letters| == 4
  {
    var remaining := |input| - i;
    var a: int, b: int, c: int :=
      input[i], if remaining > 1 then input[i + 1] else 0, if remaining > 2 then input[i + 2] else 0;
    Letters(a, b, c, Min(3, remaining))
  }

  function Letters(a: int, b: int, c: int, n: nat): (letters: bytes)
    requires 0 <= a < 256 && 0 <= b < 256 && 0 <= c < 256
    ensures |letters| == 4
  {
    var value := a * 65536 + b * 256 + c;
    [Letter(value / 262144 % 64), Letter(value / 4096 % 64),
     if n > 1 then Letter(value / 64 % 64) else PAD, if n > 2 then Letter(value % 64) else PAD]
  }

  function EncodeFrom(input: bytes, i: nat): (text: bytes)
    requires i <= |input|
    ensures |text| == 4 * ((|input| - i + 2) / 3)
    decreases |input| - i
  {
    if i == |input| then [] else Group(input, i) + EncodeFrom(input, i + Min(3, |input| - i))
  }

  function Base64(input: bytes): (text: bytes)
    ensures |text| == 4 * ((|input| + 2) / 3)
  {
    EncodeFrom(input, 0)
  }

  method Base64Encode(input: bytes) returns (output: bytes)
    ensures output == Base64(input)
  {
    output := [];
    var i := 0;
    while i < |input|
      invariant i <= |input|
      invariant output + EncodeFrom(input, i) == Base64(input)
    {
      var step := Min(3, |input| - i);
      Assoc(output, Group(input, i), EncodeFrom(input, i + step));
      output := output + Group(input, i);
      i := i + step;
    }
  }

  /** The value of a letter, or 64 for a byte outside the alphabet. */
  function Sextet(c: byte): (v: nat)
    ensures v <= 64
  {
    if 65 <= c <= 90 then c - 65 else if 97 <= c <= 122 then c - 71 else if 48 <= c <= 57 then c + 4
    else if c == 43 then 62 else if c == 47 then 63 else 64
  }

  /** The bytes of a full group; padded groups decode with zeros for the padding. */
  function GroupBytes(v0: nat, v1: nat, v2: nat, v3: nat): (b: bytes)
    requires v0 < 64 && v1 < 64 && v2 < 64 && v3 < 64
    ensures |b| == 3
  {
    [v0 * 4 + v1 / 16, v1 % 16 * 16 + v2 / 4, v2 % 4 * 64 + v3]
  }

  function DecodeGroup(t: bytes): (r: Option<bytes>)
    requires |t| == 4
  {
    var v0, v1, v2, v3 := Sextet(t[0]), Sextet(t[1]), Sextet(t[2]), Sextet(t[3]);
    if v0 == 64 || v1 == 64 then None
    else if t[3] != PAD then (if v2 == 64 || v3 == 64 then None else Some(GroupBytes(v0, v1, v2, v3)))
    else if t[2] != PAD then (if v2 == 64 || v2 % 4 != 0 then None else Some(GroupBytes(v0, v1, v2, 0)[..2]))
    else if v1 % 16 != 0 then None
    else Some(GroupBytes(v0, v1, 0, 0)[..1])
  }

  /** Decoding per section 4 of RFC 4648: padding only in the last group, unused bits zero. */
  function Decode(text: bytes): (r: Option<bytes>) {
    if text == [] then Some([])
    else if |text| < 4 then None
    else
      match DecodeGroup(text[..4])
      case None => None
      case Some(b) =>
        if |text| == 4 then Some(b)
        else if |b| < 3 then None
        else
          match Decode(text[4..])
          case None => None
          case Some(rest) => Some(b + rest)
  }

  lemma LetterRoundTrip(i: nat)
    requires i < 64
    ensures Sextet(Letter(i)) == i && Letter(i) != PAD && Letter(i) != 44 && Letter(i) != 59
  {
  }

  /** Six-bit pieces of a three-byte group put together again. */
  lemma PiecesJoin(a: int, b: int, c: int)
    requires 0 <= a < 256 && 0 <= b < 256 && 0 <= c < 256
    ensures
      var v := a * 65536 + b * 256 + c;
      && v / 262144 % 64 == a / 4 && v / 4096 % 64 == a % 4 * 16 + b / 16
      && v / 64 % 64 == b % 16 * 4 + c / 64 && v % 64 == c % 64
  {
    var v := a * 65536 + b * 256 + c;
    Divides(v, 262144, a / 4, a % 4 * 65536 + b * 256 + c);
    Divides(v, 4096, a * 16 + b / 16, b % 16 * 256 + c);
    Divides(a * 16 + b / 16, 64, a / 4, a % 4 * 16 + b / 16);
    Divides(v, 64, a * 1024 + b * 4 + c / 64, c % 64);
    Divides(a * 1024 + b * 4 + c / 64, 64, a * 16 + b / 16, b % 16 * 4 + c / 64);
  }

  lemma BytesOfPieces(a: int, b: int, c: int)
    requires 0 <= a < 256 && 0 <= b < 256 && 0 <= c < 256
    ensures GroupBytes(a / 4, a % 4 * 16 + b / 16, b % 16 * 4 + c / 64, c % 64) == [a, b, c]
  {
    assert (a % 4 * 16 + b / 16) / 16 == a % 4 && (a % 4 * 16 + b / 16) % 16 == b / 16;
    assert (b % 16 * 4 + c / 64) / 4 == b % 16 && (b % 16 * 4 + c / 64) % 4 == c / 64;
  }

  function Printed(v0: nat, v1: nat, v2: nat, v3: nat, n: nat): (letters: bytes)
    requires v0 < 64 && v1 < 64 && v2 < 64 && v3 < 64
    ensures |letters| == 4
  {
    [Letter(v0), Letter(v1), if n > 1 then Letter(v2) else PAD, if n > 2 then Letter(v3) else PAD]
  }

  lemma PrintedDecodes(v0: nat, v1: nat, v2: nat, v3: nat, n: nat)
    requires v0 < 64 && v1 < 64 && v2 < 64 && v3 < 64 && 1 <= n <= 3
    requires (n == 2 ==> v2 % 4 == 0) && (n == 1 ==> v1 % 16 == 0)
    requires (n < 3 ==> v3 == 0) && (n < 2 ==> v2 == 0)
    ensures DecodeGroup(Printed(v0, v1, v2, v3, n)) == Some(GroupBytes(v0, v1, v2, v3)[..n])
  {
    LetterRoundTrip(v0);
    LetterRoundTrip(v1);
    LetterRoundTrip(v2);
    LetterRoundTrip(v3);
    assert GroupBytes(v0, v1, v2, v3)[..3] == GroupBytes(v0, v1, v2, v3);
  }

  lemma LettersArePrinted(a: int, b: int, c: int, n: nat)
    requires 0 <= a < 256 && 0 <= b < 256 && 0 <= c < 256
    ensures Letters(a, b, c, n) == Printed(a / 4, a % 4 * 16 + b / 16, b % 16 * 4 + c / 64, c % 64, n)
  {
    PiecesJoin(a, b, c);
  }

  lemma LettersDecode(a: int, b: int, c: int, n: nat)
    requires 0 <= a < 256 && 0 <= b < 256 && 0 <= c < 256 && 1 <= n <= 3
    requires (n < 3 ==> c == 0) && (n < 2 ==> b == 0)
    ensures DecodeGroup(Letters(a, b, c, n)) == Some([a, b, c][..n])
  {
    LettersArePrinted(a, b, c, n);
    BytesOfPieces(a, b, c);
    PrintedDecodes(a / 4, a % 4 * 16 + b / 16, b % 16 * 4 + c / 64, c % 64, n);
  }

  lemma GroupDecodes(input: bytes, i: nat)
    requires i < |input|
    ensures DecodeGroup(Group(input, i)) == Some(input[i..i + Min(3, |input| - i)])
  {
    var n := Min(3, |input| - i);
    var a: int, b: int, c: int := input[i], if n > 1 then input[i + 1] else 0, if n > 2 then input[i + 2] else 0;
    LettersDecode(a, b, c, n);
    assert [a, b, c][..n] == input[i..i + n];
  }

  lemma DecodeCons(group: bytes, rest: bytes, b: bytes, more: bytes)
    requires |group| == 4 && DecodeGroup(group) == Some(b) && Decode(rest) == Some(more)
    requires rest != [] ==> |b| == 3
    ensures Decode(group + rest) == Some(b + more)
  {
    assert (group + rest)[..4] == group;
    assert (group + rest)[4..] == rest;
    assert b + [] == b;
  }

  lemma {:induction false} DecodeFrom(input: bytes, i: nat)
    requires i <= |input|
    ensures Decode(EncodeFrom(input, i)) == Some(input[i..])
    decreases |input| - i
  {
    if i < |input| {
      var n := Min(3, |input| - i);
      GroupDecodes(input, i);
      DecodeFrom(input, i + n);
      DecodeCons(Group(input, i), EncodeFrom(input, i + n), input[i..i + n], input[i + n..]);
      assert input[i..i + n] + input[i + n..] == input[i..];
    } else {
      assert input[i..] == [];
    }
  }

  /** Base64 is invertible on every byte sequence. */
  lemma Base64RoundTrip(input: bytes)
    ensures Decode(Base64(input)) == Some(input) && |Base64(input)| == 4 * ((|input| + 2) / 3)
  {
    DecodeFrom(input, 0);
    assert input[0..] == input;
  }

  /** Neither ',' nor ';' occurs in an encoding. */
  ghost predicate NoSeparator(text: bytes) {
    forall i :: 0 <= i < |text| ==> text[i] != 44 && text[i] != 59
  }

  lemma {:induction false} EncodingHasNoSeparator(input: bytes, i: nat)
    requires i <= |input|
    ensures NoSeparator(EncodeFrom(input, i))
    decreases |input| - i
  {
    if i < |input| {
      EncodingHasNoSeparator(input, i + Min(3, |input| - i));
      assert NoSeparator(Group(input, i));
    }
  }

  // ------------------------------------------------------------- the SDP strings

  function H264Fmtp(sps: bytes, pps: bytes): (text: bytes) {
    Ascii("packetization-mode=1") + Ascii(";sprop-parameter-") + Ascii("sets=") + (Base64(sps) + ([44] + Base64(pps)))
  }

  function H265Fmtp(vps: bytes, sps: bytes, pps: bytes): (text: bytes) {
    Ascii("sprop-vps=") + (Base64(vps) + (Ascii(";sprop-sps=") + (Base64(sps) + (Ascii(";sprop-pps=") + Base64(pps)))))
  }

  /** The text up to the first `c`, and the text behind that and `skip` more bytes. */
  function CutText(text: bytes, c: byte, skip: nat): (r: (bytes, bytes)) {
    var k := IndexOfByte(text, c, 0);
    (text[..k], if k + skip <= |text| then text[k + skip..] else [])
  }

  function IndexOfByte(text: bytes, c: byte, from: nat): (k: nat)
    requires from <= |text|
    ensures from <= k <= |text|
    decreases |text| - from
  {
    if from == |text| || text[from] == c then from else IndexOfByte(text, c, from + 1)
  }

  lemma {:induction false} FirstSeparator(a: bytes, b: bytes, c: byte, from: nat)
    requires from <= |a| && forall i :: 0 <= i < |a| ==> a[i] != c
    ensures IndexOfByte(a + ([c] + b), c, from) == |a|
    decreases |a| - from
  {
    if from < |a| {
      FirstSeparator(a, b, c, from + 1);
    }
  }

  lemma CutTextAt(a: bytes, sep: bytes, b: bytes)
    requires sep != [] && forall i :: 0 <= i < |a| ==> a[i] != sep[0]
    ensures CutText(a + (sep + b), sep[0], |sep|) == (a, b)
  {
    var text := a + (sep + b);
    assert text == a + ([sep[0]] + (sep[1..] + b));
    FirstSeparator(a, sep[1..] + b, sep[0], 0);
    assert text[..|a|] == a;
    assert text[|a| + |sep|..] == b;
  }

  /** The value of a parameter among those separated by semicolons, by its name. */
  function Param(text: bytes, name: bytes): (value: Option<bytes>)
    decreases |text|
  {
    var k := IndexOfByte(text, 59, 0);
    if name + [61] <= text[..k] then Some(text[..k][|name| + 1..])
    else if k < |text| then Param(text[k + 1..], name) else None
  }

  lemma {:induction false} AbsentByte(a: bytes, c: byte, from: nat)
    requires from <= |a| && forall i :: 0 <= i < |a| ==> a[i] != c
    ensures IndexOfByte(a, c, from) == |a|
    decreases |a| - from
  {
    if from < |a| {
      AbsentByte(a, c, from + 1);
    }
  }

  /** A parameter as it is written. */
  function Named(name: bytes, value: bytes): (part: bytes) {
    name + ([61] + value)
  }

  predicate NoSemicolon(a: bytes) {
    forall i :: 0 <= i < |a| ==> a[i] != 59
  }

  lemma NamedPart(name: bytes, value: bytes)
    ensures name + [61] <= Named(name, value) && Named(name, value)[|name| + 1..] == value
  {
    Assoc(name, [61], value);
  }

  lemma ParamFirst(name: bytes, value: bytes, rest: bytes)
    requires NoSemicolon(Named(name, value))
    ensures Param(Named(name, value) + ([59] + rest), name) == Some(value)
  {
    var part := Named(name, value);
    FirstSeparator(part, rest, 59, 0);
    assert (part + ([59] + rest))[..|part|] == part;
    NamedPart(name, value);
  }

  lemma ParamOnly(name: bytes, value: bytes)
    requires NoSemicolon(Named(name, value))
    ensures Param(Named(name, value), name) == Some(value)
  {
    var part := Named(name, value);
    AbsentByte(part, 59, 0);
    assert part[..|part|] == part;
    NamedPart(name, value);
  }

  lemma ParamLater(part: bytes, rest: bytes, name: bytes)
    requires NoSemicolon(part) && !(name + [61] <= part)
    ensures Param(part + ([59] + rest), name) == Param(rest, name)
  {
    var text := part + ([59] + rest);
    FirstSeparator(part, rest, 59, 0);
    assert text[..|part|] == part && text[|part| + 1..] == rest;
  }

  lemma OtherName(part: bytes, name: bytes, i: nat)
    requires i < |name| && i < |part| && part[i] != name[i]
    ensures !(name + [61] <= part)
  {
    assert (name + [61])[i] == name[i];
  }

  lemma EncodedPart(name: bytes, nal: bytes)
    requires NoSemicolon(name)
    ensures NoSemicolon(Named(name, Base64(nal)))
  {
    EncodingHasNoSeparator(nal, 0);
  }

  function ModeName(): (name: bytes) {
    Ascii("packetization-mode")
  }

  function SetsName(): (name: bytes) {
    Ascii("sprop-parameter-sets")
  }

  lemma H264Names()
    ensures NoSemicolon(ModeName()) && NoSemicolon(SetsName()) && ModeName()[0] == 112 && SetsName()[0] == 115
    ensures Ascii("packetization-mode=1") == Named(ModeName(), Ascii("1"))
    ensures Ascii(";sprop-parameter-") + Ascii("sets=") == [59] + (SetsName() + [61])
  {
    H264ModeText();
    H264SetsText();
  }

  lemma H264ModeText()
    ensures NoSemicolon(ModeName()) && ModeName()[0] == 112
    ensures Ascii("packetization-mode=1") == Named(ModeName(), Ascii("1"))
  {
  }

  lemma H264SetsText()
    ensures NoSemicolon(SetsName()) && SetsName()[0] == 115
    ensures Ascii(";sprop-parameter-") + Ascii("sets=") == [59] + (SetsName() + [61])
  {
  }

  lemma H264Parts(sps: bytes, pps: bytes)
    ensures H264Fmtp(sps, pps)
         == Named(ModeName(), Ascii("1")) + ([59] + Named(SetsName(), Base64(sps) + ([44] + Base64(pps))))
  {
    H264Names();
    var sets := Base64(sps) + ([44] + Base64(pps));
    Assoc(Ascii("packetization-mode=1"), Ascii(";sprop-parameter-"), Ascii("sets="));
    Assoc(Ascii("packetization-mode=1"), [59] + (SetsName() + [61]), sets);
    Assoc([59], SetsName() + [61], sets);
    Assoc(SetsName(), [61], sets);
  }

  lemma PairHasNoSemicolon(sps: bytes, pps: bytes)
    ensures NoSemicolon(Named(SetsName(), Base64(sps) + ([44] + Base64(pps))))
  {
    H264Names();
    EncodingHasNoSeparator(sps, 0);
    EncodingHasNoSeparator(pps, 0);
  }

  /**
   A client that looks for `packetization-mode` finds 1, and under `sprop-parameter-sets` it
   finds the two parameter sets, apart at the comma (section 8.1 of RFC 6184).
   */
  lemma H264FmtpReads(sps: bytes, pps: bytes)
    ensures Param(H264Fmtp(sps, pps), Ascii("packetization-mode")) == Some(Ascii("1"))
    ensures match Param(H264Fmtp(sps, pps), Ascii("sprop-parameter-sets"))
      case None => false
      case Some(sets) =>
        var (left, right) := CutText(sets, 44, 1);
        Decode(left) == Some(sps) && Decode(right) == Some(pps)
  {
    var mode, sets := Named(ModeName(), Ascii("1")), Base64(sps) + ([44] + Base64(pps));
    H264Names();
    H264Parts(sps, pps);
    PairHasNoSemicolon(sps, pps);
    ModeIsWhole();
    ParamFirst(ModeName(), Ascii("1"), Named(SetsName(), sets));
    OtherName(mode, SetsName(), 0);
    ParamLater(mode, Named(SetsName(), sets), SetsName());
    ParamOnly(SetsName(), sets);
    PairReads(sps, pps);
  }

  lemma ModeIsWhole()
    ensures NoSemicolon(Named(ModeName(), Ascii("1"))) && Named(ModeName(), Ascii("1"))[0] == 112
  {
    H264Names();
    assert Ascii("1") == [49];
  }

  lemma PairReads(sps: bytes, pps: bytes)
    ensures
      var (left, right) := CutText(Base64(sps) + ([44] + Base64(pps)), 44, 1);
      Decode(left) == Some(sps) && Decode(right) == Some(pps)
  {
    EncodingHasNoSeparator(sps, 0);
    CutTextAt(Base64(sps), [44], Base64(pps));
    Base64RoundTrip(sps);
    Base64RoundTrip(pps);
  }

  lemma H265Names()
    ensures Ascii("sprop-vps=") == Ascii("sprop-vps") + [61]
    ensures Ascii(";sprop-sps=") == [59] + (Ascii("sprop-sps") + [61])
    ensures Ascii(";sprop-pps=") == [59] + (Ascii("sprop-pps") + [61])
    ensures Ascii("sprop-vps")[6] == 118 && Ascii("sprop-sps")[6] == 115 && Ascii("sprop-pps")[6] == 112
    ensures NoSemicolon(Ascii("sprop-vps")) && NoSemicolon(Ascii("sprop-sps")) && NoSemicolon(Ascii("sprop-pps"))
  {
  }

  lemma H265Parts(vps: bytes, sps: bytes, pps: bytes)
    ensures H265Fmtp(vps, sps, pps)
         == Named(Ascii("sprop-vps"), Base64(vps)) + ([59] + (Named(Ascii("sprop-sps"), Base64(sps))
            + ([59] + Named(Ascii("sprop-pps"), Base64(pps)))))
  {
    H265Names();
    LastPart(Ascii("sprop-pps"), Base64(pps));
    var tail := [59] + Named(Ascii("sprop-pps"), Base64(pps));
    MiddlePart(Ascii("sprop-sps"), Base64(sps), tail);
    Assoc(Ascii("sprop-vps"), [61], Base64(vps));
    Assoc(Ascii("sprop-vps") + [61], Base64(vps), [59] + (Named(Ascii("sprop-sps"), Base64(sps)) + tail));
  }

  lemma LastPart(name: bytes, value: bytes)
    ensures [59] + (name + [61]) + value == [59] + Named(name, value)
  {
  }

  lemma MiddlePart(name: bytes, value: bytes, tail: bytes)
    ensures [59] + (name + [61]) + (value + tail) == [59] + (Named(name, value) + tail)
  {
  }

  /** A client finds each H.265 parameter set under its name (section 7.1 of RFC 7798). */
  lemma H265FmtpReads(vps: bytes, sps: bytes, pps: bytes)
    ensures
      var text := H265Fmtp(vps, sps, pps);
      && Param(text, Ascii("sprop-vps")) == Some(Base64(vps))
      && Param(text, Ascii("sprop-sps")) == Some(Base64(sps))
      && Param(text, Ascii("sprop-pps")) == Some(Base64(pps))
      && Decode(Base64(vps)) == Some(vps) && Decode(Base64(sps)) == Some(sps) && Decode(Base64(pps)) == Some(pps)
  {
    var v, s, p := Named(Ascii("sprop-vps"), Base64(vps)), Named(Ascii("sprop-sps"), Base64(sps)),
                   Named(Ascii("sprop-pps"), Base64(pps));
    H265Parts(vps, sps, pps);
    H265Names();
    EncodedPart(Ascii("sprop-vps"), vps);
    EncodedPart(Ascii("sprop-sps"), sps);
    EncodedPart(Ascii("sprop-pps"), pps);
    ParamFirst(Ascii("sprop-vps"), Base64(vps), s + ([59] + p));
    ReadsBehind(v, s + ([59] + p), Ascii("sprop-sps"));
    ReadsBehind(v, s + ([59] + p), Ascii("sprop-pps"));
    ParamFirst(Ascii("sprop-sps"), Base64(sps), p);
    ReadsBehind(s, p, Ascii("sprop-pps"));
    ParamOnly(Ascii("sprop-pps"), Base64(pps));
    Base64RoundTrip(vps);
    Base64RoundTrip(sps);
    Base64RoundTrip(pps);
  }

  lemma ReadsBehind(part: bytes, rest: bytes, name: bytes)
    requires NoSemicolon(part) && |part| > 6 && |name| > 6 && part[6] != name[6]
    ensures Param(part + ([59] + rest), name) == Param(rest, name)
  {
    OtherName(part, name, 6);
    ParamLater(part, rest, name);
  }

  // ------------------------------------------------------------------- the cache

  datatype Sets = Sets(h264Sps: bytes, h264Pps: bytes, h265Vps: bytes, h265Sps: bytes, h265Pps: bytes)

  /** A NAL unit that is a parameter set of type `t`. */
  predicate IsSet(codec: Codec, t: nat, nal: bytes) {
    if codec.H264? then nal != [] && nal[0] % 32 == t else |nal| >= 2 && nal[0] / 2 % 64 == t
  }

  predicate SetOrNone(codec: Codec, t: nat, nal: bytes) {
    nal == [] || IsSet(codec, t, nal)
  }

  /** Each field holds nothing or a set of its own type. */
  predicate Typed(s: Sets) {
    && SetOrNone(H264, 7, s.h264Sps) && SetOrNone(H264, 8, s.h264Pps)
    && SetOrNone(H265, 32, s.h265Vps) && SetOrNone(H265, 33, s.h265Sps) && SetOrNone(H265, 34, s.h265Pps)
  }

  /** The parameter sets cached for a channel. */
  type ParameterSets = s: Sets | Typed(s) witness Sets([], [], [], [], [])

  const NO_SETS: ParameterSets := Sets([], [], [], [], [])

  /** What is sent ahead of the first key frame, empty entries included. */
  function SetsOf(sets: ParameterSets, codec: Codec): (nals: seq<bytes>) {
    if codec.H264? then [sets.h264Sps, sets.h264Pps] else [sets.h265Vps, sets.h265Sps, sets.h265Pps]
  }

  function Remember(sets: ParameterSets, codec: Codec, nal: bytes): (r: ParameterSets) {
    if nal == [] then sets
    else if codec.H264? then
      match nal[0] % 32
      case 7 => sets.(h264Sps := nal)
      case 8 => sets.(h264Pps := nal)
      case _ => sets
    else if |nal| < 2 then sets
    else
      match nal[0] / 2 % 64
      case 32 => sets.(h265Vps := nal)
      case 33 => sets.(h265Sps := nal)
      case 34 => sets.(h265Pps := nal)
      case _ => sets
  }

  function RememberAll(sets: ParameterSets, codec: Codec, nals: seq<bytes>): (r: ParameterSets) {
    if nals == [] then sets
    else Remember(RememberAll(sets, codec, nals[..|nals| - 1]), codec, nals[|nals| - 1])
  }

  /** One set of parameter sets per channel number, 0 to 4. */
  class ParameterCache {
    var byChannel: seq<ParameterSets>

    ghost predicate Valid()
      reads this
    {
      |byChannel| == 5
    }

    constructor ()
      ensures Valid() && byChannel == [NO_SETS, NO_SETS, NO_SETS, NO_SETS, NO_SETS]
    {
      byChannel := [NO_SETS, NO_SETS, NO_SETS, NO_SETS, NO_SETS];
    }

    /** Channel numbers are checked against 1..4 when channels are registered. */
    method UpdateParameterSets(frame: Frame)
      requires Valid() && 0 <= frame.channelId < 5
      modifies this
      ensures Valid()
      ensures byChannel == old(byChannel)[frame.channelId :=
                             RememberAll(old(byChannel)[frame.channelId], frame.codec, Split(frame.data))]
    {
      var nals := SplitAccessUnit(frame.data);
      ghost var before := byChannel[frame.channelId];
      assert byChannel[frame.channelId := before] == byChannel;
      assert nals[..0] == [];
      for i := 0 to |nals|
        invariant Valid()
        invariant byChannel == old(byChannel)[frame.channelId := RememberAll(before, frame.codec, nals[..i])]
      {
        assert nals[..i + 1][..i] == nals[..i];
        byChannel := byChannel[frame.channelId := Remember(byChannel[frame.channelId], frame.codec, nals[i])];
      }
      assert nals[..|nals|] == nals;
    }
  }

  /** The field that caches the sets of type `t`. */
  function Cached(sets: ParameterSets, codec: Codec, t: nat): (nal: bytes) {
    if codec.H264? then (if t == 7 then sets.h264Sps else if t == 8 then sets.h264Pps else [])
    else if t == 32 then sets.h265Vps else if t == 33 then sets.h265Sps else if t == 34 then sets.h265Pps else []
  }

  predicate SetType(codec: Codec, t: nat) {
    if codec.H264? then t == 7 || t == 8 else 32 <= t <= 34
  }

  /** The last NAL unit of type `t`, or `otherwise` when there is none. */
  function LastOf(codec: Codec, t: nat, nals: seq<bytes>, otherwise: bytes): (nal: bytes) {
    if nals == [] then otherwise
    else if IsSet(codec, t, nals[|nals| - 1]) then nals[|nals| - 1]
    else LastOf(codec, t, nals[..|nals| - 1], otherwise)
  }

  /** The cache holds, per kind, the last NAL unit of that kind; nothing else moves it. */
  lemma {:induction false} CacheHoldsLast(sets: ParameterSets, codec: Codec, nals: seq<bytes>, t: nat)
    requires SetType(codec, t)
    ensures Cached(RememberAll(sets, codec, nals), codec, t) == LastOf(codec, t, nals, Cached(sets, codec, t))
  {
    if nals != [] {
      CacheHoldsLast(sets, codec, nals[..|nals| - 1], t);
    }
  }

  /** Frames one after the other are as good as one frame with all their NAL units. */
  lemma {:induction false} CacheOverFrames(sets: ParameterSets, codec: Codec, a: seq<bytes>, b: seq<bytes>)
    ensures RememberAll(RememberAll(sets, codec, a), codec, b) == RememberAll(sets, codec, a + b)
    decreases |b|
  {
    if b == [] {
      assert a + b == a;
    } else {
      CacheOverFrames(sets, codec, a, b[..|b| - 1]);
      assert (a + b)[..|a + b| - 1] == a + b[..|b| - 1];
    }
  }
}
