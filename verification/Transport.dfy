/** The numbers of a Transport field, in every form a formatted read accepts or refuses. */
module Transport {
  import opened Bytes
  import opened Text
  import opened Control

  ghost predicate Spaces(s: bytes) {
    forall i :: 0 <= i < |s| ==> s[i] == 32 || 9 <= s[i] <= 13
  }

  ghost predicate NoSpaceAhead(s: bytes) {
    s == [] || !(s[0] == 32 || 9 <= s[0] <= 13)
  }

  lemma {:induction false} SkipSpaces(blanks: bytes, rest: bytes)
    requires Spaces(blanks) && NoSpaceAhead(rest)
    ensures SkipBlanks(blanks + rest) == rest
  {
    if blanks == [] {
      assert blanks + rest == rest;
    } else {
      assert (blanks + rest)[1..] == blanks[1..] + rest;
      SkipSpaces(blanks[1..], rest);
    }
  }

  predicate IsSign(sign: bytes) {
    sign == [] || sign == Ascii("+") || sign == Ascii("-")
  }

  /** Where a number ends, or fails to begin. */
  ghost predicate Cut(sign: bytes, digits: bytes, rest: bytes) {
    && (rest == [] || !IsDigit(rest[0]))
    && (sign == [] && digits == [] ==> NoSpaceAhead(rest) && (rest == [] || (rest[0] != 43 && rest[0] != 45)))
  }

  /** Blanks, a sign or none, digits or none, and what follows. */
  function NumberText(blanks: bytes, sign: bytes, digits: bytes, rest: bytes): (text: bytes) {
    blanks + (sign + (digits + rest))
  }

  /** The number, if there are digits and it fits 32 bits. */
  function Value(sign: bytes, digits: bytes): (n: Option<int>)
    requires AllDigits(digits)
  {
    var magnitude: int := DecimalValue(digits);
    var n := if sign == [45] then -magnitude else magnitude;
    if digits == [] || n < -2147483648 || n > 2147483647 then None else Some(n)
  }

  lemma SignTexts()
    ensures Ascii("+") == [43] && Ascii("-") == [45]
  {
  }

  lemma SignAhead(sign: bytes, digits: bytes, rest: bytes)
    requires IsSign(sign) && AllDigits(digits) && Cut(sign, digits, rest)
    ensures NoSpaceAhead(sign + (digits + rest))
  {
    SignTexts();
    var t := sign + (digits + rest);
    if sign == [] {
      assert t == digits + rest;
      assert digits != [] ==> IsDigit(t[0]);
    }
  }

  lemma ScanPlain(s: bytes, digits: bytes, rest: bytes)
    requires AllDigits(digits) && Cut([], digits, rest) && SkipBlanks(s) == digits + rest
    ensures ScanInt(s) == match Value([], digits) case None => None case Some(n) => Some((n, rest))
  {
    var t := digits + rest;
    DigitsOf(digits, rest);
    assert digits != [] ==> IsDigit(t[0]);
    assert t[|digits|..] == rest;
  }

  lemma ScanSigned(s: bytes, sign: byte, digits: bytes, rest: bytes)
    requires (sign == 43 || sign == 45) && AllDigits(digits) && Cut([sign], digits, rest)
    requires SkipBlanks(s) == [sign] + (digits + rest)
    ensures ScanInt(s) == match Value([sign], digits) case None => None case Some(n) => Some((n, rest))
  {
    var t := [sign] + (digits + rest);
    DigitsOf(digits, rest);
    assert t[1..] == digits + rest;
    assert t[1 + |digits|..] == rest;
  }

  /** Reading a number from any text: blanks are skipped, a sign is allowed, and 32 bits are the limit. */
  lemma ScanIntMeaning(blanks: bytes, sign: bytes, digits: bytes, rest: bytes)
    requires Spaces(blanks) && IsSign(sign) && AllDigits(digits) && Cut(sign, digits, rest)
    ensures ScanInt(NumberText(blanks, sign, digits, rest)) ==
      match Value(sign, digits)
      case None => None
      case Some(n) => Some((n, rest))
  {
    var s := NumberText(blanks, sign, digits, rest);
    SignTexts();
    SignAhead(sign, digits, rest);
    SkipSpaces(blanks, sign + (digits + rest));
    if sign == [] {
      assert sign + (digits + rest) == digits + rest;
      ScanPlain(s, digits, rest);
    } else {
      ScanSigned(s, sign[0], digits, rest);
    }
  }

  lemma {:induction false} SpacesAhead(s: bytes) returns (blanks: bytes, rest: bytes)
    ensures s == blanks + rest && Spaces(blanks) && NoSpaceAhead(rest)
  {
    if NoSpaceAhead(s) {
      blanks, rest := [], s;
    } else {
      blanks, rest := SpacesAhead(s[1..]);
      blanks := [s[0]] + blanks;
    }
  }

  lemma {:induction false} DigitsAhead(s: bytes) returns (digits: bytes, rest: bytes)
    ensures s == digits + rest && AllDigits(digits) && (rest == [] || !IsDigit(rest[0]))
  {
    if s == [] || !IsDigit(s[0]) {
      digits, rest := [], s;
    } else {
      digits, rest := DigitsAhead(s[1..]);
      digits := [s[0]] + digits;
    }
  }

  /** Every text is of that form. */
  lemma EveryNumberText(s: bytes) returns (blanks: bytes, sign: bytes, digits: bytes, rest: bytes)
    ensures s == NumberText(blanks, sign, digits, rest)
    ensures Spaces(blanks) && IsSign(sign) && AllDigits(digits) && Cut(sign, digits, rest)
  {
    var t;
    SignTexts();
    blanks, t := SpacesAhead(s);
    if t != [] && (t[0] == 43 || t[0] == 45) {
      digits, rest := DigitsAhead(t[1..]);
      sign := [t[0]];
      assert t == sign + (digits + rest);
    } else {
      digits, rest := DigitsAhead(t);
      sign := [];
      assert t == sign + (digits + rest);
    }
  }

  /**
   The channels behind `interleaved=`: two numbers with a dash between them and blanks allowed
   before each part, both within 0..255 and different; anything else is refused.
   */
  lemma ChannelsMeaning(first: bytes, rtp: int, blanks: bytes, separator: byte, second: bytes)
    requires ScanInt(first) == Some((rtp, blanks + ([separator] + second)))
    requires Spaces(blanks) && separator != 32 && !(9 <= separator <= 13)
    ensures ParseChannels(first) ==
      match ScanInt(second)
      case None => None
      case Some((rtcp, _)) =>
        if separator == 45 && 0 <= rtp <= 255 && 0 <= rtcp <= 255 && rtp != rtcp then Some((rtp, rtcp)) else None
  {
    SkipSpaces(blanks, [separator] + second);
    assert ([separator] + second)[1..] == second;
  }

  /** No number, or nothing but blanks behind it. */
  lemma ChannelsMissing(first: bytes)
    ensures ScanInt(first) == None ==> ParseChannels(first) == None
    ensures forall n, blanks :: ScanInt(first) == Some((n, blanks)) && Spaces(blanks) ==> ParseChannels(first) == None
  {
    forall n, blanks | ScanInt(first) == Some((n, blanks)) && Spaces(blanks) ensures ParseChannels(first) == None {
      assert blanks + [] == blanks;
      SkipSpaces(blanks, []);
    }
  }
}
