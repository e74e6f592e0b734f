/** Requests as clients write them: the framer cuts out each one whole, and its method and fields are read as written. */
module Requests {
  import opened Bytes
  import opened Text
  import opened Framer
  import opened FramerTheorems
  import opened Responses
  import opened Control
  import opened Handshake
  import opened Transport

  /** The methods a message may start with (section 10 of RFC 2326). */
  predicate IsMethod(word: bytes) {
    IsShortMethod(word) || IsLongMethod(word)
  }

  predicate IsShortMethod(word: bytes) {
    || word == Ascii("OPTIONS") || word == Ascii("DESCRIBE") || word == Ascii("SETUP") || word == Ascii("PLAY")
    || word == Ascii("PAUSE")
  }

  predicate IsLongMethod(word: bytes) {
    || word == Ascii("TEARDOWN") || word == Ascii("GET_PARAMETER") || word == Ascii("SET_PARAMETER")
    || word == Ascii("ANNOUNCE") || word == Ascii("RECORD")
  }

  /** A request line with the given first word, header fields, and a length field if there is a body. */
  function RequestLines(word: bytes, tail: bytes, fields: seq<bytes>, body: bytes): (lines: seq<bytes>) {
    [word + ([32] + tail)] + (fields + BodyLines(body))
  }

  function RequestText(word: bytes, tail: bytes, fields: seq<bytes>, body: bytes): (text: bytes) {
    HeaderBlock(RequestLines(word, tail, fields, body)) + body
  }

  // ------------------------------------------------------------ cut out whole

  lemma Spaced(name: string, spaced: string, tail: bytes)
    requires spaced == name + " "
    ensures Ascii(spaced) <= Ascii(name) + ([32] + tail)
  {
    assert Ascii(spaced) == Ascii(name) + [32];
    Assoc(Ascii(name), [32], tail);
  }

  lemma ShortMethods(word: bytes, tail: bytes)
    requires IsShortMethod(word)
    ensures RequestWord(word + ([32] + tail))
  {
    Spaced("OPTIONS", "OPTIONS ", tail);
    Spaced("DESCRIBE", "DESCRIBE ", tail);
    Spaced("SETUP", "SETUP ", tail);
    Spaced("PLAY", "PLAY ", tail);
    Spaced("PAUSE", "PAUSE ", tail);
  }

  lemma LongMethods(word: bytes, tail: bytes)
    requires IsLongMethod(word)
    ensures RequestWord(word + ([32] + tail))
  {
    Spaced("TEARDOWN", "TEARDOWN ", tail);
    Spaced("GET_PARAMETER", "GET_PARAMETER ", tail);
    Spaced("SET_PARAMETER", "SET_PARAMETER ", tail);
    Spaced("ANNOUNCE", "ANNOUNCE ", tail);
    Spaced("RECORD", "RECORD ", tail);
  }

  lemma Letters(name: string)
    requires NoCrText(name) && name != "" && name[0] as int < 256 && LowerByte(name[0] as int) != 99
    ensures NoCr(Ascii(name)) && Ascii(name) != [] && LowerByte(Ascii(name)[0]) != 99
  {
    AsciiNoCr(name);
  }

  lemma MethodLetters(word: bytes)
    requires IsMethod(word)
    ensures NoCr(word) && word != [] && LowerByte(word[0]) != 99
  {
    if IsShortMethod(word) {
      ShortLetters(word);
    } else {
      LongLetters(word);
    }
  }

  lemma ShortLetters(word: bytes)
    requires IsShortMethod(word)
    ensures NoCr(word) && word != [] && LowerByte(word[0]) != 99
  {
    Letters("OPTIONS");
    Letters("DESCRIBE");
    Letters("SETUP");
    Letters("PLAY");
    Letters("PAUSE");
  }

  lemma LongLetters(word: bytes)
    requires IsLongMethod(word)
    ensures NoCr(word) && word != [] && LowerByte(word[0]) != 99
  {
    Letters("TEARDOWN");
    Letters("GET_PARAMETER");
    Letters("SET_PARAMETER");
    Letters("ANNOUNCE");
    Letters("RECORD");
  }

  lemma RequestLineClean(word: bytes, tail: bytes)
    requires NoCr(word) && word != [] && LowerByte(word[0]) != 99 && NoCrlf(tail)
    ensures CleanLine(word + ([32] + tail))
  {
    var line := word + ([32] + tail);
    assert NoCr([32]);
    NoCrlfBehind([32], tail);
    NoCrlfBehind(word, [32] + tail);
    assert line[0] == word[0] && CONTENT_LENGTH[0] == 67;
    OtherField(line, 0);
  }

  lemma RequestDeclares(line: bytes, fields: seq<bytes>, body: bytes)
    requires CleanLine(line) && AllClean(fields) && |body| <= MAX_INT
    ensures AllGood([line] + (fields + BodyLines(body)))
    ensures ContentLength(HeaderBlock([line] + (fields + BodyLines(body)))) == |body|
  {
    Assoc([line], fields, BodyLines(body));
    assert AllClean([line] + fields);
    LengthLineIsGood(|body|);
    LengthLineParses(|body|);
    BlockLength([line] + fields, BodyLines(body));
  }

  lemma BlockIsStart(lines: seq<bytes>, body: bytes)
    requires lines != [] && RequestWord(lines[0])
    ensures RequestWord(HeaderBlock(lines) + body) && IsRtspStart(HeaderBlock(lines) + body)
  {
    BlockCons(lines, body);
    assert lines[0] <= HeaderBlock(lines) + body;
    RtspStartMeaning(HeaderBlock(lines) + body);
  }

  lemma BlockIsWellFormed(lines: seq<bytes>, body: bytes, limits: Limits)
    requires lines != [] && AllGood(lines) && RequestWord(lines[0])
    requires ContentLength(HeaderBlock(lines)) == |body| <= limits.maxBody && |HeaderBlock(lines)| <= limits.maxHeader
    ensures WellFormed(HeaderBlock(lines) + body, limits)
  {
    var text := HeaderBlock(lines) + body;
    BlankLineFound(lines, body);
    BlockIsStart(lines, body);
    RtspStartIsNotDollar(text);
    assert text[..|HeaderBlock(lines)|] == HeaderBlock(lines);
  }

  /**
   Every request with one of the ten methods, clean fields and its declared body, within the
   limits, is one message, and is cut out whole whatever follows it.
   */
  lemma RequestIsExtracted(word: bytes, tail: bytes, fields: seq<bytes>, body: bytes, rest: bytes, limits: Limits)
    requires IsMethod(word) && NoCrlf(tail) && AllClean(fields)
    requires |HeaderBlock(RequestLines(word, tail, fields, body))| <= limits.maxHeader
    requires |body| <= limits.maxBody && |body| <= MAX_INT
    ensures WellFormed(RequestText(word, tail, fields, body), limits)
    ensures Extract(RequestText(word, tail, fields, body) + rest, limits)
         == Message(RequestText(word, tail, fields, body), rest)
  {
    var line := word + ([32] + tail);
    MethodLetters(word);
    RequestLineClean(word, tail);
    if IsShortMethod(word) {
      ShortMethods(word, tail);
    } else {
      LongMethods(word, tail);
    }
    RequestDeclares(line, fields, body);
    BlockIsWellFormed([line] + (fields + BodyLines(body)), body, limits);
    FirstMessage(RequestText(word, tail, fields, body), rest, limits);
  }

  // ---------------------------------------------------------- the request line

  /** No blank in it. */
  ghost predicate Solid(word: bytes) {
    forall i :: 0 <= i < |word| ==> word[i] != 32 && !(9 <= word[i] <= 13)
  }

  /** A line as its first word and what is around it; only a blank line has no word. */
  ghost predicate FirstWord(line: bytes, blanks: bytes, word: bytes, tail: bytes) {
    && line == blanks + (word + tail) && Spaces(blanks) && Solid(word)
    && (tail == [] || (word != [] && !NoSpaceAhead(tail)))
  }

  lemma {:induction false} WordEnds(word: bytes, tail: bytes)
    requires Solid(word) && (tail == [] || !NoSpaceAhead(tail))
    ensures Word(word + tail) == word
  {
    var s := word + tail;
    if word == [] {
      assert s == tail;
    } else {
      assert s[1..] == word[1..] + tail;
      WordEnds(word[1..], tail);
      assert [word[0]] + word[1..] == word;
    }
  }

  lemma WordReads(line: bytes, blanks: bytes, word: bytes, tail: bytes)
    requires FirstWord(line, blanks, word, tail)
    ensures Word(SkipBlanks(line)) == word
  {
    var s := word + tail;
    assert word != [] ==> s[0] == word[0];
    SkipSpaces(blanks, s);
    WordEnds(word, tail);
  }

  lemma {:induction false} SolidAhead(s: bytes) returns (word: bytes, tail: bytes)
    ensures s == word + tail && Solid(word) && (tail == [] || !NoSpaceAhead(tail))
    ensures NoSpaceAhead(s) && s != [] ==> word != []
  {
    if s == [] || !NoSpaceAhead(s) {
      word, tail := [], s;
    } else {
      word, tail := SolidAhead(s[1..]);
      word := [s[0]] + word;
    }
  }

  /** Every line has its first word. */
  lemma EveryFirstWord(line: bytes) returns (blanks: bytes, word: bytes, tail: bytes)
    ensures FirstWord(line, blanks, word, tail)
  {
    var rest;
    blanks, rest := SpacesAhead(line);
    word, tail := SolidAhead(rest);
  }

  lemma FirstLineOf(lines: seq<bytes>, body: bytes)
    requires lines != [] && GoodLine(lines[0])
    ensures FirstLine(HeaderBlock(lines) + body) == lines[0]
  {
    var rest := HeaderBlock(lines[1..]) + body;
    BlockCons(lines, body);
    FindAfterLine(lines[0], rest);
    assert (lines[0] + (CRLF + rest))[..|lines[0]|] == lines[0];
  }

  /** The words the server acts on, each told from every other word. */
  ghost predicate VerbIs(verb: Verb, word: bytes) {
    && (verb == OPTIONS <==> word == Ascii("OPTIONS"))
    && (verb == DESCRIBE <==> word == Ascii("DESCRIBE"))
    && (verb == SETUP <==> word == Ascii("SETUP"))
    && (verb == PLAY <==> word == Ascii("PLAY"))
    && (verb == TEARDOWN <==> word == Ascii("TEARDOWN"))
    && (verb == GET_PARAMETER <==> word == Ascii("GET_PARAMETER"))
  }

  lemma VerbOfWord(word: bytes)
    ensures VerbIs(VerbOf(word), word)
  {
    assert |Ascii("OPTIONS")| == 7 && |Ascii("DESCRIBE")| == |Ascii("TEARDOWN")| == 8;
    assert |Ascii("SETUP")| == 5 && |Ascii("PLAY")| == 4 && |Ascii("GET_PARAMETER")| == 13;
    assert Ascii("DESCRIBE")[0] == 68 && Ascii("TEARDOWN")[0] == 84;
  }

  // ----------------------------------------------------------------- the fields

  /** The line is a field of that name, in letters of either case. */
  predicate Names(line: bytes, name: bytes) {
    |line| > |name| && SameButCase(line[..|name|], name) && line[|name|] == 58
  }

  lemma NamesMeaning(line: bytes, name: bytes)
    ensures Names(line, name) <==> StartsWithCi(line, name + [58])
  {
    var n := |name|;
    StartsWithCiMeaning(line, name + [58]);
    if |line| > n {
      var long, short := line[..n + 1], line[..n];
      assert forall i :: 0 <= i < n ==> long[i] == short[i] && (name + [58])[i] == name[i];
      assert long[n] == line[n] && (name + [58])[n] == 58;
      assert SameLetter(long[n], 58) <==> long[n] == 58;
    }
  }

  /** The value of the first field of that name, without the blanks around it, or nothing if there is none. */
  ghost predicate FieldIs(lines: seq<bytes>, name: bytes, value: bytes) {
    || (value == [] && forall i :: 0 <= i < |lines| ==> !Names(lines[i], name))
    || exists k :: && 0 <= k < |lines| && Names(lines[k], name) && value == Trim(lines[k][|name| + 1..])
                   && forall i :: 0 <= i < k ==> !Names(lines[i], name)
  }

  lemma {:induction false} AbsentField(lines: seq<bytes>, name: bytes)
    requires AllGood(lines) && forall i :: 0 <= i < |lines| ==> !Names(lines[i], name)
    ensures HeaderField(HeaderBlock(lines), name) == []
  {
    if lines == [] {
      NothingIn(name);
    } else {
      NamesMeaning(lines[0], name);
      FieldLater(lines[0], HeaderBlock(lines[1..]), name);
      AbsentField(lines[1..], name);
    }
  }

  lemma NothingIn(name: bytes)
    ensures HeaderField(CRLF, name) == []
  {
    assert CrlfAt(CRLF, 0) && FirstLine(CRLF) == [];
    assert CRLF[2..] == [];
    var none: bytes := [];
    assert HeaderField(none, name) == [];
  }

  lemma FirstNamed(lines: seq<bytes>, name: bytes) returns (k: nat)
    ensures k <= |lines| && forall i :: 0 <= i < k ==> !Names(lines[i], name)
    ensures k < |lines| ==> Names(lines[k], name)
  {
    k := 0;
    while k < |lines| && !Names(lines[k], name)
      invariant k <= |lines| && forall i :: 0 <= i < k ==> !Names(lines[i], name)
    {
      k := k + 1;
    }
  }

  /** The field of a header is the one its lines say. */
  lemma FieldReads(lines: seq<bytes>, name: bytes)
    requires AllGood(lines)
    ensures FieldIs(lines, name, HeaderField(HeaderBlock(lines), name))
  {
    var k := FirstNamed(lines, name);
    if k == |lines| {
      AbsentField(lines, name);
    } else {
      forall i | 0 <= i <= k ensures Names(lines[i], name) <==> StartsWithCi(lines[i], name + [58]) {
        NamesMeaning(lines[i], name);
      }
      FieldOfBlock(lines, name, k);
    }
  }

  /**
   Any request with any first line: what the server reads from it is the verb its first word
   spells and the values of its CSeq, Transport and Session lines.
   */
  lemma RequestReads(line: bytes, blanks: bytes, word: bytes, tail: bytes, fields: seq<bytes>, body: bytes, channel: int,
                     registered: int, sdp: bytes, freshId: bytes)
    requires GoodLine(line) && FirstWord(line, blanks, word, tail) && AllGood(fields)
    ensures
      var lines := [line] + fields;
      var q := Read(HeaderBlock(lines) + body, channel, registered, sdp, freshId);
      && VerbIs(q.verb, word)
      && FieldIs(lines, Ascii("CSeq"), q.cseq)
      && FieldIs(lines, Ascii("Transport"), q.transport)
      && FieldIs(lines, Ascii("Session"), q.session)
  {
    var lines := [line] + fields;
    AllGoodConcat([line], fields);
    HeaderPartOfReply(lines, body);
    FirstLineOf(lines, body);
    WordReads(line, blanks, word, tail);
    VerbOfWord(word);
    FieldReads(lines, Ascii("CSeq"));
    FieldReads(lines, Ascii("Transport"));
    FieldReads(lines, Ascii("Session"));
  }
}
