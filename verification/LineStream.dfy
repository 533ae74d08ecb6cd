/** The reader's end of the helper's output: complete lines are taken from whatever
    arrives, in chunks cut anywhere. */
module LineStream {
  import opened Text
  import opened Sanitizer
  import opened ProtocolLines

  const MAX_BUFFERED_BYTES: nat := 64 * 1024

  /** The bytes a code unit takes in UTF-8; each half of a pair counts for two. */
  function Width(u: CodeUnit): nat
  {
    if u < 0x80 then 1 else if u < 0x800 then 2 else if IsHigh(u) || IsLow(u) then 2 else 3
  }

  function ByteSize(t: Text): nat
  {
    if t == [] then 0 else ByteSize(t[..|t| - 1]) + Width(t[|t| - 1])
  }

  lemma {:induction false} ByteSizeBound(t: Text)
    ensures ByteSize(t) <= 3 * |t|
  {
    if t != [] {
      ByteSizeBound(t[..|t| - 1]);
    }
  }

  // ----- complete lines -----

  /** The lines that end in a newline, without it. */
  function LinesOf(t: Text): seq<Text>
    decreases |t|
  {
    var k := IndexOf(t, NEWLINE);
    if k == |t| then [] else [t[..k]] + LinesOf(t[k + 1..])
  }

  /** What comes after the last newline. */
  function RestOf(t: Text): (r: Text)
    ensures NEWLINE !in r
    decreases |t|
  {
    var k := IndexOf(t, NEWLINE);
    if k == |t| then t else RestOf(t[k + 1..])
  }

  function TrimmedLines(lines: seq<Text>): (r: seq<Text>)
    ensures |r| == |lines|
  {
    seq(|lines|, k requires 0 <= k < |lines| => Trimmed(lines[k]))
  }

  /** A rest too long for any line is handed over as it is. */
  function Overflow(rest: Text): seq<Text>
  {
    if ByteSize(rest) > MAX_BUFFERED_BYTES then [rest] else []
  }

  class LineReader {
    var buffer: Text

    constructor ()
      ensures buffer == []
    {
      buffer := [];
    }

    /** Takes the complete lines out of the buffer; a partial last line stays for the next read. */
    method TakeCompleteLines() returns (lines: seq<Text>)
      modifies this
      ensures lines == TrimmedLines(LinesOf(old(buffer))) + Overflow(RestOf(old(buffer)))
      ensures buffer == if Overflow(RestOf(old(buffer))) == [] then RestOf(old(buffer)) else []
    {
      hide Trimmed, ByteSize, LinesOf, RestOf, TrimmedLines;
      lines := [];
      var newline := IndexOf(buffer, NEWLINE);
      while newline < |buffer|
        invariant newline == IndexOf(buffer, NEWLINE)
        invariant TrimmedLines(LinesOf(old(buffer))) == lines + TrimmedLines(LinesOf(buffer))
        invariant RestOf(old(buffer)) == RestOf(buffer)
        decreases |buffer|
      {
        TakeFirstLine(buffer);
        lines := lines + [Trimmed(buffer[..newline])];
        buffer := buffer[newline + 1..];
        newline := IndexOf(buffer, NEWLINE);
      }
      TakeFirstLine(buffer);
      if ByteSize(buffer) > MAX_BUFFERED_BYTES {
        lines := lines + [buffer];
        buffer := [];
      }
    }
  }

  /** Where the first line ends, if one does. */
  lemma FirstLineEnds(t: Text)
    ensures var k := IndexOf(t, NEWLINE);
            && (k < |t| ==> LinesOf(t) == [t[..k]] + LinesOf(t[k + 1..]) && RestOf(t) == RestOf(t[k + 1..]))
            && (k == |t| ==> LinesOf(t) == [] && RestOf(t) == t)
  {}

  lemma TakeFirstLine(t: Text)
    ensures var k := IndexOf(t, NEWLINE);
            && (k < |t| ==>
                  && TrimmedLines(LinesOf(t)) == [Trimmed(t[..k])] + TrimmedLines(LinesOf(t[k + 1..]))
                  && RestOf(t) == RestOf(t[k + 1..]))
            && (k == |t| ==> TrimmedLines(LinesOf(t)) == [] && RestOf(t) == t)
  {
    hide Trimmed, LinesOf, RestOf, TrimmedLines, IndexOf;
    var k := IndexOf(t, NEWLINE);
    FirstLineEnds(t);
    NoneTrimmed();
    if k < |t| {
      FirstTrimmed(t[..k], LinesOf(t[k + 1..]));
    }
  }

  lemma NoneTrimmed()
    ensures TrimmedLines([]) == []
  {}

  lemma FirstTrimmed(first: Text, rest: seq<Text>)
    ensures TrimmedLines([first] + rest) == [Trimmed(first)] + TrimmedLines(rest)
  {
    hide Trimmed;
  }

  // ----- any chunking -----

  datatype Reading = Reading(lines: seq<Text>, buffer: Text)

  /** What has been read after each chunk was appended and its complete lines taken. */
  function Read(chunks: seq<Text>): Reading
    decreases |chunks|
  {
    if chunks == [] then Reading([], [])
    else
      var before := Read(chunks[..|chunks| - 1]);
      var buffer := before.buffer + chunks[|chunks| - 1];
      var overflow := Overflow(RestOf(buffer));
      Reading(before.lines + TrimmedLines(LinesOf(buffer)) + overflow, if overflow == [] then RestOf(buffer) else [])
  }

  method ReadChunks(chunks: seq<Text>) returns (lines: seq<Text>, rest: Text)
    ensures Reading(lines, rest) == Read(chunks)
  {
    hide Overflow, LinesOf, RestOf;
    var reader := new LineReader();
    lines := [];
    for i := 0 to |chunks|
      invariant Reading(lines, reader.buffer) == Read(chunks[..i])
    {
      assert chunks[..i + 1][..i] == chunks[..i];
      reader.buffer := reader.buffer + chunks[i];
      var more := reader.TakeCompleteLines();
      lines := lines + more;
    }
    assert chunks[..|chunks|] == chunks;
    rest := reader.buffer;
  }

  function Concatenated(chunks: seq<Text>): Text
    decreases |chunks|
  {
    if chunks == [] then [] else Concatenated(chunks[..|chunks| - 1]) + chunks[|chunks| - 1]
  }

  lemma IndexInFront(a: Text, b: Text)
    ensures IndexOf(a, NEWLINE) < |a| ==> IndexOf(a + b, NEWLINE) == IndexOf(a, NEWLINE)
  {
    if IndexOf(a, NEWLINE) < |a| {
      var k := IndexOf(a, NEWLINE);
      assert (a + b)[k] == NEWLINE;
      assert forall i :: 0 <= i < k ==> (a + b)[i] == a[i];
    }
  }

  /** Reading on after the last newline is reading it all. */
  lemma {:induction false} LinesInParts(a: Text, b: Text)
    ensures LinesOf(a + b) == LinesOf(a) + LinesOf(RestOf(a) + b)
    ensures RestOf(a + b) == RestOf(RestOf(a) + b)
    decreases |a|
  {
    hide LinesOf, RestOf;
    var k := IndexOf(a, NEWLINE);
    FirstLineEnds(a);
    if k < |a| {
      IndexInFront(a, b);
      FirstLineEnds(a + b);
      LinesInParts(a[k + 1..], b);
      assert (a + b)[..k] == a[..k] && (a + b)[k + 1..] == a[k + 1..] + b;
    } else {
      assert LinesOf(a) + LinesOf(a + b) == LinesOf(a + b);
    }
  }

  lemma TrimmedInParts(a: seq<Text>, b: seq<Text>)
    ensures TrimmedLines(a + b) == TrimmedLines(a) + TrimmedLines(b)
  {
    hide Trimmed;
  }

  /** As long as no rest overflows, the chunks do not matter. */
  lemma {:induction false} ChunksDoNotMatter(chunks: seq<Text>)
    requires forall k :: 0 <= k <= |chunks| ==> Overflow(RestOf(Concatenated(chunks[..k]))) == []
    ensures Read(chunks) == Reading(TrimmedLines(LinesOf(Concatenated(chunks))), RestOf(Concatenated(chunks)))
    decreases |chunks|
  {
    hide Overflow, LinesOf, RestOf, TrimmedLines;
    if chunks == [] {
      FirstLineEnds([]);
      NoneTrimmed();
    } else {
      var rest, last := chunks[..|chunks| - 1], chunks[|chunks| - 1];
      assert forall k :: 0 <= k <= |rest| ==> rest[..k] == chunks[..k];
      ChunksDoNotMatter(rest);
      LinesInParts(Concatenated(rest), last);
      TrimmedInParts(LinesOf(Concatenated(rest)), LinesOf(RestOf(Concatenated(rest)) + last));
      assert chunks[..|chunks|] == chunks;
    }
  }

  // ----- a stream of lines -----

  function StreamOf(lines: seq<Text>): Text
    decreases |lines|
  {
    if lines == [] then [] else lines[0] + [NEWLINE] + StreamOf(lines[1..])
  }

  predicate AreLines(lines: seq<Text>, limit: nat)
  {
    forall k :: 0 <= k < |lines| ==> NEWLINE !in lines[k] && |lines[k]| <= limit
  }

  lemma {:induction false} StreamSplits(lines: seq<Text>, limit: nat)
    requires AreLines(lines, limit)
    ensures LinesOf(StreamOf(lines)) == lines && RestOf(StreamOf(lines)) == []
    decreases |lines|
  {
    hide LinesOf, RestOf;
    FirstLineEnds(StreamOf(lines));
    if lines != [] {
      var rest := StreamOf(lines[1..]);
      StreamSplits(lines[1..], limit);
      IndexAt(lines[0], NEWLINE, rest);
      var whole := lines[0] + [NEWLINE] + rest;
      assert whole[..|lines[0]|] == lines[0] && whole[|lines[0]| + 1..] == rest;
      assert lines == [lines[0]] + lines[1..];
    }
  }

  /** At no point is more than one line waiting for its newline. */
  lemma {:induction false} RestIsShort(lines: seq<Text>, limit: nat, part: Text)
    requires AreLines(lines, limit) && part <= StreamOf(lines)
    ensures |RestOf(part)| <= limit
    decreases |lines|
  {
    if lines != [] {
      var first, rest := lines[0], StreamOf(lines[1..]);
      var whole := first + [NEWLINE] + rest;
      if |part| <= |first| {
        assert part == whole[..|part|] == first[..|part|];
        IndexAt(part, NEWLINE, []);
      } else {
        var tail := part[|first| + 1..];
        assert part == whole[..|part|];
        assert part[..|first|] == first && part[|first|] == NEWLINE;
        assert part == first + [NEWLINE] + tail;
        IndexAt(first, NEWLINE, tail);
        assert tail == rest[..|tail|];
        RestIsShort(lines[1..], limit, tail);
      }
    }
  }

  lemma {:induction false} PartOfStream(chunks: seq<Text>, k: nat)
    requires k <= |chunks|
    ensures Concatenated(chunks[..k]) <= Concatenated(chunks)
    decreases |chunks| - k
  {
    if k < |chunks| {
      PartOfStream(chunks, k + 1);
      assert chunks[..k + 1][..k] == chunks[..k];
    } else {
      assert chunks[..k] == chunks;
    }
  }

  /** Short lines come back whole, however the stream was cut, and the overflow rule never applies. */
  lemma StreamIsRead(lines: seq<Text>, limit: nat, chunks: seq<Text>)
    requires AreLines(lines, limit) && 3 * limit <= MAX_BUFFERED_BYTES
    requires Concatenated(chunks) == StreamOf(lines)
    ensures Read(chunks) == Reading(TrimmedLines(lines), [])
  {
    hide LinesOf, RestOf, TrimmedLines, Overflow, StreamOf;
    NothingOverflows(lines, limit, chunks);
    ChunksDoNotMatter(chunks);
    StreamSplits(lines, limit);
  }

  // ----- a stream that is not all there -----

  /** A part of a stream is some whole lines and the beginning of the next. */
  lemma {:induction false} PartSplits(lines: seq<Text>, limit: nat, part: Text) returns (k: nat)
    requires AreLines(lines, limit) && part <= StreamOf(lines)
    ensures k <= |lines| && LinesOf(part) == lines[..k]
    ensures if k < |lines| then RestOf(part) <= lines[k] else RestOf(part) == []
    ensures part == StreamOf(lines[..k]) + RestOf(part)
    decreases |lines|
  {
    hide LinesOf, RestOf;
    if lines == [] {
      FirstLineEnds(part);
      k := 0;
    } else {
      var first, rest := lines[0], StreamOf(lines[1..]);
      hide StreamOf;
      if |part| <= |first| {
        PartOfFirst(first, rest, part);
        NoStream(lines);
        k := 0;
      } else {
        var tail := part[|first| + 1..];
        PartBeyondFirst(first, rest, part);
        k := PartSplits(lines[1..], limit, tail);
        assert lines[..k + 1] == [first] + lines[1..][..k];
        StreamGrows(first, lines[1..][..k]);
        k := k + 1;
      }
    }
  }

  lemma NoStream(lines: seq<Text>)
    ensures StreamOf(lines[..0]) == []
  {}

  lemma PartOfFirst(first: Text, rest: Text, part: Text)
    requires NEWLINE !in first && part <= first + [NEWLINE] + rest && |part| <= |first|
    ensures part <= first && LinesOf(part) == [] && RestOf(part) == part
  {
    assert part == (first + [NEWLINE] + rest)[..|part|] == first[..|part|];
    IndexAt(part, NEWLINE, []);
  }

  lemma PartBeyondFirst(first: Text, rest: Text, part: Text)
    requires NEWLINE !in first && part <= first + [NEWLINE] + rest && |part| > |first|
    ensures var tail := part[|first| + 1..];
            && part == first + [NEWLINE] + tail && tail <= rest
            && LinesOf(part) == [first] + LinesOf(tail) && RestOf(part) == RestOf(tail)
  {
    hide LinesOf, RestOf;
    var whole, tail := first + [NEWLINE] + rest, part[|first| + 1..];
    assert part == whole[..|part|];
    assert part == first + [NEWLINE] + tail;
    assert tail == rest[..|tail|];
    IndexAt(first, NEWLINE, tail);
    FirstLineEnds(part);
    assert part[..|first|] == first;
  }

  lemma StreamGrows(first: Text, rest: seq<Text>)
    ensures StreamOf([first] + rest) == first + [NEWLINE] + StreamOf(rest)
  {
    assert ([first] + rest)[1..] == rest;
  }

  /** The lines taken so far from a part of a stream are its first lines, whatever the chunks; what is left over is
      the beginning of the next line. */
  lemma PartIsRead(lines: seq<Text>, limit: nat, chunks: seq<Text>) returns (k: nat)
    requires AreLines(lines, limit) && 3 * limit <= MAX_BUFFERED_BYTES
    requires Concatenated(chunks) <= StreamOf(lines)
    ensures k <= |lines| && Read(chunks).lines == TrimmedLines(lines[..k])
    ensures var rest := Read(chunks).buffer; if k < |lines| then rest <= lines[k] else rest == []
    ensures Concatenated(chunks) == StreamOf(lines[..k]) + Read(chunks).buffer
  {
    hide LinesOf, RestOf, TrimmedLines, Overflow;
    NothingOverflows(lines, limit, chunks);
    ChunksDoNotMatter(chunks);
    k := PartSplits(lines, limit, Concatenated(chunks));
  }

  lemma NothingOverflows(lines: seq<Text>, limit: nat, chunks: seq<Text>)
    requires AreLines(lines, limit) && 3 * limit <= MAX_BUFFERED_BYTES
    requires Concatenated(chunks) <= StreamOf(lines)
    ensures forall k :: 0 <= k <= |chunks| ==> Overflow(RestOf(Concatenated(chunks[..k]))) == []
  {
    hide ByteSize, RestOf, Concatenated, StreamOf;
    forall k | 0 <= k <= |chunks|
      ensures Overflow(RestOf(Concatenated(chunks[..k]))) == []
    {
      PartOfStream(chunks, k);
      RestIsShort(lines, limit, Concatenated(chunks[..k]));
      ByteSizeBound(RestOf(Concatenated(chunks[..k])));
    }
  }

  lemma {:induction false} StreamEnds(lines: seq<Text>, last: Text)
    ensures StreamOf(lines + [last]) == StreamOf(lines) + (last + [NEWLINE])
    decreases |lines|
  {
    if lines == [] {
      assert [] + [last] == [last] && [last][1..] == [];
      assert StreamOf([last]) == last + [NEWLINE] + StreamOf([]);
    } else {
      StreamEnds(lines[1..], last);
      assert (lines + [last])[1..] == lines[1..] + [last];
    }
  }

  /** A stream whose last line was cut short gives all its whole lines, and the cut one is left over. */
  lemma CutStreamIsRead(lines: seq<Text>, limit: nat, fragment: Text, chunks: seq<Text>)
    requires AreLines(lines, limit) && 3 * limit <= MAX_BUFFERED_BYTES
    requires NEWLINE !in fragment && |fragment| <= limit
    requires Concatenated(chunks) == StreamOf(lines) + fragment
    ensures Read(chunks) == Reading(TrimmedLines(lines), fragment)
  {
    hide LinesOf, RestOf, TrimmedLines, Overflow, StreamOf;
    var all := lines + [fragment];
    StreamEnds(lines, fragment);
    assert StreamOf(all) == Concatenated(chunks) + [NEWLINE];
    NothingOverflows(all, limit, chunks);
    ChunksDoNotMatter(chunks);
    StreamSplits(lines, limit);
    LinesInParts(StreamOf(lines), fragment);
    assert [] + fragment == fragment;
    IndexAt(fragment, NEWLINE, []);
    FirstLineEnds(fragment);
    assert lines + [] == lines;
  }

  // ----- a stream of messages -----

  const LINE_LIMIT: nat := MAX_PROTOCOL_TEXT + 100

  function EncodedLines(messages: seq<ProtocolLine>): (lines: seq<Text>)
    requires forall k :: 0 <= k < |messages| ==> IsSendable(messages[k])
    ensures |lines| == |messages|
  {
    seq(|messages|, k requires 0 <= k < |messages| && IsSendable(messages[k]) => Encoded(messages[k]))
  }

  function ReceivedMessages(messages: seq<ProtocolLine>): (r: seq<ProtocolLine>)
    ensures |r| == |messages|
  {
    seq(|messages|, k requires 0 <= k < |messages| => Received(messages[k]))
  }

  function ParsedLines(lines: seq<Text>): (r: seq<ProtocolLine>)
    ensures |r| == |lines|
  {
    seq(|lines|, k requires 0 <= k < |lines| => Parsed(lines[k]))
  }

  lemma {:induction false} DecimalIsShort(n: nat, digits: nat)
    requires digits > 0 && n < PowerOfTen(digits)
    ensures |Decimal(n)| <= digits
    decreases digits
  {
    if n >= 10 {
      DecimalIsShort(n / 10, digits - 1);
    }
  }

  function PowerOfTen(k: nat): nat
  {
    if k == 0 then 1 else 10 * PowerOfTen(k - 1)
  }

  lemma NumberIsShort(n: int)
    requires Is32Bit(n)
    ensures 0 < |SignedDecimal(n)| <= 11 && NEWLINE !in SignedDecimal(n)
  {
    assert PowerOfTen(3) == 1000;
    assert PowerOfTen(6) == 1000_000;
    assert PowerOfTen(9) == 1000_000_000;
    DecimalIsShort(if n < 0 then -n else n, 10);
    NumberIsPlain(n);
    hide Decimal;
  }

  /** No message can hold a newline, and none is long. */
  lemma EncodedIsOneLine(message: ProtocolLine)
    requires IsSendable(message)
    ensures NEWLINE !in Encoded(message) && 0 < |Encoded(message)| <= LINE_LIMIT
  {
    hide SignedDecimal, Sanitized;
    Keywords();
    KeywordIsPlain(VERSION_KEYWORD);
    KeywordIsPlain(STEP_KEYWORD);
    KeywordIsPlain(DETAIL_KEYWORD);
    KeywordIsPlain(FAILURE_KEYWORD);
    KeywordIsPlain(RESULT_KEYWORD);
    match message
    case Version(version, appVersion, totalSteps, firstDestructiveStep) =>
      KeywordIsPlain(APP_KEY);
      KeywordIsPlain(STEPS_KEY);
      KeywordIsPlain(DESTRUCTIVE_KEY);
      NumberIsShort(version);
      NumberIsShort(totalSteps);
      NumberIsShort(firstDestructiveStep);
      SanitizedEnds(appVersion);
    case Step(step, total, text) =>
      NumberIsShort(step);
      NumberIsShort(total);
      SanitizedEnds(text);
    case Detail(text) => SanitizedEnds(text);
    case Failure(text) => SanitizedEnds(text);
    case Result(text) => SanitizedEnds(text);
  }

  lemma EncodedAreLines(messages: seq<ProtocolLine>)
    requires forall i :: 0 <= i < |messages| ==> IsSendable(messages[i])
    ensures AreLines(EncodedLines(messages), LINE_LIMIT)
  {
    hide Encoded;
    forall i | 0 <= i < |messages|
      ensures NEWLINE !in EncodedLines(messages)[i] && |EncodedLines(messages)[i]| <= LINE_LIMIT
    {
      EncodedIsOneLine(messages[i]);
    }
  }

  lemma TrimmedTwice(t: Text)
    ensures Parsed(Trimmed(t)) == Parsed(t)
  {
    TrimmedKeeps(Trimmed(t));
    hide Trimmed;
  }

  /** Any messages, written as lines and cut anywhere, arrive as those messages with sanitised text: as many
      as were sent, in order, and nothing left over. */
  lemma MessagesArrive(messages: seq<ProtocolLine>, chunks: seq<Text>)
    requires forall k :: 0 <= k < |messages| ==> IsSendable(messages[k])
    requires Concatenated(chunks) == StreamOf(EncodedLines(messages))
    ensures ParsedLines(Read(chunks).lines) == ReceivedMessages(messages)
    ensures Read(chunks).buffer == []
  {
    hide Parsed, Trimmed, Encoded, Received, Read, StreamOf, Concatenated;
    var lines := EncodedLines(messages);
    forall k | 0 <= k < |lines|
      ensures Parsed(Trimmed(lines[k])) == Received(messages[k])
    {
      EncodedIsRead(messages[k]);
      TrimmedTwice(lines[k]);
    }
    EncodedAreLines(messages);
    StreamIsRead(lines, LINE_LIMIT, chunks);
  }
}
