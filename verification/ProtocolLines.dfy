/** The helper's lines: how messages are written, and how a line is understood. */
module ProtocolLines {
  import opened Wrappers
  import opened Text
  import opened Sanitizer
  import opened RestorePlan

  const SLASH: CodeUnit := 0x2F
  const NEWLINE: CodeUnit := 0x0A

  // "version"
  const VERSION_KEYWORD: Text := [0x76, 0x65, 0x72, 0x73, 0x69, 0x6F, 0x6E]
  // "step"
  const STEP_KEYWORD: Text := [0x73, 0x74, 0x65, 0x70]
  // "detail"
  const DETAIL_KEYWORD: Text := [0x64, 0x65, 0x74, 0x61, 0x69, 0x6C]
  // "failure"
  const FAILURE_KEYWORD: Text := [0x66, 0x61, 0x69, 0x6C, 0x75, 0x72, 0x65]
  // "result"
  const RESULT_KEYWORD: Text := [0x72, 0x65, 0x73, 0x75, 0x6C, 0x74]
  // "app"
  const APP_KEY: Text := [0x61, 0x70, 0x70]
  // "steps"
  const STEPS_KEY: Text := [0x73, 0x74, 0x65, 0x70, 0x73]
  // "destructive"
  const DESTRUCTIVE_KEY: Text := [0x64, 0x65, 0x73, 0x74, 0x72, 0x75, 0x63, 0x74, 0x69, 0x76, 0x65]

  datatype ProtocolLine =
    | Unknown
    | Version(version: int, appVersion: Text, totalSteps: int, firstDestructiveStep: int)
    | Step(step: int, total: int, text: Text)
    | Detail(text: Text)
    | Failure(text: Text)
    | Result(text: Text)

  // ----- writing -----

  /** A message as a line, without its newline. Texts are sanitised on the way. */
  function Encoded(message: ProtocolLine): Text
    requires !message.Unknown?
  {
    match message
    case Version(version, appVersion, totalSteps, firstDestructiveStep) =>
      var app := Sanitized(appVersion);
      var start := VERSION_KEYWORD + [SPACE] + SignedDecimal(version);
      var middle := if app != [] && SPACE !in app then start + [SPACE] + APP_KEY + [SPACE] + app else start;
      middle + [SPACE] + STEPS_KEY + [SPACE] + SignedDecimal(totalSteps)
      + [SPACE] + DESTRUCTIVE_KEY + [SPACE] + SignedDecimal(firstDestructiveStep)
    case Step(step, totalSteps, text) =>
      STEP_KEYWORD + [SPACE] + SignedDecimal(step) + [SLASH] + SignedDecimal(totalSteps) + [SPACE] + Sanitized(text)
    case Detail(text) => DETAIL_KEYWORD + [SPACE] + Sanitized(text)
    case Failure(text) => FAILURE_KEYWORD + [SPACE] + Sanitized(text)
    case Result(text) => RESULT_KEYWORD + [SPACE] + Sanitized(text)
  }

  // ----- splitting -----

  function IndexOf(t: Text, u: CodeUnit): (k: nat)
    ensures k <= |t| && (forall i :: 0 <= i < k ==> t[i] != u) && (k < |t| ==> t[k] == u)
  {
    if t == [] || t[0] == u then 0 else 1 + IndexOf(t[1..], u)
  }

  lemma IndexAt(t: Text, u: CodeUnit, rest: Text)
    requires u !in t
    ensures IndexOf(t, u) == |t|
    ensures IndexOf(t + [u] + rest, u) == |t|
  {
    var whole := t + [u] + rest;
    var k := IndexOf(whole, u);
    assert whole[|t|] == u;
    assert forall i :: 0 <= i < |t| ==> whole[i] == t[i];
  }

  /** The parts between separators, empty ones included. */
  function SplitAt(t: Text, u: CodeUnit): (parts: seq<Text>)
    ensures parts != []
    decreases |t|
  {
    var k := IndexOf(t, u);
    if k == |t| then [t] else [t[..k]] + SplitAt(t[k + 1..], u)
  }

  /** The non-empty parts between separators. */
  function Words(t: Text, u: CodeUnit): seq<Text>
    decreases |t|
  {
    var k := IndexOf(t, u);
    var first := if k > 0 then [t[..k]] else [];
    if k == |t| then first else first + Words(t[k + 1..], u)
  }

  lemma WordsOfPair(word: Text, u: CodeUnit, rest: Text)
    requires word != [] && u !in word
    ensures Words(word, u) == [word]
    ensures Words(word + [u] + rest, u) == [word] + Words(rest, u)
  {
    IndexAt(word, u, rest);
    assert word[..|word|] == word;
    var whole := word + [u] + rest;
    assert whole[..|word|] == word && whole[|word| + 1..] == rest;
  }

  lemma SplitPair(a: Text, u: CodeUnit, b: Text)
    requires u !in a && u !in b
    ensures SplitAt(a + [u] + b, u) == [a, b]
  {
    IndexAt(a, u, b);
    IndexAt(b, u, []);
    var whole := a + [u] + b;
    assert whole[..|a|] == a && whole[|a| + 1..] == b;
    assert SplitAt(b, u) == [b];
  }

  // ----- reading -----

  /** One by one, the details of a version line; nothing once one is malformed or repeated. */
  function VersionDetails(fields: seq<Text>, index: nat, seen: seq<Text>, details: ProtocolLine): Option<ProtocolLine>
    requires details.Version?
    decreases |fields| - index
  {
    if index >= |fields| then Some(details)
    else
      var key := fields[index];
      var value := if index + 1 < |fields| then fields[index + 1] else [];
      if value == [] || key in seen then None
      else if key == APP_KEY then VersionDetails(fields, index + 2, seen + [key], details.(appVersion := value))
      else if key == STEPS_KEY then
        match ToInt(value, 10)
        case None => None
        case Some(n) => VersionDetails(fields, index + 2, seen + [key], details.(totalSteps := n))
      else if key == DESTRUCTIVE_KEY then
        match ToInt(value, 10)
        case None => None
        case Some(n) => VersionDetails(fields, index + 2, seen + [key], details.(firstDestructiveStep := n))
      else None
  }

  function ParsedVersion(remainder: Text): ProtocolLine
  {
    var fields := Words(remainder, SPACE);
    match ToInt(if fields == [] then [] else fields[0], 10)
    case None => Unknown
    case Some(version) => VersionDetails(fields, 1, [], Version(version, [], 0, 0)).GetOr(Version(version, [], 0, 0))
  }

  function ParsedStep(remainder: Text): ProtocolLine
  {
    var countEnd := IndexOf(remainder, SPACE);
    var counts := SplitAt(remainder[..countEnd], SLASH);
    if remainder == [] || countEnd == 0 || |counts| != 2 then Unknown
    else
      match (ToInt(counts[0], 10), ToInt(counts[1], 10))
      case (Some(step), Some(totalSteps)) =>
        Step(step, totalSteps, if countEnd == |remainder| then [] else remainder[countEnd + 1..])
      case _ => Unknown
  }

  /** A line already split into its keyword and what follows. */
  function Understood(keyword: Text, remainder: Text): ProtocolLine
  {
    if keyword == VERSION_KEYWORD then ParsedVersion(remainder)
    else if keyword == STEP_KEYWORD then ParsedStep(remainder)
    else if keyword == DETAIL_KEYWORD then Detail(remainder)
    else if keyword == FAILURE_KEYWORD then Failure(remainder)
    else if keyword == RESULT_KEYWORD then Result(remainder)
    else Unknown
  }

  function Parsed(line: Text): ProtocolLine
  {
    var trimmed := Trimmed(line);
    var firstSpace := IndexOf(trimmed, SPACE);
    if trimmed == [] then Unknown
    else Understood(trimmed[..firstSpace], if firstSpace == |trimmed| then [] else trimmed[firstSpace + 1..])
  }

  method ParseVersionFields(fields: seq<Text>, version: int) returns (parsed: ProtocolLine)
    ensures parsed == VersionDetails(fields, 1, [], Version(version, [], 0, 0)).GetOr(Version(version, [], 0, 0))
  {
    hide ToInt;
    parsed := Version(version, [], 0, 0);
    var details := parsed;
    var seen: seq<Text> := [];
    var index := 1;
    while index < |fields|
      invariant index >= 1 && details.Version?
      invariant VersionDetails(fields, 1, [], parsed) == VersionDetails(fields, index, seen, details)
      decreases |fields| - index
    {
      var key := fields[index];
      var value := if index + 1 < |fields| then fields[index + 1] else [];
      if value == [] || key in seen {
        return;
      }
      seen := seen + [key];
      if key == APP_KEY {
        details := details.(appVersion := value);
      } else if key == STEPS_KEY {
        var number := ToInt(value, 10);
        if number.None? {
          return;
        }
        details := details.(totalSteps := number.value);
      } else if key == DESTRUCTIVE_KEY {
        var number := ToInt(value, 10);
        if number.None? {
          return;
        }
        details := details.(firstDestructiveStep := number.value);
      } else {
        return;
      }
      index := index + 2;
    }
    parsed := details;
  }

  // ----- reading what was written -----

  /** What a reader gets from a message: the same, with its text sanitised. */
  function Received(message: ProtocolLine): ProtocolLine
  {
    match message
    case Unknown => Unknown
    case Version(version, appVersion, totalSteps, firstDestructiveStep) =>
      var app := Sanitized(appVersion);
      Version(version, if SPACE in app then [] else app, totalSteps, firstDestructiveStep)
    case Step(step, totalSteps, text) => Step(step, totalSteps, Sanitized(text))
    case Detail(text) => Detail(Sanitized(text))
    case Failure(text) => Failure(Sanitized(text))
    case Result(text) => Result(Sanitized(text))
  }

  predicate Is32Bit(n: int)
  {
    -0x8000_0000 <= n < 0x8000_0000
  }

  /** Numbers a message may carry: those a 32-bit integer holds. */
  predicate IsSendable(message: ProtocolLine)
  {
    match message
    case Unknown => false
    case Version(version, _, totalSteps, firstDestructiveStep) =>
      Is32Bit(version) && Is32Bit(totalSteps) && Is32Bit(firstDestructiveStep)
    case Step(step, totalSteps, _) => Is32Bit(step) && Is32Bit(totalSteps)
    case _ => true
  }

  /** Text without spaces, or separators of any kind, at either end. */
  predicate HasCleanEnds(t: Text)
  {
    t != [] ==> !IsSpace(t[0]) && !IsSpace(t[|t| - 1])
  }

  lemma SanitizedEnds(t: Text)
    ensures HasCleanEnds(Sanitized(t)) && NEWLINE !in Sanitized(t) && |Sanitized(t)| <= MAX_PROTOCOL_TEXT
  {
    hide Sanitized, Normalised;
    SanitizedIsTidy(t);
  }

  /** A keyword, a space and a body are split again, even when the body is empty and the space is trimmed. */
  lemma KeywordRead(keyword: Text, body: Text)
    requires keyword != [] && SPACE !in keyword && HasCleanEnds(keyword) && HasCleanEnds(body)
    ensures Parsed(keyword + [SPACE] + body) == Understood(keyword, body)
  {
    hide Understood, Trimmed, HasCleanEnds, IndexOf;
    var line := keyword + [SPACE] + body;
    IndexAt(keyword, SPACE, body);
    if body == [] {
      TrimmedDropsLast(keyword);
      assert line == keyword + [SPACE];
      assert keyword[..|keyword|] == keyword;
    } else {
      assert HasCleanEnds(line) by {
        EndsOfLine(keyword, body);
      }
      TrimmedClean(line);
      assert line[..|keyword|] == keyword && line[|keyword| + 1..] == body;
    }
  }

  lemma EndsOfLine(keyword: Text, body: Text)
    requires keyword != [] && body != [] && HasCleanEnds(keyword) && HasCleanEnds(body)
    ensures HasCleanEnds(keyword + [SPACE] + body)
  {
    var line := keyword + [SPACE] + body;
    assert line[0] == keyword[0] && line[|line| - 1] == body[|body| - 1];
  }

  lemma TrimmedClean(t: Text)
    requires HasCleanEnds(t)
    ensures Trimmed(t) == t
  {
    TrimmedKeeps(t);
  }

  lemma TrimmedDropsLast(t: Text)
    requires t != [] && HasCleanEnds(t)
    ensures Trimmed(t + [SPACE]) == t
  {
    var line := t + [SPACE];
    assert line[0] == t[0];
    assert TrimmedLeft(line) == line;
    assert line[..|t|] == t;
    assert TrimmedRight(line) == TrimmedRight(t) == t;
  }

  lemma NumberIsPlain(n: int)
    ensures var t := SignedDecimal(n); SPACE !in t && SLASH !in t && NEWLINE !in t && HasCleanEnds(t)
  {
    var t, digits := SignedDecimal(n), Decimal(if n < 0 then -n else n);
    assert forall i :: 0 <= i < |t| ==> t[i] == 0x2D || IsDigit(t[i], 10);
    assert t[|t| - 1] == digits[|digits| - 1] && IsDigit(digits[|digits| - 1], 10);
    hide SignedDecimal, Decimal;
  }

  predicate IsKeyword(k: Text)
  {
    k != [] && |k| <= 11 && forall i :: 0 <= i < |k| ==> 0x61 <= k[i] <= 0x7A
  }

  lemma KeywordIsPlain(k: Text)
    requires IsKeyword(k)
    ensures k != [] && SPACE !in k && NEWLINE !in k && HasCleanEnds(k)
  {
    assert 0x61 <= k[0] && 0x61 <= k[|k| - 1];
  }

  /** The keywords are lower-case letters, and no two are alike. */
  lemma Keywords()
    ensures IsKeyword(VERSION_KEYWORD) && IsKeyword(STEP_KEYWORD) && IsKeyword(DETAIL_KEYWORD)
    ensures IsKeyword(FAILURE_KEYWORD) && IsKeyword(RESULT_KEYWORD)
    ensures IsKeyword(APP_KEY) && IsKeyword(STEPS_KEY) && IsKeyword(DESTRUCTIVE_KEY)
    ensures VERSION_KEYWORD[0] == 0x76 && STEP_KEYWORD[0] == 0x73 && DETAIL_KEYWORD[0] == 0x64
    ensures FAILURE_KEYWORD[0] == 0x66 && RESULT_KEYWORD[0] == 0x72
    ensures APP_KEY[0] == 0x61 && STEPS_KEY[0] == 0x73 && DESTRUCTIVE_KEY[0] == 0x64
  {
  }

  lemma TrailingSpaceIgnored(t: Text)
    requires t != [] && HasCleanEnds(t)
    ensures Parsed(t + [SPACE]) == Parsed(t)
  {
    TrimmedDropsLast(t);
    TrimmedKeeps(t);
    hide Trimmed;
  }

  lemma TextLineIsRead(keyword: Text, text: Text)
    requires IsKeyword(keyword)
    ensures Parsed(keyword + [SPACE] + Sanitized(text)) == Understood(keyword, Sanitized(text))
  {
    hide Sanitized, Parsed, Understood;
    KeywordIsPlain(keyword);
    SanitizedEnds(text);
    KeywordRead(keyword, Sanitized(text));
  }

  function Counts(step: int, total: int): Text
  {
    SignedDecimal(step) + [SLASH] + SignedDecimal(total)
  }

  lemma CountsArePlain(step: int, total: int)
    ensures var c := Counts(step, total); c != [] && SPACE !in c && NEWLINE !in c && HasCleanEnds(c)
  {
    hide SignedDecimal;
    NumberIsPlain(step);
    NumberIsPlain(total);
  }

  lemma CountsAreRead(step: int, total: int, text: Text)
    requires Is32Bit(step) && Is32Bit(total)
    ensures ParsedStep(Counts(step, total)) == Step(step, total, [])
    ensures ParsedStep(Counts(step, total) + [SPACE] + text) == Step(step, total, text)
  {
    hide SignedDecimal, ToInt;
    var counts := Counts(step, total);
    CountsArePlain(step, total);
    NumberIsPlain(step);
    NumberIsPlain(total);
    SplitPair(SignedDecimal(step), SLASH, SignedDecimal(total));
    SignedDecimalReads(step);
    SignedDecimalReads(total);
    IndexAt(counts, SPACE, text);
    hide Counts, SplitAt, IndexOf;
    assert counts[..|counts|] == counts;
    var whole := counts + [SPACE] + text;
    assert whole[..|counts|] == counts && whole[|counts| + 1..] == text;
  }

  lemma CountsLineIsRead(counts: Text, clean: Text, line: Text)
    requires counts != [] && HasCleanEnds(counts) && HasCleanEnds(clean)
    requires line == STEP_KEYWORD + [SPACE] + (counts + [SPACE] + clean)
    ensures Parsed(line) == ParsedStep(if clean == [] then counts else counts + [SPACE] + clean)
  {
    hide Parsed, ParsedStep, HasCleanEnds, IsKeyword;
    Keywords();
    KeywordIsPlain(STEP_KEYWORD);
    if clean == [] {
      var start := STEP_KEYWORD + [SPACE] + counts;
      assert line == start + [SPACE];
      EndsOfLine(STEP_KEYWORD, counts);
      TrailingSpaceIgnored(start);
      KeywordRead(STEP_KEYWORD, counts);
    } else {
      EndsOfLine(counts, clean);
      KeywordRead(STEP_KEYWORD, counts + [SPACE] + clean);
    }
  }

  lemma StepLineIsRead(step: int, total: int, text: Text)
    requires Is32Bit(step) && Is32Bit(total)
    ensures Parsed(Encoded(Step(step, total, text))) == Step(step, total, Sanitized(text))
  {
    hide Parsed, Encoded, Counts, Sanitized, ParsedStep, HasCleanEnds;
    CountsArePlain(step, total);
    SanitizedEnds(text);
    LineOfStep(step, total, text);
    CountsAreRead(step, total, Sanitized(text));
    CountsLineIsRead(Counts(step, total), Sanitized(text), Encoded(Step(step, total, text)));
  }

  lemma LineOfStep(step: int, total: int, text: Text)
    ensures Encoded(Step(step, total, text)) == STEP_KEYWORD + [SPACE] + (Counts(step, total) + [SPACE] + Sanitized(text))
  {
    hide SignedDecimal, Sanitized;
  }

  // ----- version lines -----

  /** The fields of a version line, and the line they make. */
  function VersionFields(version: int, app: Text, total: int, destructive: int): seq<Text>
  {
    [SignedDecimal(version)] + (if app != [] then [APP_KEY, app] else [])
    + [STEPS_KEY, SignedDecimal(total), DESTRUCTIVE_KEY, SignedDecimal(destructive)]
  }

  function Joined(fields: seq<Text>): Text
    requires fields != []
  {
    if |fields| == 1 then fields[0] else fields[0] + [SPACE] + Joined(fields[1..])
  }

  predicate AreWords(fields: seq<Text>)
  {
    forall k :: 0 <= k < |fields| ==> fields[k] != [] && SPACE !in fields[k] && HasCleanEnds(fields[k])
  }

  lemma JoinedFirst(fields: seq<Text>)
    requires |fields| > 1
    ensures Joined(fields) == fields[0] + [SPACE] + Joined(fields[1..])
  {}

  lemma {:induction false} JoinedWords(fields: seq<Text>)
    requires fields != [] && AreWords(fields)
    ensures Words(Joined(fields), SPACE) == fields
    ensures Joined(fields) != [] && HasCleanEnds(Joined(fields))
    decreases |fields|
  {
    if |fields| == 1 {
      WordsOfPair(fields[0], SPACE, []);
    } else {
      JoinedWords(fields[1..]);
      hide Words, Joined;
      WordsOfPair(fields[0], SPACE, Joined(fields[1..]));
      assert fields == [fields[0]] + fields[1..];
      JoinedFirst(fields);
      EndsOfLine(fields[0], Joined(fields[1..]));
    }
  }

  lemma VersionFieldsAreWords(version: int, app: Text, total: int, destructive: int)
    requires app == [] || (SPACE !in app && HasCleanEnds(app))
    ensures AreWords(VersionFields(version, app, total, destructive))
  {
    hide SignedDecimal, HasCleanEnds;
    NumberIsPlain(version);
    NumberIsPlain(total);
    NumberIsPlain(destructive);
    Keywords();
    KeywordIsPlain(APP_KEY);
    KeywordIsPlain(STEPS_KEY);
    KeywordIsPlain(DESTRUCTIVE_KEY);
  }

  lemma DetailsAreRead(version: int, app: Text, total: int, destructive: int)
    requires Is32Bit(total) && Is32Bit(destructive)
    ensures VersionDetails(VersionFields(version, app, total, destructive), 1, [], Version(version, [], 0, 0))
         == Some(Version(version, app, total, destructive))
  {
    hide SignedDecimal, ToInt;
    SignedDecimalReads(total);
    SignedDecimalReads(destructive);
    Keywords();
    var fields := VersionFields(version, app, total, destructive);
    var start := Version(version, [], 0, 0);
    if app == [] {
      LastDetails(fields, 1, [], start, total, destructive);
    } else {
      var named := start.(appVersion := app);
      LastDetails(fields, 3, [APP_KEY], named, total, destructive);
      assert [] + [APP_KEY] == [APP_KEY];
      assert VersionDetails(fields, 1, [], start) == VersionDetails(fields, 3, [APP_KEY], named);
    }
  }

  /** The two numbers at the end of the fields. */
  lemma LastDetails(fields: seq<Text>, index: nat, seen: seq<Text>, details: ProtocolLine, total: int, destructive: int)
    requires details.Version? && |fields| == index + 4
    requires fields[index..] == [STEPS_KEY, SignedDecimal(total), DESTRUCTIVE_KEY, SignedDecimal(destructive)]
    requires STEPS_KEY !in seen && DESTRUCTIVE_KEY !in seen
    requires ToInt(SignedDecimal(total), 10) == Some(total) && ToInt(SignedDecimal(destructive), 10) == Some(destructive)
    ensures VersionDetails(fields, index, seen, details)
         == Some(details.(totalSteps := total, firstDestructiveStep := destructive))
  {
    hide SignedDecimal, ToInt;
    Keywords();
    assert fields[index] == STEPS_KEY && fields[index + 1] == SignedDecimal(total);
    assert fields[index + 2] == DESTRUCTIVE_KEY && fields[index + 3] == SignedDecimal(destructive);
    var counted := details.(totalSteps := total);
    var both := counted.(firstDestructiveStep := destructive);
    assert VersionDetails(fields, index + 4, seen + [STEPS_KEY] + [DESTRUCTIVE_KEY], both) == Some(both);
    assert VersionDetails(fields, index + 2, seen + [STEPS_KEY], counted) == Some(both);
  }

  lemma {:induction false} JoinedMore(fields: seq<Text>, word: Text)
    requires fields != []
    ensures Joined(fields + [word]) == Joined(fields) + [SPACE] + word
    decreases |fields|
  {
    var all := fields + [word];
    if |fields| == 1 {
      assert all[1..] == [word];
    } else {
      assert all[1..] == fields[1..] + [word];
      JoinedMore(fields[1..], word);
    }
  }

  lemma LineMore(line: Text, start: Text, fields: seq<Text>, word: Text)
    requires fields != [] && line == start + [SPACE] + Joined(fields)
    ensures line + [SPACE] + word == start + [SPACE] + Joined(fields + [word])
  {
    JoinedMore(fields, word);
    hide Joined;
  }

  lemma LineOfVersion(version: int, appVersion: Text, total: int, destructive: int)
    ensures var app := Sanitized(appVersion);
            Encoded(Version(version, appVersion, total, destructive))
            == VERSION_KEYWORD + [SPACE] + Joined(VersionFields(version, if SPACE in app then [] else app, total, destructive))
  {
    hide SignedDecimal, Sanitized, Joined;
    var app := Sanitized(appVersion);
    var start := VERSION_KEYWORD + [SPACE] + SignedDecimal(version);
    var fields := [SignedDecimal(version)];
    assert start == VERSION_KEYWORD + [SPACE] + Joined(fields) by {
      JoinedOne(SignedDecimal(version));
    }
    if app == [] || SPACE in app {
      LineOfNumbers(start, fields, total, destructive);
      assert VersionFields(version, [], total, destructive)
          == fields + [STEPS_KEY] + [SignedDecimal(total)] + [DESTRUCTIVE_KEY] + [SignedDecimal(destructive)];
    } else {
      LineMore(start, VERSION_KEYWORD, fields, APP_KEY);
      LineMore(start + [SPACE] + APP_KEY, VERSION_KEYWORD, fields + [APP_KEY], app);
      LineOfNumbers(start + [SPACE] + APP_KEY + [SPACE] + app, fields + [APP_KEY] + [app], total, destructive);
      assert VersionFields(version, app, total, destructive)
          == fields + [APP_KEY] + [app] + [STEPS_KEY] + [SignedDecimal(total)] + [DESTRUCTIVE_KEY] + [SignedDecimal(destructive)];
    }
  }

  lemma JoinedOne(word: Text)
    ensures Joined([word]) == word
  {}

  lemma LineOfNumbers(line: Text, fields: seq<Text>, total: int, destructive: int)
    requires fields != [] && line == VERSION_KEYWORD + [SPACE] + Joined(fields)
    ensures line + [SPACE] + STEPS_KEY + [SPACE] + SignedDecimal(total) + [SPACE] + DESTRUCTIVE_KEY + [SPACE] + SignedDecimal(destructive)
         == VERSION_KEYWORD + [SPACE]
            + Joined(fields + [STEPS_KEY] + [SignedDecimal(total)] + [DESTRUCTIVE_KEY] + [SignedDecimal(destructive)])
  {
    hide SignedDecimal, Joined;
    var a := line + [SPACE] + STEPS_KEY;
    LineMore(line, VERSION_KEYWORD, fields, STEPS_KEY);
    var b := a + [SPACE] + SignedDecimal(total);
    LineMore(a, VERSION_KEYWORD, fields + [STEPS_KEY], SignedDecimal(total));
    var c := b + [SPACE] + DESTRUCTIVE_KEY;
    LineMore(b, VERSION_KEYWORD, fields + [STEPS_KEY] + [SignedDecimal(total)], DESTRUCTIVE_KEY);
    LineMore(c, VERSION_KEYWORD, fields + [STEPS_KEY] + [SignedDecimal(total)] + [DESTRUCTIVE_KEY], SignedDecimal(destructive));
  }

  lemma VersionLineIsRead(version: int, appVersion: Text, total: int, destructive: int)
    requires Is32Bit(version) && Is32Bit(total) && Is32Bit(destructive)
    ensures Parsed(Encoded(Version(version, appVersion, total, destructive)))
         == Received(Version(version, appVersion, total, destructive))
  {
    var app := if SPACE in Sanitized(appVersion) then [] else Sanitized(appVersion);
    var fields := VersionFields(version, app, total, destructive);
    Keywords();
    KeywordIsPlain(VERSION_KEYWORD);
    SanitizedEnds(appVersion);
    VersionFieldsAreWords(version, app, total, destructive);
    LineOfVersion(version, appVersion, total, destructive);
    JoinedWords(fields);
    SignedDecimalReads(version);
    DetailsAreRead(version, app, total, destructive);
    assert fields[0] == SignedDecimal(version);
    hide Sanitized, Decimal, ToInt, Parsed, Words, VersionDetails, VersionFields, Joined, Encoded;
    KeywordRead(VERSION_KEYWORD, Joined(fields));
    assert ParsedVersion(Joined(fields)) == Version(version, app, total, destructive);
  }

  /** Every message arrives as it was sent, with its text sanitised. */
  lemma EncodedIsRead(message: ProtocolLine)
    requires IsSendable(message)
    ensures Parsed(Encoded(message)) == Received(message)
  {
    Keywords();
    hide Sanitized, Parsed, ParsedVersion, ParsedStep;
    match message
    case Version(version, appVersion, totalSteps, firstDestructiveStep) =>
      VersionLineIsRead(version, appVersion, totalSteps, firstDestructiveStep);
    case Step(step, total, text) => StepLineIsRead(step, total, text);
    case Detail(text) => TextLineIsRead(DETAIL_KEYWORD, text);
    case Failure(text) => TextLineIsRead(FAILURE_KEYWORD, text);
    case Result(text) => TextLineIsRead(RESULT_KEYWORD, text);
  }

  // ----- the announcement -----

  const PROTOCOL_VERSION: int := 5

  /** A helper is accepted if it speaks this protocol and places the steps as this plan does. */
  predicate AcceptsAnnouncement(line: ProtocolLine, plan: seq<RestoreStep>, firstDestructive: nat)
    requires IsFirstDestructive(plan, firstDestructive)
  {
    && line.Version? && line.version == PROTOCOL_VERSION
    && line.totalSteps == |plan| && line.firstDestructiveStep == firstDestructive
  }

  /** What a helper announces about its own plan is accepted exactly when version, length and boundary agree,
      whatever it calls itself. */
  lemma AnnouncementIsJudged(version: int, app: Text, theirs: seq<RestoreStep>, theirFirst: nat,
                             plan: seq<RestoreStep>, first: nat)
    requires Is32Bit(version) && |theirs| < 0x7FFF_FFFF
    requires IsFirstDestructive(theirs, theirFirst) && IsFirstDestructive(plan, first)
    ensures AcceptsAnnouncement(Parsed(Encoded(Version(version, app, |theirs|, theirFirst))), plan, first)
       <==> version == PROTOCOL_VERSION && |theirs| == |plan| && theirFirst == first
  {
    hide Parsed, Encoded;
    EncodedIsRead(Version(version, app, |theirs|, theirFirst));
  }
}
