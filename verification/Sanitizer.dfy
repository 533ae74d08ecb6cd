/** Making text safe to put on a line of its own: one line, bounded, and no more
    spaces than needed. */
module Sanitizer {
  import opened Text

  const MAX_PROTOCOL_TEXT: nat := 2000
  const SPACE: CodeUnit := 0x20

  predicate IsControl(u: CodeUnit)
  {
    u <= 0x1F || 0x7F <= u <= 0x9F
  }

  predicate IsSeparator(u: CodeUnit)
  {
    IsSpace(u) || IsControl(u)
  }

  predicate IsHigh(u: CodeUnit)
  {
    0xD800 <= u <= 0xDBFF
  }

  predicate IsLow(u: CodeUnit)
  {
    0xDC00 <= u <= 0xDFFF
  }

  /** Every surrogate half has its other half beside it. */
  predicate WellFormed(t: Text)
  {
    && (forall i :: 0 <= i < |t| && IsHigh(t[i]) ==> i + 1 < |t| && IsLow(t[i + 1]))
    && (forall i :: 0 <= i < |t| && IsLow(t[i]) ==> i > 0 && IsHigh(t[i - 1]))
  }

  // ----- one space between words -----

  /** The words read so far, and whether a space is owed before the next. */
  datatype Scanned = Scanned(words: Text, pending: bool)

  function Scan(t: Text): Scanned
    decreases |t|
  {
    if t == [] then Scanned([], false)
    else
      var before, last := Scan(t[..|t| - 1]), t[|t| - 1];
      if IsSeparator(last) then Scanned(before.words, before.words != [])
      else Scanned(before.words + (if before.pending then [SPACE] else []) + [last], false)
  }

  /** The words of a text, with one space between each two. */
  function Normalised(t: Text): Text
  {
    Scan(t).words
  }

  /** The words: what stands between separators. */
  function WordsOf(t: Text): (words: seq<Text>)
    ensures t != [] && !IsSeparator(t[|t| - 1]) ==> words != []
    decreases |t|
  {
    if t == [] then []
    else
      var before, last := WordsOf(t[..|t| - 1]), t[|t| - 1];
      if IsSeparator(last) then before
      else if |t| > 1 && !IsSeparator(t[|t| - 2]) then before[..|before| - 1] + [before[|before| - 1] + [last]]
      else before + [[last]]
  }

  function Spaced(words: seq<Text>): Text
    decreases |words|
  {
    if words == [] then []
    else if |words| == 1 then words[0]
    else Spaced(words[..|words| - 1]) + [0x20] + words[|words| - 1]
  }

  lemma SpacedMore(words: seq<Text>, word: Text)
    ensures Spaced(words + [word]) == if words == [] then word else Spaced(words) + [0x20] + word
  {
    assert (words + [word])[..|words|] == words;
  }

  lemma SpacedLonger(before: seq<Text>, last: Text, u: CodeUnit)
    ensures Spaced(before + [last + [u]]) == Spaced(before + [last]) + [u]
  {
    hide Spaced;
    SpacedMore(before, last);
    SpacedMore(before, last + [u]);
    if before != [] {
      AppendedLast(Spaced(before) + [0x20], last, u);
    }
  }

  lemma AppendedLast(a: Text, b: Text, u: CodeUnit)
    ensures a + (b + [u]) == (a + b) + [u]
  {}

  /** Nothing of a text is lost or run together: its normal form is its words, in order, one space between each two. */
  lemma {:induction false} NormalisedKeepsWords(t: Text)
    ensures Normalised(t) == Spaced(WordsOf(t))
    ensures Scan(t).pending <==> t != [] && IsSeparator(t[|t| - 1]) && WordsOf(t) != []
    ensures Normalised(t) == [] <==> WordsOf(t) == []
    decreases |t|
  {
    hide IsSeparator, Spaced;
    if t == [] {
      assert Spaced([]) == [] by {
        NoWords();
      }
    } else {
      var rest, last := t[..|t| - 1], t[|t| - 1];
      NormalisedKeepsWords(rest);
      if !IsSeparator(last) {
        if rest != [] && !IsSeparator(rest[|rest| - 1]) {
          var words := WordsOf(rest);
          assert words == words[..|words| - 1] + [words[|words| - 1]];
          SpacedLonger(words[..|words| - 1], words[|words| - 1], last);
        } else {
          SpacedMore(WordsOf(rest), [last]);
        }
      }
    }
  }

  lemma NoWords()
    ensures Spaced([]) == []
  {}

  function ChopSpace(t: Text): (r: Text)
    ensures r <= t
  {
    if t != [] && t[|t| - 1] == SPACE then t[..|t| - 1] else t
  }

  /** Without a first half of a surrogate pair that lost its second. */
  function ChopHigh(t: Text): (r: Text)
    ensures r <= t
  {
    if t != [] && IsHigh(t[|t| - 1]) then t[..|t| - 1] else t
  }

  function Bounded(t: Text): Text
  {
    if |t| > MAX_PROTOCOL_TEXT then t[..MAX_PROTOCOL_TEXT] else t
  }

  function Sanitized(t: Text): Text
  {
    ChopSpace(ChopHigh(ChopSpace(Bounded(Normalised(t)))))
  }

  // ----- the shape of normalised text -----

  /** No separators but single spaces inside. */
  predicate Tidy(t: Text)
  {
    && (forall i :: 0 <= i < |t| ==> t[i] == SPACE || !IsSeparator(t[i]))
    && (forall i :: 0 <= i < |t| - 1 ==> !(t[i] == SPACE && t[i + 1] == SPACE))
    && (t != [] ==> t[0] != SPACE && t[|t| - 1] != SPACE)
  }

  lemma {:induction false} NormalisedIsTidy(t: Text)
    ensures Tidy(Normalised(t)) && (Scan(t).pending ==> Normalised(t) != [])
    decreases |t|
  {
    if t != [] {
      NormalisedIsTidy(t[..|t| - 1]);
      assert IsSeparator(SPACE);
    }
  }

  lemma ScanMore(t: Text, u: CodeUnit)
    ensures Scan(t + [u]) == if IsSeparator(u) then Scanned(Normalised(t), Normalised(t) != [])
                             else Scanned(Normalised(t) + (if Scan(t).pending then [SPACE] else []) + [u], false)
  {
    assert (t + [u])[..|t|] == t;
  }

  lemma {:induction false} NormalisedGrows(t: Text, k: nat)
    requires k <= |t|
    ensures Normalised(t[..k]) <= Normalised(t)
    decreases |t| - k
  {
    if k < |t| {
      NormalisedGrows(t, k + 1);
      assert t[..k + 1] == t[..k] + [t[k]];
      ScanMore(t[..k], t[k]);
    } else {
      assert t[..k] == t;
    }
  }

  lemma TidyUnit(t: Text, k: nat)
    requires Tidy(t) && k < |t|
    ensures t[k] == SPACE || !IsSeparator(t[k])
    ensures t[k] == SPACE ==> IsSeparator(t[k]) && k > 0 && t[k - 1] != SPACE
  {}

  lemma OneMore(t: Text, k: nat)
    requires k < |t|
    ensures t[..k + 1] == t[..k] + [t[k]]
  {}

  lemma EmptyScan(text: Text)
    ensures Scan(text[..0]) == Scanned([], false) && text[..0] == []
  {}

  /** A tidy text is its own normal form. */
  lemma {:induction false} TidyIsNormal(t: Text, k: nat)
    requires Tidy(t) && k <= |t|
    ensures Scan(t[..k]) == if k > 0 && t[k - 1] == SPACE then Scanned(t[..k - 1], true) else Scanned(t[..k], false)
  {
    hide Scan, Tidy, IsSeparator;
    if k == 0 {
      EmptyScan(t);
    } else {
      TidyIsNormal(t, k - 1);
      TidyUnit(t, k - 1);
      OneMore(t, k - 1);
      ScanMore(t[..k - 1], t[k - 1]);
      if k > 1 {
        OneMore(t, k - 2);
        TidyUnit(t, k - 2);
      }
    }
  }

  // ----- the loop -----

  /** A text that grows past the bound with one more unit is cut back to what it was. */
  lemma CutBack(words: Text, space: Text, u: CodeUnit, all: Text)
    requires words + space + [u] <= all && (space == [] || space == [SPACE])
    requires |words| <= MAX_PROTOCOL_TEXT < |words| + |space| + 1
    requires words != [] ==> words[|words| - 1] != SPACE
    ensures ChopSpace(Bounded(all)) == words
  {
    var bounded := Bounded(all);
    assert bounded == (words + space + [u])[..MAX_PROTOCOL_TEXT];
    if |words| < MAX_PROTOCOL_TEXT {
      assert bounded == words + [SPACE];
    } else {
      assert bounded == words;
    }
  }

  /** Where the loop stops: the next word would not fit, so the bound cuts exactly here. */
  lemma StopsAtBound(t: Text, k: nat)
    requires k < |t| && !IsSeparator(t[k]) && |Normalised(t[..k])| <= MAX_PROTOCOL_TEXT
    requires |Normalised(t[..k])| + (if Scan(t[..k]).pending then 2 else 1) > MAX_PROTOCOL_TEXT
    ensures Normalised(t[..k]) == ChopSpace(Bounded(Normalised(t)))
  {
    hide Scan, Bounded, ChopSpace, IsSeparator;
    NormalisedIsTidy(t[..k]);
    assert t[..k + 1] == t[..k] + [t[k]];
    ScanMore(t[..k], t[k]);
    NormalisedGrows(t, k + 1);
    CutBack(Normalised(t[..k]), if Scan(t[..k]).pending then [SPACE] else [], t[k], Normalised(t));
  }

  method SanitizeProtocolText(text: Text) returns (sanitized: Text)
    ensures sanitized == Sanitized(text)
  {
    hide Scan, Bounded, ChopSpace, ChopHigh;
    sanitized := [];
    var pendingSpace := false;
    EmptyScan(text);
    var k := 0;
    while k < |text|
      invariant 0 <= k <= |text| && |sanitized| <= MAX_PROTOCOL_TEXT
      invariant Scan(text[..k]) == Scanned(sanitized, pendingSpace)
    {
      assert text[..k + 1] == text[..k] + [text[k]];
      ScanMore(text[..k], text[k]);
      if IsSeparator(text[k]) {
        pendingSpace := sanitized != [];
        k := k + 1;
        continue;
      }
      // Room for the space owed as well.
      if |sanitized| + (if pendingSpace then 2 else 1) > MAX_PROTOCOL_TEXT {
        StopsAtBound(text, k);
        break;
      }
      if pendingSpace {
        sanitized := sanitized + [SPACE];
        pendingSpace := false;
      }
      sanitized := sanitized + [text[k]];
      k := k + 1;
    }
    if k == |text| {
      assert text[..|text|] == text;
      ScannedAll(text);
    }
    sanitized := ChopHigh(sanitized);
    sanitized := ChopSpace(sanitized);
  }

  lemma ScannedAll(text: Text)
    requires |Normalised(text)| <= MAX_PROTOCOL_TEXT
    ensures text[..|text|] == text
    ensures ChopSpace(Bounded(Normalised(text))) == Normalised(text)
  {
    NormalisedIsTidy(text);
    assert text[..|text|] == text;
    hide Scan;
  }

  // ----- what comes out -----

  /** Cutting a tidy text keeps it tidy once a trailing space is gone. */
  lemma CutTidy(t: Text, cut: Text)
    requires Tidy(t) && cut <= t
    ensures Tidy(ChopSpace(cut))
  {
    var r := ChopSpace(cut);
    assert forall i :: 0 <= i < |r| ==> r[i] == t[i];
    assert r != [] && |r| < |cut| ==> t[|cut| - 1] == SPACE;
  }

  /** At most 2000 units of the normalised text, from its start, and tidy; as many as will do, but for a space and
      a first half of a pair at the cut. */
  lemma SanitizedIsTidy(t: Text)
    ensures var r := Sanitized(t); r <= Normalised(t) && |r| <= 2000 && Tidy(r)
    ensures forall u :: u in Sanitized(t) ==> u >= 0x20 && !(0x7F <= u <= 0x9F)
    ensures |Normalised(t)| > 2000 ==> |Sanitized(t)| >= 1997
    ensures |Normalised(t)| <= 2000 && !EndsHigh(Normalised(t)) ==> Sanitized(t) == Normalised(t)
  {
    NormalisedIsTidy(t);
    hide Scan, Tidy;
    var cut := ChopHigh(ChopSpace(Bounded(Normalised(t))));
    CutTidy(Normalised(t), cut);
    TidyHasNoControls(Sanitized(t));
  }

  lemma TidyHasNoControls(t: Text)
    requires Tidy(t)
    ensures forall u :: u in t ==> u >= 0x20 && !(0x7F <= u <= 0x9F)
  {
    forall u | u in t
      ensures u >= 0x20 && !(0x7F <= u <= 0x9F)
    {
      var i :| 0 <= i < |t| && t[i] == u;
      assert t[i] == SPACE || !IsSeparator(t[i]);
    }
  }

  /** Sanitising again cuts at most one unit more: a high surrogate half now at the end. */
  lemma SanitizedAgain(t: Text)
    ensures Sanitized(Sanitized(t)) == ChopSpace(ChopHigh(Sanitized(t)))
    ensures Sanitized(Sanitized(t)) == Sanitized(t) <==> !EndsHigh(Sanitized(t))
  {
    hide Normalised, Tidy, IsHigh;
    var r := Sanitized(t);
    SanitizedIsTidy(t);
    TidyStays(r);
    assert Bounded(r) == r;
  }

  lemma TidyStays(t: Text)
    requires Tidy(t)
    ensures Normalised(t) == t && ChopSpace(t) == t
  {
    TidyIsNormal(t, |t|);
    assert t[..|t|] == t;
    hide Scan;
  }

  predicate EndsHigh(t: Text)
  {
    t != [] && IsHigh(t[|t| - 1])
  }

  /** What the loop has collected when it stops, before anything is cut off its end. */
  function Collected(t: Text): Text
  {
    ChopSpace(Bounded(Normalised(t)))
  }

  /** The two last units collected, whether or not a space stands between them, are both high surrogate halves: the
      branch that cuts one off is taken, and there is another for it to cut off next time. */
  predicate EndsHighTwice(collected: Text)
  {
    EndsHigh(collected) && EndsHigh(ChopSpace(collected[..|collected| - 1]))
  }

  /** Sanitising twice is sanitising once exactly unless what was collected ends in two high surrogate halves. */
  lemma SanitizedTwice(t: Text)
    ensures Sanitized(Sanitized(t)) == Sanitized(t) <==> !EndsHighTwice(Collected(t))
  {
    NormalisedIsTidy(t);
    SanitizedAgain(t);
    hide Scan, Tidy, Bounded;
    BoundedPrefix(Normalised(t));
    CutTidy(Normalised(t), Bounded(Normalised(t)));
    LastIsNoSpace(Collected(t));
    hide Normalised;
  }

  lemma LastIsNoSpace(t: Text)
    requires Tidy(t)
    ensures ChopSpace(t) == t
  {}

  /** Any two high surrogate halves have something other than separators between them. */
  predicate HighsApart(t: Text)
  {
    forall i, j :: 0 <= i < j < |t| && IsHigh(t[i]) && IsHigh(t[j]) ==> WordBetween(t, i, j)
  }

  predicate WordBetween(t: Text, i: nat, j: nat)
    requires j <= |t|
  {
    exists m :: i < m < j && !IsSeparator(t[m])
  }

  /** The last unit of the words read so far is the last one read that is no separator. */
  lemma {:induction false} LastWordUnit(t: Text) returns (p: nat)
    requires Normalised(t) != []
    ensures p < |t| && t[p] == Normalised(t)[|Normalised(t)| - 1] && !IsSeparator(t[p])
    ensures forall m :: p < m < |t| ==> IsSeparator(t[m])
    decreases |t|
  {
    var before, u := t[..|t| - 1], t[|t| - 1];
    assert t == before + [u];
    ScanMore(before, u);
    if IsSeparator(u) {
      p := LastWordUnit(before);
    } else {
      p := |t| - 1;
    }
  }

  /** Normalising brings no two high halves together. */
  lemma {:induction false} NormalisedHighsApart(t: Text)
    requires HighsApart(t)
    ensures HighsApart(Normalised(t))
    decreases |t|
  {
    if t != [] {
      var before, u := t[..|t| - 1], t[|t| - 1];
      assert t == before + [u];
      ScanMore(before, u);
      ApartSoFar(t);
      hide Scan;
      NormalisedHighsApart(before);
      if !IsSeparator(u) {
        NormalisedIsTidy(before);
        NextWordApart(t, Normalised(before), if Scan(before).pending then [SPACE] else []);
      }
    }
  }

  lemma ApartSoFar(t: Text)
    requires t != [] && HighsApart(t)
    ensures HighsApart(t[..|t| - 1])
  {
    var before := t[..|t| - 1];
    forall i, j | 0 <= i < j < |before| && IsHigh(before[i]) && IsHigh(before[j])
      ensures WordBetween(before, i, j)
    {
      assert WordBetween(t, i, j);
      var m :| i < m < j && !IsSeparator(t[m]);
      assert before[m] == t[m];
    }
  }

  /** After a word that ends in a high half comes no other. */
  lemma NoHighNext(t: Text)
    requires t != [] && HighsApart(t) && EndsHigh(Normalised(t[..|t| - 1]))
    ensures !IsHigh(t[|t| - 1])
  {
    var before := t[..|t| - 1];
    var p := LastWordUnit(before);
    assert forall m :: p < m < |t| - 1 ==> t[m] == before[m] && IsSeparator(t[m]);
    assert !WordBetween(t, p, |t| - 1);
    assert t[p] == before[p];
  }

  lemma NextWordApart(t: Text, words: Text, space: Text)
    requires t != [] && HighsApart(t) && words == Normalised(t[..|t| - 1]) && HighsApart(words) && Tidy(words)
    requires space == [] || space == [SPACE]
    ensures HighsApart(words + space + [t[|t| - 1]])
  {
    var u := t[|t| - 1];
    if EndsHigh(words) {
      NoHighNext(t);
    }
    hide Normalised;
    WordAppended(words, space, u);
  }

  lemma WordAppended(words: Text, space: Text, u: CodeUnit)
    requires HighsApart(words) && Tidy(words) && (space == [] || space == [SPACE])
    requires EndsHigh(words) ==> !IsHigh(u)
    ensures HighsApart(words + space + [u])
  {
    var all := words + space + [u];
    assert forall k :: 0 <= k < |words| ==> all[k] == words[k];
    forall i, j | 0 <= i < j < |all| && IsHigh(all[i]) && IsHigh(all[j])
      ensures WordBetween(all, i, j)
    {
      if j < |words| {
        assert WordBetween(words, i, j);
        var m :| i < m < j && !IsSeparator(words[m]);
        assert !IsSeparator(all[m]);
      } else {
        assert i < |words| - 1;
        assert !IsSeparator(all[|words| - 1]);
      }
    }
  }

  /** A caller can tell beforehand: with no two high surrogate halves next to each other, separators not counted,
      sanitising twice is sanitising once, well-formed or not. */
  lemma HighsApartIsEnough(t: Text)
    requires HighsApart(t)
    ensures Sanitized(Sanitized(t)) == Sanitized(t)
  {
    NormalisedHighsApart(t);
    SanitizedTwice(t);
    BoundedPrefix(Normalised(t));
    hide Normalised, Bounded, Sanitized;
    PrefixHasNoTwo(Normalised(t), Collected(t));
  }

  /** And nothing less is: two high halves with only separators between them show, in the text that ends with the
      second, as long as the bound does not cut it. */
  lemma HighsTogetherShow(t: Text, i: nat, j: nat)
    requires i < j < |t| && IsHigh(t[i]) && IsHigh(t[j]) && !WordBetween(t, i, j)
    requires |Normalised(t[..j + 1])| <= MAX_PROTOCOL_TEXT
    ensures Sanitized(Sanitized(t[..j + 1])) != Sanitized(t[..j + 1])
  {
    hide Scan, Sanitized, ChopSpace, Bounded, WordBetween, EndsHighTwice, IsSeparator, IsHigh;
    var part := t[..j + 1];
    HighIsNoSeparator(t[i]);
    HighIsNoSeparator(t[j]);
    SanitizedTwice(part);
    ScannedAll(part);
    assert part == t[..j] + [t[j]];
    ScanMore(t[..j], t[j]);
    LastBefore(t, i, j);
    TwoHighsAtEnd(Normalised(t[..j]), if Scan(t[..j]).pending then [SPACE] else [], t[j]);
  }

  lemma HighIsNoSeparator(u: CodeUnit)
    requires IsHigh(u)
    ensures !IsSeparator(u)
  {}

  lemma TwoHighsAtEnd(words: Text, space: Text, u: CodeUnit)
    requires EndsHigh(words) && IsHigh(u) && (space == [] || space == [SPACE])
    ensures EndsHighTwice(words + space + [u])
  {
    var all := words + space + [u];
    assert all[..|all| - 1] == words + space;
    assert ChopSpace(words + space) == words;
  }

  lemma {:induction false} LastBefore(t: Text, i: nat, j: nat)
    requires i < j <= |t| && !IsSeparator(t[i]) && !WordBetween(t, i, j)
    ensures Normalised(t[..j]) != [] && Normalised(t[..j])[|Normalised(t[..j])| - 1] == t[i]
    decreases j
  {
    assert t[..j] == t[..j - 1] + [t[j - 1]];
    ScanMore(t[..j - 1], t[j - 1]);
    if j - 1 > i {
      assert IsSeparator(t[j - 1]);
      LastBefore(t, i, j - 1);
    }
  }

  lemma PrefixHasNoTwo(t: Text, cut: Text)
    requires HighsApart(t) && cut <= t
    ensures !EndsHighTwice(cut)
  {
    if EndsHigh(cut) {
      var shorter := cut[..|cut| - 1];
      var word := ChopSpace(shorter);
      assert forall m :: |word| <= m < |cut| - 1 ==> t[m] == shorter[m] == SPACE;
      if word != [] {
        assert !WordBetween(t, |word| - 1, |cut| - 1);
        assert word[|word| - 1] == t[|word| - 1] && cut[|cut| - 1] == t[|cut| - 1];
      }
    }
  }

  // ----- surrogate pairs -----

  /** Well-formed, except that the last unit may be waiting for its second half. */
  predicate AlmostWellFormed(t: Text)
  {
    && (forall i :: 0 <= i < |t| - 1 && IsHigh(t[i]) ==> IsLow(t[i + 1]))
    && (forall i :: 0 <= i < |t| && IsLow(t[i]) ==> i > 0 && IsHigh(t[i - 1]))
  }

  lemma PairStep(words: Text, space: Text, u: CodeUnit)
    requires AlmostWellFormed(words) && (space == [] || space == [SPACE])
    requires IsLow(u) ==> EndsHigh(words) && space == []
    requires EndsHigh(words) ==> IsLow(u) && space == []
    ensures AlmostWellFormed(words + space + [u])
    ensures EndsHigh(words + space + [u]) == IsHigh(u)
  {
    var r := words + space + [u];
    assert forall i :: 0 <= i < |words| ==> r[i] == words[i];
    assert space != [] ==> r[|words|] == SPACE;
    assert r[|r| - 1] == u;
  }

  lemma NextHalf(t: Text, k: nat)
    requires WellFormed(t) && k < |t|
    ensures IsLow(t[k]) <==> EndsHigh(t[..k])
    ensures EndsHigh(t[..k + 1]) == IsHigh(t[k])
  {}

  lemma HalvesAreWords(u: CodeUnit)
    ensures IsSeparator(u) ==> !IsHigh(u) && !IsLow(u)
  {}

  /** Normalising keeps the halves of each pair together. */
  lemma {:induction false} NormalisedKeepsPairs(t: Text, k: nat)
    requires WellFormed(t) && k <= |t|
    ensures AlmostWellFormed(Normalised(t[..k]))
    ensures EndsHigh(Normalised(t[..k])) ==> EndsHigh(t[..k])
    ensures EndsHigh(t[..k]) ==> EndsHigh(Normalised(t[..k])) && !Scan(t[..k]).pending
  {
    hide Scan, AlmostWellFormed, WellFormed, IsSeparator, IsHigh, IsLow;
    if k == 0 {
      EmptyScan(t);
      assert AlmostWellFormed([]) by {
        NothingIsWellFormed();
      }
    } else {
      var before, u := t[..k - 1], t[k - 1];
      NormalisedKeepsPairs(t, k - 1);
      NextHalf(t, k - 1);
      HalvesAreWords(u);
      OneMore(t, k - 1);
      ScanMore(before, u);
      if !IsSeparator(u) {
        PairStep(Normalised(before), if Scan(before).pending then [SPACE] else [], u);
      }
    }
  }

  lemma NothingIsWellFormed()
    ensures AlmostWellFormed([])
  {}

  lemma CutPairs(t: Text, cut: Text)
    requires AlmostWellFormed(t) && cut <= t
    ensures AlmostWellFormed(cut)
  {
    assert forall i :: 0 <= i < |cut| ==> cut[i] == t[i];
  }

  lemma CompletePairs(t: Text)
    requires AlmostWellFormed(t) && !EndsHigh(t)
    ensures WellFormed(t)
  {
    forall i | 0 <= i < |t| && IsHigh(t[i])
      ensures i + 1 < |t| && IsLow(t[i + 1])
    {
      assert i != |t| - 1;
    }
  }

  /** Dropping a half left at the end, and then a space, leaves whole pairs. */
  lemma ChoppedIsWellFormed(t: Text)
    requires AlmostWellFormed(t)
    ensures WellFormed(ChopSpace(ChopHigh(t)))
    ensures !EndsHigh(ChopSpace(ChopHigh(t)))
  {
    var whole := ChopHigh(t);
    if EndsHigh(t) {
      ShorterIsComplete(t);
    } else {
      CompletePairs(t);
    }
    if whole != [] && whole[|whole| - 1] == SPACE {
      ShorterIsComplete(whole);
    }
  }

  /** Without a last unit that is no second half, nothing waits for one. */
  lemma ShorterIsComplete(t: Text)
    requires t != [] && AlmostWellFormed(t) && !IsLow(t[|t| - 1])
    ensures WellFormed(t[..|t| - 1]) && !EndsHigh(t[..|t| - 1])
  {
    var r := t[..|t| - 1];
    CutPairs(t, r);
    assert |r| > 0 ==> r[|r| - 1] == t[|t| - 2] && !IsHigh(t[|t| - 2]);
    CompletePairs(r);
  }

  /** Well-formed text stays well-formed, and sanitising it twice is sanitising it once. */
  lemma SanitizedIsWellFormed(t: Text)
    requires WellFormed(t)
    ensures WellFormed(Sanitized(t)) && Sanitized(Sanitized(t)) == Sanitized(t)
  {
    NormalisedKeepsPairs(t, |t|);
    assert t[..|t|] == t;
    hide Normalised, Bounded, ChopHigh, WellFormed, AlmostWellFormed;
    var bounded := ChopSpace(Bounded(Normalised(t)));
    BoundedPrefix(Normalised(t));
    CutPairs(Normalised(t), bounded);
    ChoppedIsWellFormed(bounded);
    SanitizedAgain(t);
  }

  lemma BoundedPrefix(t: Text)
    ensures Bounded(t) <= t
  {}

  /** On text that is not well-formed a second round can cut more. */
  lemma LoneHalvesShrink()
    ensures Sanitized([0xD800, 0xD800]) == [0xD800] && Sanitized([0xD800]) == []
  {
    var a: Text, b: Text := [0xD800], [0xD800, 0xD800];
    assert a == [] + [0xD800] && b == a + [0xD800];
    assert Scan([]) == Scanned([], false);
    ScanMore([], 0xD800);
    ScanMore(a, 0xD800);
    assert Normalised(a) == a && Normalised(b) == b;
  }
}
