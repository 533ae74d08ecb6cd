/** Mount points: which of them hold a protected place, and how the kernel's mount
    table spells them. */
module MountPaths {
  import opened Wrappers
  import opened Text

  const SLASH: CodeUnit := 0x2F
  const BACKSLASH: CodeUnit := 0x5C
  const COLON: CodeUnit := 0x3A

  predicate LooksLikeDriveLetter(value: Text, unicode: Unicode)
  {
    if |value| == 1 then unicode.isLetter(value[0]) else |value| >= 2 && value[1] == COLON
  }

  function ChopSlashes(mount: Text): (r: Text)
    ensures r <= mount
    ensures mount != [] ==> r != []
  {
    if |mount| > 1 && mount[|mount| - 1] == SLASH then ChopSlashes(mount[..|mount| - 1]) else mount
  }

  /** One spelling per mount point; nothing for blank text. */
  function Normalized(value: Text, unicode: Unicode): Text
  {
    var mount := Trimmed(value);
    if mount == [] then []
    else if LooksLikeDriveLetter(mount, unicode) then unicode.toUpper(mount[..1])
    else ChopSlashes(Replaced(mount, BACKSLASH, SLASH))
  }

  method NormalizedMountPoint(value: Text, unicode: Unicode) returns (mount: Text)
    ensures mount == Normalized(value, unicode)
  {
    mount := Trimmed(value);
    if mount == [] {
      return [];
    }
    if LooksLikeDriveLetter(mount, unicode) {
      return unicode.toUpper(mount[..1]);
    }
    mount := Replaced(mount, BACKSLASH, SLASH);
    ghost var whole := mount;
    while |mount| > 1 && mount[|mount| - 1] == SLASH
      invariant ChopSlashes(mount) == ChopSlashes(whole)
    {
      mount := mount[..|mount| - 1];
    }
  }

  /** A slash of either kind. */
  predicate IsSlash(u: CodeUnit)
  {
    u == 0x2F || u == 0x5C
  }

  /** One text spells another with plain slashes only, and with none at its end unless it is the root. */
  predicate Spells(normal: Text, mount: Text)
  {
    && 0 < |normal| <= |mount|
    && (forall i :: 0 <= i < |normal| ==> normal[i] == if IsSlash(mount[i]) then 0x2F else mount[i])
    && (forall i :: |normal| <= i < |mount| ==> IsSlash(mount[i]))
    && (|normal| > 1 ==> !IsSlash(mount[|normal| - 1]))
  }

  lemma {:induction false} ChoppedSpells(mount: Text, k: nat)
    requires 0 < k <= |mount| && forall i :: k <= i < |mount| ==> IsSlash(mount[i])
    ensures Spells(ChopSlashes(Replaced(mount, BACKSLASH, SLASH)[..k]), mount)
  {
    var all := Replaced(mount, BACKSLASH, SLASH);
    if k > 1 && all[k - 1] == SLASH {
      assert all[..k][..k - 1] == all[..k - 1];
      ChoppedSpells(mount, k - 1);
    }
  }

  lemma SpelledOnce(a: Text, b: Text, mount: Text)
    requires Spells(a, mount) && Spells(b, mount)
    ensures a == b
  {}

  /** The one spelling of a mount point: nothing for blank text; a drive, which is what one letter or a colon in
      second place tells, by its letter alone in upper case; a path with plain slashes and none at the end. */
  lemma NormalizedMeans(value: Text, normal: Text, unicode: Unicode)
    ensures var mount := Trimmed(value);
            Normalized(value, unicode) == normal <==>
              if mount == [] then normal == []
              else if (|mount| == 1 && unicode.isLetter(mount[0])) || (|mount| >= 2 && mount[1] == 0x3A)
              then normal == unicode.toUpper([mount[0]])
              else Spells(normal, mount)
  {
    var mount := Trimmed(value);
    hide Trimmed, Spells, IsSlash, Replaced;
    if mount != [] {
      var all := Replaced(mount, BACKSLASH, SLASH);
      assert all[..|mount|] == all && mount[..1] == [mount[0]];
      ChoppedSpells(mount, |mount|);
      if Spells(normal, mount) {
        SpelledOnce(normal, ChopSlashes(all), mount);
      }
    }
  }

  /** A guarded drive letter protects whatever is mounted under the drive of that letter, in whichever case and with
      whichever slashes, and no other drive. */
  lemma DriveLetterGuards(guarded: CodeUnit, letter: CodeUnit, rest: Text, unicode: Unicode)
    requires unicode.isLetter(guarded) && !IsSpace(guarded) && !IsSpace(letter)
    requires rest != [] ==> !IsSpace(rest[|rest| - 1])
    requires |unicode.toUpper([letter])| == |unicode.toUpper([guarded])| == 1
    requires unicode.isLetter(unicode.toUpper([letter])[0])
    ensures IsProtected([letter, 0x3A] + rest, [[guarded]], unicode)
       <==> unicode.toUpper([letter]) == unicode.toUpper([guarded])
  {
    var mount := [letter, 0x3A] + rest;
    assert mount[|mount| - 1] == if rest == [] then 0x3A else rest[|rest| - 1];
    assert mount[..1] == [letter] && [guarded][..1] == [guarded];
    TrimmedKeeps(mount);
    TrimmedKeeps([guarded]);
    hide Trimmed, IsSpace;
    assert Normalized(mount, unicode) == unicode.toUpper([letter]);
    assert Normalized([guarded], unicode) == unicode.toUpper([guarded]);
    hide Normalized;
    var guards := [[guarded]];
    assert guards[0] == [guarded];
  }

  /** The candidate is the guarded place, or a path above it. */
  predicate Covers(candidate: Text, guarded: Text, unicode: Unicode)
  {
    && guarded != []
    && (candidate == guarded ||
        (&& !LooksLikeDriveLetter(candidate, unicode) && !LooksLikeDriveLetter(guarded, unicode)
         && StartsWith(guarded, if candidate == [SLASH] then candidate else candidate + [SLASH])))
  }

  predicate IsProtected(mountPoint: Text, guard: seq<Text>, unicode: Unicode)
  {
    var candidate := Normalized(mountPoint, unicode);
    candidate != [] && exists k :: 0 <= k < |guard| && Covers(candidate, Normalized(guard[k], unicode), unicode)
  }

  method IsProtectedMountPoint(mountPoint: Text, guard: seq<Text>, unicode: Unicode) returns (protect: bool)
    ensures protect == IsProtected(mountPoint, guard, unicode)
  {
    hide Normalized, LooksLikeDriveLetter;
    var candidate := NormalizedMountPoint(mountPoint, unicode);
    if candidate == [] {
      return false;
    }
    for k := 0 to |guard|
      invariant forall j :: 0 <= j < k ==> !Covers(candidate, Normalized(guard[j], unicode), unicode)
    {
      var guarded := NormalizedMountPoint(guard[k], unicode);
      if guarded == [] {
        continue;
      }
      if candidate == guarded {
        return true;
      }
      if !LooksLikeDriveLetter(candidate, unicode) && !LooksLikeDriveLetter(guarded, unicode) {
        var prefix := if candidate == [SLASH] then candidate else candidate + [SLASH];
        if StartsWith(guarded, prefix) {
          return true;
        }
      }
    }
    return false;
  }

  /** A drive is protected by places on the same drive and by nothing else, whatever paths are guarded. */
  lemma DriveGuardedByItself(mount: Text, guard: seq<Text>, unicode: Unicode)
    requires LooksLikeDriveLetter(Normalized(mount, unicode), unicode)
    ensures IsProtected(mount, guard, unicode)
       <==> exists place :: place in guard && Normalized(place, unicode) == Normalized(mount, unicode)
  {
    hide Normalized, LooksLikeDriveLetter;
    var candidate := Normalized(mount, unicode);
    assert candidate != [] by {
      DriveIsSpelled(candidate, unicode);
    }
    if place :| place in guard && Normalized(place, unicode) == candidate {
      var k :| 0 <= k < |guard| && guard[k] == place;
      assert Covers(candidate, Normalized(guard[k], unicode), unicode);
    }
  }

  lemma DriveIsSpelled(t: Text, unicode: Unicode)
    requires LooksLikeDriveLetter(t, unicode)
    ensures t != []
  {}

  // ----- clean absolute paths -----

  predicate IsComponent(component: Text)
  {
    component != [] && SLASH !in component && BACKSLASH !in component
  }

  /** Components, each after its slash. */
  function Joined(components: seq<Text>): (path: Text)
    ensures components == [] <==> path == []
    ensures path != [] ==> path[0] == SLASH
  {
    if components == [] then [] else [SLASH] + components[0] + Joined(components[1..])
  }

  function Path(components: seq<Text>): (path: Text)
    ensures path != [] && path[0] == SLASH
  {
    if components == [] then [SLASH] else Joined(components)
  }

  /** A path as Linux reports them: whole components, no edge whitespace, nothing like a drive letter. */
  predicate IsClean(components: seq<Text>)
  {
    && (forall k :: 0 <= k < |components| ==> IsComponent(components[k]))
    && (components != [] ==> components[0][0] != COLON && !IsSpace(Path(components)[|Path(components)| - 1]))
  }

  lemma {:induction false} JoinedHasNoBackslash(components: seq<Text>)
    requires forall k :: 0 <= k < |components| ==> IsComponent(components[k])
    ensures BACKSLASH !in Joined(components)
    ensures components != [] ==> Joined(components)[|Joined(components)| - 1] != SLASH
  {
    if components != [] {
      JoinedHasNoBackslash(components[1..]);
      var first, rest := components[0], Joined(components[1..]);
      if rest == [] {
        assert Joined(components)[|Joined(components)| - 1] == first[|first| - 1];
      }
    }
  }

  /** Normalising leaves a clean path as it is. */
  lemma CleanIsNormal(components: seq<Text>, unicode: Unicode)
    requires IsClean(components) && !unicode.isLetter(SLASH)
    ensures !LooksLikeDriveLetter(Path(components), unicode)
    ensures Normalized(Path(components), unicode) == Path(components)
  {
    hide Trimmed;
    var path := Path(components);
    JoinedHasNoBackslash(components);
    if components != [] {
      assert path[1] == components[0][0];
    }
    assert !IsSpace(SLASH);
    hide Joined, IsSpace;
    TrimmedKeeps(path);
    assert Replaced(path, BACKSLASH, SLASH) == path;
  }

  /** Text that starts at a slash, or is empty. */
  predicate StartsAtSlash(t: Text)
  {
    t != [] ==> t[0] == SLASH
  }

  /** Up to the first slash two texts have the same component. */
  lemma SameFirstComponent(a: Text, x: Text, b: Text, y: Text)
    requires SLASH !in a && SLASH !in b && StartsAtSlash(x) && StartsAtSlash(y) && x != []
    requires a + x <= b + y
    ensures a == b && x <= y
  {
    assert (b + y)[|a|] == (a + x)[|a|] == SLASH;
    assert |b| <= |a|;
    assert (a + x)[|b|] == (b + y)[|b|] == y[0];
    assert |a| == |b|;
    assert a == (a + x)[..|a|] && b == (b + y)[..|a|];
    assert x == (a + x)[|a|..] && y == (b + y)[|a|..];
  }

  /** A joined path followed by a slash begins another exactly when its components come first in it. */
  lemma {:induction false} JoinedPrefix(a: seq<Text>, b: seq<Text>)
    requires forall k :: 0 <= k < |a| ==> IsComponent(a[k])
    requires forall k :: 0 <= k < |b| ==> IsComponent(b[k])
    ensures Joined(a) + [SLASH] <= Joined(b) <==> a < b
    decreases |a|
  {
    if a == [] {
    } else if b == [] {
    } else {
      var x, y := Joined(a[1..]) + [SLASH], Joined(b[1..]);
      JoinedFirst(a);
      JoinedFirst(b);
      assert Joined(a) + [SLASH] == [SLASH] + (a[0] + x);
      hide Joined, IsComponent;
      JoinedPrefix(a[1..], b[1..]);
      PrefixOfTail(a, b);
      PrefixStep(a[0], x, b[0], y);
    }
  }

  lemma JoinedFirst(components: seq<Text>)
    requires components != [] && IsComponent(components[0])
    ensures Joined(components) == [SLASH] + (components[0] + Joined(components[1..]))
    ensures SLASH !in components[0]
  {}

  /** Two texts whose first components end at a slash: one begins the other exactly part by part. */
  lemma PrefixStep(a: Text, x: Text, b: Text, y: Text)
    requires SLASH !in a && SLASH !in b && StartsAtSlash(x) && StartsAtSlash(y) && x != []
    ensures [SLASH] + (a + x) <= [SLASH] + (b + y) <==> a == b && x <= y
  {
    StripSlash(a + x, b + y);
    SamePrefix(a, x, b, y);
    if a + x <= b + y {
      SameFirstComponent(a, x, b, y);
    }
  }

  lemma StripSlash(x: Text, y: Text)
    ensures [SLASH] + x <= [SLASH] + y <==> x <= y
  {
    assert ([SLASH] + x)[1..] == x && ([SLASH] + y)[1..] == y;
    if [SLASH] + x <= [SLASH] + y {
      assert x == ([SLASH] + y)[..|x| + 1][1..];
    }
  }

  lemma PrefixOfTail(a: seq<Text>, b: seq<Text>)
    requires a != [] && b != []
    ensures a < b <==> a[0] == b[0] && a[1..] < b[1..]
  {
    assert a == [a[0]] + a[1..] && b == [b[0]] + b[1..];
  }

  lemma SamePrefix(a: Text, x: Text, b: Text, y: Text)
    ensures a == b && x <= y ==> a + x <= b + y
  {
    if a == b && x <= y {
      assert b + y == (a + x) + y[|x|..];
    }
  }

  lemma {:induction false} JoinedInjective(a: seq<Text>, b: seq<Text>)
    requires forall k :: 0 <= k < |a| ==> IsComponent(a[k])
    requires forall k :: 0 <= k < |b| ==> IsComponent(b[k])
    requires Joined(a) == Joined(b)
    ensures a == b
    decreases |a|
  {
    if a != [] {
      var x, y := Joined(a[1..]) + [SLASH], Joined(b[1..]) + [SLASH];
      assert a[0] + x == Joined(a)[1..] + [SLASH] && b[0] + y == Joined(b)[1..] + [SLASH];
      SameFirstComponent(a[0], x, b[0], y);
      assert Joined(a[1..]) == x[..|x| - 1] && Joined(b[1..]) == y[..|y| - 1];
      assert |x| == |y|;
      JoinedInjective(a[1..], b[1..]);
      assert a == [a[0]] + a[1..] && b == [b[0]] + b[1..];
    }
  }

  lemma CoversCleanPath(a: seq<Text>, b: seq<Text>, unicode: Unicode)
    requires IsClean(a) && IsClean(b) && !unicode.isLetter(SLASH)
    ensures Covers(Path(a), Path(b), unicode) <==> a <= b
  {
    hide Normalized, LooksLikeDriveLetter;
    CleanIsNormal(a, unicode);
    CleanIsNormal(b, unicode);
    var path, guarded := Path(a), Path(b);
    if a == [] {
      assert guarded == [SLASH] + guarded[1..];
    } else {
      assert |path| >= 2 && path == Joined(a);
      JoinedPrefix(a, b);
      assert path + [SLASH] <= guarded <==> a < b;
      assert path == guarded <==> a == b by {
        if path == guarded {
          JoinedInjective(a, b);
        }
      }
      assert a <= b <==> a < b || a == b;
    }
  }

  /** A mount point is protected exactly when its components begin those of a guarded place. */
  lemma ProtectedMeansAbove(mount: seq<Text>, guard: seq<seq<Text>>, unicode: Unicode)
    requires IsClean(mount) && !unicode.isLetter(SLASH)
    requires forall k :: 0 <= k < |guard| ==> IsClean(guard[k])
    ensures IsProtected(Path(mount), seq(|guard|, k requires 0 <= k < |guard| => Path(guard[k])), unicode)
       <==> exists k :: 0 <= k < |guard| && mount <= guard[k]
  {
    var paths := seq(|guard|, k requires 0 <= k < |guard| => Path(guard[k]));
    CleanIsNormal(mount, unicode);
    forall k | 0 <= k < |guard|
      ensures Covers(Path(mount), Normalized(paths[k], unicode), unicode) <==> mount <= guard[k]
    {
      CleanIsNormal(guard[k], unicode);
      CoversCleanPath(mount, guard[k], unicode);
    }
  }

  // ----- the kernel's mount table -----

  /** The character three octal digits stand for, if they are that. */
  function EscapedUnit(digits: Text): Option<CodeUnit>
  {
    match ToInt(digits, 8)
    case None => None
    case Some(value) => Some(value % 0x1_0000)
  }

  /** Octal escapes turned back into characters. */
  function Unescaped(field: Text): Text
  {
    if field == [] then []
    else if field[0] == BACKSLASH && |field| > 3 && EscapedUnit(field[1..4]).Some? then
      [EscapedUnit(field[1..4]).value] + Unescaped(field[4..])
    else [field[0]] + Unescaped(field[1..])
  }

  lemma UnescapedFrom(field: Text, i: nat)
    requires i < |field|
    ensures var escape := if field[i] == BACKSLASH && i + 3 < |field| then EscapedUnit(field[i + 1..i + 4]) else None;
            Unescaped(field[i..])
            == if escape.Some? then [escape.value] + Unescaped(field[i + 4..])
               else [field[i]] + Unescaped(field[i + 1..])
  {
    hide EscapedUnit;
    assert field[i..][1..] == field[i + 1..];
    if i + 3 < |field| {
      assert field[i..][1..4] == field[i + 1..i + 4];
      assert field[i..][4..] == field[i + 4..];
    }
  }

  lemma TakenOver(result: Text, unit: CodeUnit, rest: Text)
    ensures result + ([unit] + rest) == (result + [unit]) + rest
  {}

  lemma NothingUnescaped(field: Text)
    ensures Unescaped(field[|field|..]) == []
  {}

  method UnescapeMountField(field: Text) returns (result: Text)
    ensures result == Unescaped(field)
  {
    hide EscapedUnit, Unescaped;
    result := [];
    var i := 0;
    assert field[0..] == field;
    while i < |field|
      invariant 0 <= i <= |field|
      invariant Unescaped(field) == result + Unescaped(field[i..])
    {
      UnescapedFrom(field, i);
      if field[i] == BACKSLASH && i + 3 < |field| {
        var code := EscapedUnit(field[i + 1..i + 4]);
        if code.Some? {
          TakenOver(result, code.value, Unescaped(field[i + 4..]));
          result := result + [code.value];
          i := i + 4;
          continue;
        }
      }
      TakenOver(result, field[i], Unescaped(field[i + 1..]));
      result := result + [field[i]];
      i := i + 1;
    }
    NothingUnescaped(field);
  }

  function Octal(u: CodeUnit): (t: Text)
    requires u < 0x100
    ensures |t| == 3
  {
    [0x30 + u / 64, 0x30 + u / 8 % 8, 0x30 + u % 8]
  }

  /** How the kernel writes a path: the characters it must not contain, and the backslash, in octal. */
  function Escaped(path: Text, special: set<CodeUnit>): Text
    requires forall u :: u in special ==> u < 0x100
  {
    if path == [] then []
    else (if path[0] in special then [BACKSLASH] + Octal(path[0]) else [path[0]]) + Escaped(path[1..], special)
  }

  lemma ThreeDigits(a: CodeUnit, b: CodeUnit, c: CodeUnit)
    requires IsDigit(a, 8) && IsDigit(b, 8) && IsDigit(c, 8)
    ensures DigitsValue([a, b, c], 8) == ((a - 0x30) * 8 + (b - 0x30)) * 8 + (c - 0x30)
  {
    assert [a][..0] == [] && [a, b][..1] == [a] && [a, b, c][..2] == [a, b];
    assert DigitsValue([a], 8) == DigitsValue([], 8) * 8 + (a - 0x30);
    assert DigitsValue([a, b], 8) == DigitsValue([a], 8) * 8 + (b - 0x30);
  }

  lemma OctalDigits(u: CodeUnit)
    requires u < 0x100
    ensures u / 64 < 8 && (u / 64 * 8 + u / 8 % 8) * 8 + u % 8 == u
  {}

  lemma OctalReads(u: CodeUnit)
    requires u < 0x100
    ensures ToInt(Octal(u), 8) == Some(u)
  {
    OctalDigits(u);
    ThreeDigits(0x30 + u / 64, 0x30 + u / 8 % 8, 0x30 + u % 8);
    var t := Octal(u);
    hide DigitsValue, Octal, Trimmed;
    assert forall i :: 0 <= i < 3 ==> IsDigit(t[i], 8);
    TrimmedKeeps(t);
  }

  /** Unescaping undoes the kernel's escaping, as long as backslashes are escaped too. */
  lemma {:induction false} EscapeRoundTrip(path: Text, special: set<CodeUnit>)
    requires BACKSLASH in special && forall u :: u in special ==> u < 0x100
    ensures Unescaped(Escaped(path, special)) == path
  {
    hide ToInt, Octal;
    if path != [] {
      EscapeRoundTrip(path[1..], special);
      var field, rest := Escaped(path, special), Escaped(path[1..], special);
      if path[0] in special {
        assert field == [BACKSLASH] + Octal(path[0]) + rest;
        assert field[1..4] == Octal(path[0]) && field[4..] == rest;
        OctalReads(path[0]);
      } else {
        assert field[1..] == rest;
      }
    }
  }

  /** An escaped path has no character the table uses to separate fields and lines. */
  lemma {:induction false} EscapedIsOneField(path: Text, special: set<CodeUnit>, u: CodeUnit)
    requires forall v :: v in special ==> v < 0x100
    requires u in special && u != BACKSLASH && !IsDigit(u, 8)
    ensures u !in Escaped(path, special)
  {
    if path != [] {
      EscapedIsOneField(path[1..], special, u);
    }
  }
}
