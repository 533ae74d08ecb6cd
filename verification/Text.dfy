/** Text as UTF-16 code units, which need not be well-formed, and the few string
    operations the rest is built from. */
module Text {
  import opened Wrappers

  type CodeUnit = u: int | 0 <= u < 0x1_0000
  type Text = seq<CodeUnit>

  /** Character properties no decision here depends on: any tables will do. */
  datatype Unicode = Unicode(
    isLetter: CodeUnit -> bool,
    isLetterOrNumber: CodeUnit -> bool,
    upperUnit: CodeUnit -> CodeUnit,
    toUpper: Text -> Text,
    caseFold: Text -> Text)

  predicate IsSpace(u: CodeUnit)
  {
    || 0x09 <= u <= 0x0D || u == 0x20 || u == 0x85 || u == 0xA0 || u == 0x1680
    || 0x2000 <= u <= 0x200A || u == 0x2028 || u == 0x2029 || u == 0x202F || u == 0x205F || u == 0x3000
  }

  function TrimmedLeft(t: Text): (r: Text)
    ensures |r| <= |t| && r == t[|t| - |r|..]
    ensures r != [] ==> !IsSpace(r[0])
  {
    if t != [] && IsSpace(t[0]) then TrimmedLeft(t[1..]) else t
  }

  function TrimmedRight(t: Text): (r: Text)
    ensures r <= t
    ensures r != [] ==> !IsSpace(r[|r| - 1])
  {
    if t != [] && IsSpace(t[|t| - 1]) then TrimmedRight(t[..|t| - 1]) else t
  }

  function Trimmed(t: Text): (r: Text)
    ensures r != [] ==> !IsSpace(r[0]) && !IsSpace(r[|r| - 1])
  {
    var left := TrimmedLeft(t);
    var r := TrimmedRight(left);
    assert r != [] ==> r[0] == left[0];
    r
  }

  /** Text that neither begins nor ends with a space is left alone. */
  lemma TrimmedKeeps(t: Text)
    requires t != [] ==> !IsSpace(t[0]) && !IsSpace(t[|t| - 1])
    ensures Trimmed(t) == t
  {}

  predicate FoundAt(t: Text, part: Text, k: nat)
  {
    k + |part| <= |t| && t[k..k + |part|] == part
  }

  predicate Contains(t: Text, part: Text)
  {
    exists k: nat :: k <= |t| && FoundAt(t, part, k)
  }

  /** What was found at one place is still there when more follows. */
  lemma ContainsMore(t: Text, part: Text, more: Text)
    requires Contains(t, part)
    ensures Contains(t + more, part)
  {
    var k: nat :| k <= |t| && FoundAt(t, part, k);
    assert (t + more)[k..k + |part|] == t[k..k + |part|];
    assert FoundAt(t + more, part, k);
  }

  predicate StartsWith(t: Text, prefix: Text)
  {
    prefix <= t
  }

  function Replaced(t: Text, before: CodeUnit, after: CodeUnit): (r: Text)
    ensures |r| == |t|
    ensures forall i :: 0 <= i < |t| ==> r[i] == if t[i] == before then after else t[i]
  {
    seq(|t|, i requires 0 <= i < |t| => if t[i] == before then after else t[i])
  }

  // ----- numbers -----

  predicate IsDigit(u: CodeUnit, base: nat)
    requires 2 <= base <= 10
  {
    0x30 <= u < 0x30 + base
  }

  function DigitsValue(t: Text, base: nat): (value: nat)
    requires 2 <= base <= 10 && forall i :: 0 <= i < |t| ==> IsDigit(t[i], base)
  {
    if t == [] then 0
    else
      assert IsDigit(t[|t| - 1], base);
      var digit: nat := t[|t| - 1] as int - 0x30;
      var rest := DigitsValue(t[..|t| - 1], base);
      rest * base + digit
  }

  /** The lenient conversion: surrounding spaces and a sign are allowed, the value must fit 32 bits. */
  function ToInt(t: Text, base: nat): Option<int>
    requires 2 <= base <= 10
  {
    var body := Trimmed(t);
    var signed := body != [] && body[0] in {0x2B, 0x2D};
    var digits := if signed then body[1..] else body;
    if digits == [] || exists i :: 0 <= i < |digits| && !IsDigit(digits[i], base) then None
    else
      var magnitude: int := DigitsValue(digits, base);
      var value: int := if signed && body[0] == 0x2D then -magnitude else magnitude;
      if -0x8000_0000 <= value < 0x8000_0000 then Some(value) else None
  }

  /** A number in decimal, without leading zeros. */
  function Decimal(n: nat): (t: Text)
    ensures t != [] && forall i :: 0 <= i < |t| ==> IsDigit(t[i], 10)
    decreases n
  {
    var digit: CodeUnit := 0x30 + n % 10;
    if n < 10 then [digit] else Decimal(n / 10) + [digit]
  }

  lemma {:induction false} DecimalValue(n: nat)
    ensures DigitsValue(Decimal(n), 10) == n
    decreases n
  {
    if n >= 10 {
      DecimalValue(n / 10);
      assert Decimal(n)[..|Decimal(n)| - 1] == Decimal(n / 10);
    } else {
      assert Decimal(n)[..0] == [];
    }
  }

  lemma DecimalReads(n: nat)
    requires n < 0x8000_0000
    ensures ToInt(Decimal(n), 10) == Some(n)
  {
    var t := Decimal(n);
    assert IsDigit(t[0], 10) && IsDigit(t[|t| - 1], 10);
    TrimmedKeeps(t);
    DecimalValue(n);
  }

  /** As `QString::number` writes an `int`. */
  function SignedDecimal(n: int): (t: Text)
    ensures t != []
  {
    if n < 0 then [0x2D] + Decimal(-n) else Decimal(n)
  }

  lemma SignedDecimalReads(n: int)
    requires -0x8000_0000 <= n < 0x8000_0000
    ensures ToInt(SignedDecimal(n), 10) == Some(n)
  {
    if n >= 0 {
      DecimalReads(n);
    } else {
      var digits := Decimal(-n);
      var t := [0x2D] + digits;
      assert IsDigit(digits[|digits| - 1], 10) && t[|t| - 1] == digits[|digits| - 1];
      TrimmedKeeps(t);
      assert t[1..] == digits;
      DecimalValue(-n);
      hide DigitsValue, Decimal, Trimmed;
    }
  }
}
