/** Byte strings, little-endian fields and ordered writes into a buffer. */
module Bytes {

  type Byte = b: int | 0 <= b < 256
  type U16 = x: int | 0 <= x < 0x1_0000
  type U32 = x: int | 0 <= x < 0x1_0000_0000
  type U64 = x: int | 0 <= x < 0x1_0000_0000_0000_0000

  const U32_MAX: int := 0xFFFF_FFFF
  const TWO_TO_64: int := 0x1_0000_0000_0000_0000

  /** The value a 64-bit unsigned result keeps of an exact one. */
  function Wrap64(x: int): (r: U64)
  {
    x % TWO_TO_64
  }

  function Zeros(n: nat): (s: seq<Byte>)
    ensures |s| == n
    ensures forall i :: 0 <= i < n ==> s[i] == 0
  {
    seq(n, i => 0)
  }

  function Min(a: int, b: int): int
  {
    if a < b then a else b
  }

  function Max(a: int, b: int): int
  {
    if a < b then b else a
  }

  /** `s` with `data` laid over it at `offset`. */
  function Splice(s: seq<Byte>, offset: nat, data: seq<Byte>): (r: seq<Byte>)
    requires offset + |data| <= |s|
    ensures |r| == |s|
    ensures forall i :: 0 <= i < |s| ==> r[i] == if offset <= i < offset + |data| then data[i - offset] else s[i]
  {
    s[..offset] + data + s[offset + |data|..]
  }

  // ----- little-endian numbers -----

  function LittleEndian(value: nat, width: nat): (s: seq<Byte>)
    ensures |s| == width
  {
    if width == 0 then [] else [value % 256] + LittleEndian(value / 256, width - 1)
  }

  function FromLittleEndian(s: seq<Byte>): (value: nat)
  {
    if s == [] then 0 else s[0] + 256 * FromLittleEndian(s[1..])
  }

  function Power256(width: nat): (p: nat)
    ensures p > 0
  {
    if width == 0 then 1 else 256 * Power256(width - 1)
  }

  lemma {:induction false} LittleEndianRoundTrip(value: nat, width: nat)
    requires value < Power256(width)
    ensures FromLittleEndian(LittleEndian(value, width)) == value
  {
    if width > 0 {
      LittleEndianRoundTrip(value / 256, width - 1);
      assert LittleEndian(value, width)[1..] == LittleEndian(value / 256, width - 1);
    }
  }

  lemma FieldBounds()
    ensures Power256(2) == 0x1_0000 && Power256(4) == 0x1_0000_0000 && Power256(8) == TWO_TO_64
  {
    assert Power256(2) == 0x1_0000;
    assert Power256(3) == 0x100_0000;
    assert Power256(4) == 0x1_0000_0000;
    assert Power256(5) == 0x100_0000_0000;
    assert Power256(6) == 0x1_0000_0000_0000;
    assert Power256(7) == 0x100_0000_0000_0000;
  }

  lemma Le32RoundTrip(value: U32)
    ensures FromLittleEndian(LittleEndian(value, 4)) == value
  {
    FieldBounds();
    LittleEndianRoundTrip(value, 4);
  }

  lemma Le64RoundTrip(value: U64)
    ensures FromLittleEndian(LittleEndian(value, 8)) == value
  {
    FieldBounds();
    LittleEndianRoundTrip(value, 8);
  }

  // ----- several writes, one after the other -----

  datatype Write = Write(offset: nat, data: seq<Byte>)
  {
    function End(): nat { offset + |data| }
    predicate Covers(i: int) { offset <= i < End() }
  }

  predicate FitIn(writes: seq<Write>, size: nat)
  {
    forall k :: 0 <= k < |writes| ==> writes[k].End() <= size
  }

  /** The buffer after all the writes, in order. */
  function Apply(s: seq<Byte>, writes: seq<Write>): (r: seq<Byte>)
    requires FitIn(writes, |s|)
    ensures |r| == |s|
    decreases |writes|
  {
    if writes == [] then s
    else
      var last := writes[|writes| - 1];
      Splice(Apply(s, writes[..|writes| - 1]), last.offset, last.data)
  }

  predicate Covered(writes: seq<Write>, i: int)
  {
    exists k :: 0 <= k < |writes| && writes[k].Covers(i)
  }

  lemma {:induction false} AppliedElsewhere(s: seq<Byte>, writes: seq<Write>, i: nat)
    requires FitIn(writes, |s|) && i < |s|
    requires !Covered(writes, i)
    ensures Apply(s, writes)[i] == s[i]
    decreases |writes|
  {
    if writes != [] {
      var rest := writes[..|writes| - 1];
      assert !writes[|writes| - 1].Covers(i);
      assert forall k :: 0 <= k < |rest| ==> rest[k] == writes[k];
      AppliedElsewhere(s, rest, i);
    }
  }

  /** A write no later write touches can be read back. */
  lemma {:induction false} AppliedField(s: seq<Byte>, writes: seq<Write>, k: nat)
    requires FitIn(writes, |s|) && k < |writes|
    requires forall j :: k < j < |writes| ==> writes[j].End() <= writes[k].offset || writes[k].End() <= writes[j].offset
    ensures Apply(s, writes)[writes[k].offset..writes[k].End()] == writes[k].data
    decreases |writes|
  {
    var rest := writes[..|writes| - 1];
    var last := writes[|writes| - 1];
    var target := writes[k];
    if k < |writes| - 1 {
      AppliedField(s, rest, k);
      assert rest[k] == target;
      var before := Apply(s, rest);
      var after := Apply(s, writes);
      assert after == Splice(before, last.offset, last.data);
      assert after[target.offset..target.End()] == before[target.offset..target.End()];
    }
  }

  /** Writes whose ranges are laid out in increasing order. */
  predicate Ascending(writes: seq<Write>)
  {
    forall j, k :: 0 <= j < k < |writes| ==> writes[j].End() <= writes[k].offset
  }

  /** Every field of an ascending layout can be read back. */
  lemma AscendingFields(s: seq<Byte>, writes: seq<Write>)
    requires FitIn(writes, |s|) && Ascending(writes)
    ensures forall k :: 0 <= k < |writes| ==> Apply(s, writes)[writes[k].offset..writes[k].End()] == writes[k].data
  {
    forall k | 0 <= k < |writes|
      ensures Apply(s, writes)[writes[k].offset..writes[k].End()] == writes[k].data
    {
      AppliedField(s, writes, k);
    }
  }
}
