/**
 * The UTF-8 check that `std::str::from_utf8` applies to the log path's
 * bytes: well-formed byte sequences as listed in Table 3-7 of the Unicode
 * Standard (no overlong forms, no surrogates, nothing above U+10FFFF), and
 * the encoder of one scalar value as the reference it must accept.
 */
module Utf8 {
  import opened Wrappers

  /** b[j] exists and lies in lo..hi. */
  predicate ByteIn(b: seq<Byte>, j: nat, lo: int, hi: int)
  {
    j < |b| && lo <= b[j] <= hi
  }

  /**
   * The length of the well-formed sequence that starts at b[i], or 0 when
   * none starts there.
   */
  function SequenceLength(b: seq<Byte>, i: nat): (n: nat)
    requires i < |b|
    ensures n <= 4 && i + n <= |b|
  {
    var b0 := b[i];
    if b0 <= 0x7F then 1
    else if 0xC2 <= b0 <= 0xDF then
      if ByteIn(b, i + 1, 0x80, 0xBF) then 2 else 0
    else if b0 == 0xE0 then
      if ByteIn(b, i + 1, 0xA0, 0xBF) && ByteIn(b, i + 2, 0x80, 0xBF) then 3 else 0
    else if 0xE1 <= b0 <= 0xEC || 0xEE <= b0 <= 0xEF then
      if ByteIn(b, i + 1, 0x80, 0xBF) && ByteIn(b, i + 2, 0x80, 0xBF) then 3 else 0
    else if b0 == 0xED then
      if ByteIn(b, i + 1, 0x80, 0x9F) && ByteIn(b, i + 2, 0x80, 0xBF) then 3 else 0
    else if b0 == 0xF0 then
      if ByteIn(b, i + 1, 0x90, 0xBF) && ByteIn(b, i + 2, 0x80, 0xBF) && ByteIn(b, i + 3, 0x80, 0xBF) then 4 else 0
    else if 0xF1 <= b0 <= 0xF3 then
      if ByteIn(b, i + 1, 0x80, 0xBF) && ByteIn(b, i + 2, 0x80, 0xBF) && ByteIn(b, i + 3, 0x80, 0xBF) then 4 else 0
    else if b0 == 0xF4 then
      if ByteIn(b, i + 1, 0x80, 0x8F) && ByteIn(b, i + 2, 0x80, 0xBF) && ByteIn(b, i + 3, 0x80, 0xBF) then 4 else 0
    else 0
  }

  /** b[i..] is a run of well-formed sequences. */
  predicate ValidFrom(b: seq<Byte>, i: nat)
    requires i <= |b|
    decreases |b| - i
  {
    i == |b| || (SequenceLength(b, i) > 0 && ValidFrom(b, i + SequenceLength(b, i)))
  }

  /** `std::str::from_utf8(b).is_ok()`. */
  predicate IsValid(b: seq<Byte>)
  {
    ValidFrom(b, 0)
  }

  /** The UTF-8 encoding of one Unicode scalar value. */
  function Encode(c: char): (e: seq<Byte>)
    ensures 1 <= |e| <= 4
  {
    var v := c as int;
    if v < 0x80 then [v]
    else if v < 0x800 then [0xC0 + v / 0x40, 0x80 + v % 0x40]
    else if v < 0x1_0000 then [0xE0 + v / 0x1000, 0x80 + (v / 0x40) % 0x40, 0x80 + v % 0x40]
    else [0xF0 + v / 0x4_0000, 0x80 + (v / 0x1000) % 0x40, 0x80 + (v / 0x40) % 0x40, 0x80 + v % 0x40]
  }

  /** The encoding of a string: its scalar values' encodings, in order. */
  function EncodeString(s: string): seq<Byte>
    decreases |s|
  {
    if s == [] then [] else Encode(s[0]) + EncodeString(s[1..])
  }

  /** The checker reads exactly one sequence out of an encoded scalar value, whatever follows it. */
  lemma EncodedScalarIsOneSequence(c: char, rest: seq<Byte>)
    ensures SequenceLength(Encode(c) + rest, 0) == |Encode(c)|
  {
    var v := c as int;
    if v < 0x80 {
    } else if v < 0x800 {
      TwoByteForm(v, rest);
    } else if v < 0x1_0000 {
      ThreeByteForm(v, rest);
    } else {
      FourByteForm(v, rest);
    }
  }

  lemma TwoByteForm(v: int, rest: seq<Byte>)
    requires 0x80 <= v < 0x800
    ensures SequenceLength([0xC0 + v / 0x40, 0x80 + v % 0x40] + rest, 0) == 2
  {
    var b := [0xC0 + v / 0x40, 0x80 + v % 0x40] + rest;
    assert 2 <= v / 0x40 < 0x20;
    assert 0xC2 <= b[0] <= 0xDF;
    assert ByteIn(b, 1, 0x80, 0xBF);
  }

  lemma ThreeByteForm(v: int, rest: seq<Byte>)
    requires 0x800 <= v < 0x1_0000 && (v < 0xD800 || 0xE000 <= v)
    ensures SequenceLength([0xE0 + v / 0x1000, 0x80 + (v / 0x40) % 0x40, 0x80 + v % 0x40] + rest, 0) == 3
  {
    var b := [0xE0 + v / 0x1000, 0x80 + (v / 0x40) % 0x40, 0x80 + v % 0x40] + rest;
    var hi, mid := v / 0x1000, (v / 0x40) % 0x40;
    assert v / 0x40 == hi * 0x40 + mid;
    assert b[0] == 0xE0 + hi && b[1] == 0x80 + mid && ByteIn(b, 2, 0x80, 0xBF);
    assert hi == 0 ==> mid >= 0x20;
    assert hi == 0xD ==> mid < 0x20;
  }

  lemma FourByteForm(v: int, rest: seq<Byte>)
    requires 0x1_0000 <= v <= 0x10_FFFF
    ensures SequenceLength([0xF0 + v / 0x4_0000, 0x80 + (v / 0x1000) % 0x40, 0x80 + (v / 0x40) % 0x40, 0x80 + v % 0x40] + rest, 0) == 4
  {
    var b := [0xF0 + v / 0x4_0000, 0x80 + (v / 0x1000) % 0x40, 0x80 + (v / 0x40) % 0x40, 0x80 + v % 0x40] + rest;
    var hi, mid := v / 0x4_0000, (v / 0x1000) % 0x40;
    assert v / 0x1000 == hi * 0x40 + mid;
    assert b[0] == 0xF0 + hi && b[1] == 0x80 + mid;
    assert ByteIn(b, 2, 0x80, 0xBF) && ByteIn(b, 3, 0x80, 0xBF);
    assert hi <= 4;
    assert hi == 0 ==> mid >= 0x10;
    assert hi == 4 ==> mid < 0x10;
  }

  /** Well-formedness of a suffix does not depend on what precedes it. */
  lemma {:induction false} ValidFromShift(prefix: seq<Byte>, b: seq<Byte>, j: nat)
    requires j <= |b|
    ensures ValidFrom(prefix + b, |prefix| + j) == ValidFrom(b, j)
    decreases |b| - j
  {
    if j < |b| {
      var whole := prefix + b;
      var k := |prefix| + j;
      assert whole[k] == b[j];
      assert j + 1 < |b| ==> whole[k + 1] == b[j + 1];
      assert j + 2 < |b| ==> whole[k + 2] == b[j + 2];
      assert j + 3 < |b| ==> whole[k + 3] == b[j + 3];
      assert SequenceLength(whole, k) == SequenceLength(b, j);
      if SequenceLength(b, j) > 0 {
        ValidFromShift(prefix, b, j + SequenceLength(b, j));
      }
    }
  }

  /** from_utf8 accepts every encoded string: the check rejects only what no string encodes to. */
  lemma {:induction false} EncodedStringIsValid(s: string)
    ensures IsValid(EncodeString(s))
    decreases |s|
  {
    if s != [] {
      var head, tail := Encode(s[0]), EncodeString(s[1..]);
      EncodedStringIsValid(s[1..]);
      EncodedScalarIsOneSequence(s[0], tail);
      ValidFromShift(head, tail, 0);
    }
  }

  /** Some byte strings from_utf8 rejects: a lone continuation byte, an overlong NUL, an encoded surrogate. */
  lemma RejectsMalformed()
    ensures !IsValid([0x80])
    ensures !IsValid([0xC0, 0x80])
    ensures !IsValid([0xED, 0xA0, 0x80])
  {
  }
}
