/**
 * `PickleWriter`: an append-only byte buffer in Chromium's pickle layout.
 * A `uint32` is written as four little-endian bytes; a string as its
 * UTF-16 code-unit count, the code units two little-endian bytes each,
 * and zero bytes up to the next multiple of four.
 */
module Pickle {
  import opened Wrappers
  import opened Utf16

  type Byte = x: int | 0 <= x < 256

  const TwoTo32: nat := 0x1_0000_0000

  /** A value that fits in a `uint32` is unchanged by the conversion to `uint32`. */
  lemma NoWrap(v: nat)
    requires v < TwoTo32
    ensures v % TwoTo32 == v
  {
  }

  /** `binary.LittleEndian` for a `uint32`: the low byte first, each next byte shifted down by eight bits. */
  function LE32(v: nat): (b: seq<Byte>)
    requires v < TwoTo32
    ensures |b| == 4
  {
    var q1 := v / 256;
    var q2 := q1 / 256;
    var q3 := q2 / 256;
    [v % 256, q1 % 256, q2 % 256, q3]
  }

  /** The `uint32` that four little-endian bytes hold. */
  function ReadLE32(b: seq<Byte>): (v: nat)
    requires |b| == 4
    ensures v < TwoTo32
  {
    b[0] as int + 256 * (b[1] as int + 256 * (b[2] as int + 256 * b[3] as int))
  }

  lemma ReadLE32LE32(v: nat)
    requires v < TwoTo32
    ensures ReadLE32(LE32(v)) == v
  {
    var q1 := v / 256;
    var q2 := q1 / 256;
    assert v == v % 256 + 256 * q1;
    assert q1 == q1 % 256 + 256 * q2;
    assert q2 == q2 % 256 + 256 * (q2 / 256);
  }

  lemma LE32ReadLE32(b: seq<Byte>)
    requires |b| == 4
    ensures LE32(ReadLE32(b)) == b
  {
    var v := ReadLE32(b);
    var x2 := b[2] as int + 256 * b[3] as int;
    var x1 := b[1] as int + 256 * x2;
    assert v == b[0] as int + 256 * x1;
    assert v / 256 == x1 && v % 256 == b[0];
    assert x1 / 256 == x2 && x1 % 256 == b[1];
    assert x2 / 256 == b[3] && x2 % 256 == b[2];
  }

  /** A code unit as two little-endian bytes. */
  function LE16(u: CodeUnit): (b: seq<Byte>)
    ensures |b| == 2
  {
    [u % 256, u / 256]
  }

  lemma ReadLE16(u: CodeUnit)
    ensures LE16(u)[0] as int + 256 * LE16(u)[1] as int == u
  {
  }

  /** The code units, two bytes each, in order. */
  function UnitBytes(units: seq<CodeUnit>): (b: seq<Byte>)
    ensures |b| == 2 * |units|
  {
    if units == [] then [] else UnitBytes(units[..|units| - 1]) + LE16(units[|units| - 1])
  }

  /** The code units that little-endian byte pairs hold; an odd last byte is ignored. */
  function ReadUnits(b: seq<Byte>): seq<CodeUnit>
  {
    if |b| < 2 then [] else ReadUnits(b[..|b| - 2]) + [b[|b| - 2] as int + 256 * b[|b| - 1] as int]
  }

  lemma {:induction false} ReadUnitsUnitBytes(units: seq<CodeUnit>)
    ensures ReadUnits(UnitBytes(units)) == units
  {
    if units != [] {
      var init := units[..|units| - 1];
      var b := UnitBytes(units);
      assert b[..|b| - 2] == UnitBytes(init);
      ReadLE16(units[|units| - 1]);
      ReadUnitsUnitBytes(init);
      assert units == init + [units[|units| - 1]];
    }
  }

  /** The zero bytes of the padding. */
  function Zeros(n: nat): (b: seq<Byte>)
    ensures |b| == n
  {
    if n == 0 then [] else [0] + Zeros(n - 1)
  }

  lemma {:induction false} ZerosAreZero(n: nat)
    ensures forall k :: 0 <= k < n ==> Zeros(n)[k] == 0
  {
    if n > 0 {
      ZerosAreZero(n - 1);
      assert forall k :: 1 <= k < n ==> Zeros(n)[k] == Zeros(n - 1)[k - 1];
    }
  }

  /** The zero bytes after `charCount` code units: two after an odd count, none after an even one. */
  function Padding(charCount: nat): nat
  {
    if charCount % 2 == 0 then 0 else 2
  }

  /** `(4 - (bytesWritten % 4)) % 4` for `bytesWritten = charCount * 2` is that padding. */
  lemma PaddingOfDouble(charCount: nat)
    ensures (4 - (charCount * 2) % 4) % 4 == Padding(charCount)
  {
    var q, m := charCount / 2, charCount % 2;
    assert charCount * 2 == 4 * q + 2 * m;
    assert (charCount * 2) % 4 == 2 * m;
  }

  /** Wrapping to `uint32` keeps the parity, so the padding too. */
  lemma WrapKeepsPadding(count: nat)
    ensures Padding(count % TwoTo32) == Padding(count)
  {
    var q, c := count / TwoTo32, count % TwoTo32;
    assert count == 2 * (0x8000_0000 * q) + c;
  }

  /** Wrapping the doubled count to `uint32` leaves its remainder modulo 4 alone. */
  lemma WrapKeepsQuarter(c: nat)
    requires c < TwoTo32
    ensures (c * 2 % TwoTo32) % 4 == (c * 2) % 4
  {
    var e, w := c * 2 / TwoTo32, c * 2 % TwoTo32;
    assert c * 2 == 4 * (0x4000_0000 * e) + w;
  }

  /**
   * The padding `WriteString16` computes, with `charCount` and
   * `charCount * 2` both wrapped to `uint32`, is the padding of the count
   * before the wrap.
   */
  lemma PaddingFormula(count: nat)
    ensures (4 - ((count % TwoTo32) * 2 % TwoTo32) % 4) % 4 == Padding(count)
  {
    var c := count % TwoTo32;
    WrapKeepsQuarter(c);
    PaddingOfDouble(c);
    WrapKeepsPadding(count);
  }

  /** The padding completes the code units to whole four-byte words. */
  lemma PaddingAligns(charCount: nat)
    ensures (2 * charCount + Padding(charCount)) % 4 == 0
  {
    var q, m := charCount / 2, charCount % 2;
    assert 2 * charCount + Padding(charCount) == 4 * (q + m);
  }

  /** What `WriteString16(s)` appends. */
  function String16(s: string): (b: seq<Byte>)
    ensures |b| == 4 + 2 * |Encode(s)| + Padding(|Encode(s)|)
  {
    var units := Encode(s);
    LE32(|units| % TwoTo32) + UnitBytes(units) + Zeros(Padding(|units|))
  }

  /** What `WriteString16` appends is a whole number of four-byte words, at most six bytes beyond the code units. */
  lemma String16Words(s: string)
    ensures |String16(s)| % 4 == 0 && |String16(s)| <= 6 + 2 * |Encode(s)|
  {
    var n := |Encode(s)|;
    PaddingAligns(n);
    Aligned(4, 2 * n + Padding(n));
  }

  /** `WriteString16` appends `words` four-byte words: the count, then the code units two to a word. */
  lemma String16Size(s: string) returns (words: nat)
    ensures |String16(s)| == 4 * words && words == 1 + (|Encode(s)| + 1) / 2
  {
    var n := |Encode(s)|;
    var q, m := n / 2, n % 2;
    assert n == 2 * q + m;
    words := 1 + q + m;
  }

  /** Two whole numbers of four-byte words make a whole number of them. */
  lemma Aligned(a: nat, b: nat)
    requires a % 4 == 0 && b % 4 == 0
    ensures (a + b) % 4 == 0
  {
    assert a + b == 4 * (a / 4 + b / 4);
  }

  /** What `WriteString16` appends starts with the count and ends with zero padding. */
  lemma String16Layout(s: string)
    ensures var b := String16(s); var n := |Encode(s)|;
      && b[0..4] == LE32(n % TwoTo32)
      && b[4..4 + 2 * n] == UnitBytes(Encode(s))
      && forall k :: 4 + 2 * n <= k < |b| ==> b[k] == 0
  {
    var units := Encode(s);
    var n := |units|;
    var b := String16(s);
    var z := Zeros(Padding(n));
    assert b == LE32(n % TwoTo32) + UnitBytes(units) + z;
    ZerosAreZero(Padding(n));
    forall k | 4 + 2 * n <= k < |b| ensures b[k] == 0 {
      assert b[k] == z[k - 4 - 2 * n];
    }
  }

  lemma UnitBytesSnoc(units: seq<CodeUnit>, i: nat)
    requires i < |units|
    ensures UnitBytes(units[..i + 1]) == UnitBytes(units[..i]) + [units[i] % 256, units[i] / 256]
  {
    assert units[..i + 1][..i] == units[..i];
  }

  lemma AppendPair(a: seq<Byte>, b: seq<Byte>, low: Byte, high: Byte)
    ensures a + b + [low, high] == a + (b + [low, high])
  {
  }

  lemma Append3(a: seq<Byte>, b: seq<Byte>, c: seq<Byte>, d: seq<Byte>)
    ensures ((a + b) + c) + d == a + ((b + c) + d)
  {
  }

  /** Appending a string to a buffer of whole four-byte words keeps it so. */
  lemma String16Aligned(buffer: seq<Byte>, s: string)
    requires |buffer| % 4 == 0
    ensures |buffer + String16(s)| % 4 == 0
  {
    String16Words(s);
    Aligned(|buffer|, |String16(s)|);
  }

  /** A `uint32` at the front of `b`, and what follows it. */
  function ReadUInt32(b: seq<Byte>): Option<(nat, seq<Byte>)>
  {
    if |b| < 4 then None else Some((ReadLE32(b[..4]), b[4..]))
  }

  /** A string as `WriteString16` writes it at the front of `b`, and what follows its padding. */
  function ReadString16(b: seq<Byte>): Option<(string, seq<Byte>)>
  {
    match ReadUInt32(b)
    case None => None
    case Some((n, body)) => ReadUnitsFrom(body, n)
  }

  /** `n` code units at the front of `b`, decoded, and what follows their padding. */
  function ReadUnitsFrom(b: seq<Byte>, n: nat): Option<(string, seq<Byte>)>
  {
    if |b| < 2 * n + Padding(n) then None
    else
      var decoded := Decode(ReadUnits(b[..2 * n]));
      if decoded.None? then None else Some((decoded.value, b[2 * n + Padding(n)..]))
  }

  /** Reading back what `WriteUInt32(v)` appended gives `v` and leaves what follows. */
  lemma ReadUInt32LE32(v: nat, rest: seq<Byte>)
    requires v < TwoTo32
    ensures ReadUInt32(LE32(v) + rest) == Some((v, rest))
  {
    var b := LE32(v) + rest;
    assert b[..4] == LE32(v) && b[4..] == rest;
    ReadLE32LE32(v);
  }

  /** Reading back what `WriteString16(s)` appended gives `s` and leaves what follows. */
  lemma ReadString16String16(s: string, rest: seq<Byte>)
    requires |Encode(s)| < TwoTo32
    ensures ReadString16(String16(s) + rest) == Some((s, rest))
  {
    var units := Encode(s);
    var n := |units|;
    NoWrap(n);
    var body := UnitBytes(units) + Zeros(Padding(n)) + rest;
    Append3(LE32(n), UnitBytes(units), Zeros(Padding(n)), rest);
    ReadUInt32LE32(n, body);
    UnitsDecode(s);
    ReadUnitsFromFrame(UnitBytes(units), n, s, Zeros(Padding(n)), rest);
  }

  /** The bytes of the code units of `s` decode to `s`. */
  lemma UnitsDecode(s: string)
    ensures Decode(ReadUnits(UnitBytes(Encode(s)))) == Some(s)
  {
    ReadUnitsUnitBytes(Encode(s));
    DecodeEncode(s);
  }

  lemma ReadUnitsFromFrame(data: seq<Byte>, n: nat, s: string, pad: seq<Byte>, rest: seq<Byte>)
    requires |data| == 2 * n && |pad| == Padding(n)
    requires Decode(ReadUnits(data)) == Some(s)
    ensures ReadUnitsFrom(data + pad + rest, n) == Some((s, rest))
  {
    var b := data + pad + rest;
    assert b[..2 * n] == data;
    assert b[2 * n + Padding(n)..] == rest;
  }

  /** `PickleWriter`, whose `bytes.Buffer` only ever grows at its end. */
  class PickleWriter {
    var buffer: seq<Byte>

    /** `NewPickleWriter`: an empty buffer. */
    constructor ()
      ensures buffer == []
    {
      buffer := [];
    }

    method WriteUInt32(value: nat)
      requires value < TwoTo32
      modifies this
      ensures buffer == old(buffer) + LE32(value)
    {
      var q1 := value / 256;
      var q2 := q1 / 256;
      buffer := buffer + [value % 256, q1 % 256, q2 % 256, q2 / 256];
    }

    /** The count, the code units one by one, then the padding. */
    method WriteString16(s: string)
      modifies this
      ensures buffer == old(buffer) + String16(s)
    {
      var encoded := Encode(s);
      var charCount := |encoded| % TwoTo32;
      WriteUInt32(charCount);
      ghost var counted := buffer;
      var i := 0;
      while i < |encoded|
        invariant 0 <= i <= |encoded|
        invariant buffer == counted + UnitBytes(encoded[..i])
      {
        var v: int := encoded[i];
        var low: Byte, high: Byte := v % 256, v / 256;
        UnitBytesSnoc(encoded, i);
        AppendPair(counted, UnitBytes(encoded[..i]), low, high);
        buffer := buffer + [low, high];
        i := i + 1;
      }
      assert encoded[..i] == encoded;
      var bytesWritten := charCount * 2 % TwoTo32;
      var padding := (4 - bytesWritten % 4) % 4;
      PaddingFormula(|encoded|);
      ghost var unpadded := buffer;
      if padding > 0 {
        buffer := buffer + Zeros(padding);
      } else {
        assert buffer == unpadded + Zeros(padding);
      }
      Append3(old(buffer), LE32(charCount), UnitBytes(encoded), Zeros(padding));
    }

    method GetPayload() returns (payload: seq<Byte>)
      ensures payload == buffer
    {
      payload := buffer;
    }
  }

  // ---- the layout the tests fix --------------------------------------

  /** The empty string is written as four zero bytes. */
  lemma EmptyString16()
    ensures String16("") == [0, 0, 0, 0]
  {
    assert Encode("") == [];
  }

  /**
   * A string without supplementary scalar values is counted in characters:
   * the count, then two bytes per character, then the padding of that count.
   */
  lemma BmpString16(s: string)
    requires |s| < TwoTo32
    requires forall k :: 0 <= k < |s| ==> !IsSupplementary(s[k])
    ensures String16(s)[..4] == LE32(|s|)
    ensures |String16(s)| == 4 + 2 * |s| + Padding(|s|)
  {
    BmpLength(s);
    NoWrap(|s|);
    String16Layout(s);
  }

  /** The count 2, then `"key"` and `"val"`: 4 + 12 + 12 = 28 bytes. */
  lemma KeyValLength()
    ensures |LE32(2) + String16("key") + String16("val")| == 28
  {
    BmpLength("key");
    BmpLength("val");
  }
}
