/**
 * `utf16.Encode` over the Unicode scalar values of a string, as section
 * 2.1 of RFC 2781 describes it, with the decoding of section 2.2 as its
 * inverse. A Dafny `char` is a Unicode scalar value, which is what
 * `[]rune(s)` yields once invalid UTF-8 has been replaced.
 */
module Utf16 {
  import opened Wrappers

  /** A 16-bit code unit. */
  type CodeUnit = x: int | 0 <= x < 0x1_0000

  predicate IsHighSurrogate(u: int) { 0xD800 <= u < 0xDC00 }

  predicate IsLowSurrogate(u: int) { 0xDC00 <= u < 0xE000 }

  /** A scalar value beyond the Basic Multilingual Plane, which takes two code units. */
  predicate IsSupplementary(c: char) { c as int >= 0x1_0000 }

  /**
   * One scalar value: itself when below U+10000, otherwise the surrogate
   * pair W1 = 0xD800 + (U' >> 10), W2 = 0xDC00 + (U' & 0x3FF) for
   * U' = U - 0x10000.
   */
  function EncodeRune(c: char): (units: seq<CodeUnit>)
    ensures !IsSupplementary(c) ==> units == [c as int] && !IsHighSurrogate(units[0]) && !IsLowSurrogate(units[0])
    ensures IsSupplementary(c) ==> |units| == 2 && IsHighSurrogate(units[0]) && IsLowSurrogate(units[1])
  {
    var u := c as int;
    if u < 0x1_0000 then [u]
    else
      var v := u - 0x1_0000;
      [0xD800 + v / 0x400, 0xDC00 + v % 0x400]
  }

  /** `utf16.Encode`: the code units of every scalar value, in order. */
  function Encode(s: string): (units: seq<CodeUnit>)
    ensures |s| <= |units| <= 2 * |s|
  {
    if s == [] then [] else EncodeRune(s[0]) + Encode(s[1..])
  }

  /**
   * Section 2.2 of RFC 2781: a unit outside the surrogate range is a scalar
   * value of its own, a high surrogate followed by a low surrogate is one
   * supplementary value, and a lone surrogate is an error.
   */
  function Decode(units: seq<CodeUnit>): Option<string>
  {
    if units == [] then Some([])
    else
      var w1 := units[0];
      if IsLowSurrogate(w1) then None
      else if IsHighSurrogate(w1) then
        if |units| < 2 || !IsLowSurrogate(units[1]) then None
        else
          match Decode(units[2..])
          case None => None
          case Some(rest) => Some([(0x1_0000 + (w1 as int - 0xD800) * 0x400 + (units[1] as int - 0xDC00)) as char] + rest)
      else
        match Decode(units[1..])
        case None => None
        case Some(rest) => Some([w1 as char] + rest)
  }

  /** Decoding the encoding gives back the string. */
  lemma {:induction false} DecodeEncode(s: string)
    ensures Decode(Encode(s)) == Some(s)
  {
    if s != [] {
      var head := EncodeRune(s[0]);
      var rest := Encode(s[1..]);
      DecodeEncode(s[1..]);
      if IsSupplementary(s[0]) {
        assert (head + rest)[2..] == rest;
      } else {
        assert (head + rest)[1..] == rest;
      }
      assert [s[0]] + s[1..] == s;
    }
  }

  /** Without supplementary scalar values there is exactly one code unit per character. */
  lemma {:induction false} BmpLength(s: string)
    requires forall k :: 0 <= k < |s| ==> !IsSupplementary(s[k])
    ensures |Encode(s)| == |s|
  {
    if s != [] {
      assert forall k :: 0 <= k < |s[1..]| ==> s[1..][k] == s[k + 1];
      BmpLength(s[1..]);
    }
  }

  /** A supplementary scalar value counts as two code units. */
  lemma {:induction false} SupplementaryLength(s: string, k: nat)
    requires k < |s| && IsSupplementary(s[k])
    ensures |Encode(s)| > |s|
    decreases k
  {
    if k > 0 {
      SupplementaryLength(s[1..], k - 1);
    }
  }
}
