/**
 * `createChromiumData`: the clipboard payload that carries the plain text
 * and the texty JSON, in the layout of Chromium's custom clipboard data.
 * A pickle holds the entry count 2 and two key/value pairs of strings; the
 * result is the pickle's length as a `uint32`, followed by the pickle. The
 * JSON text is taken as given.
 */
module ChromiumData {
  import opened Wrappers
  import opened Utf16
  import opened Pickle

  /** A key of a pickle entry: a short string. */
  type Key = s: string | |s| <= 22

  const PlainTextKey: Key := "public.utf8-plain-text"
  const TextyKey: Key := "slack/texty"

  /** Below this many code units per text, no count or length leaves `uint32`. */
  const MaxTextUnits: nat := 0x1000_0000

  predicate Fits(first: string, second: string)
  {
    |Encode(first)| < MaxTextUnits && |Encode(second)| < MaxTextUnits
  }

  /** A key of at most 22 characters fits, whatever its characters. */
  lemma ShortFits(s: string)
    requires |s| <= 22
    ensures |Encode(s)| < MaxTextUnits
  {
  }

  lemma KeysFit()
    ensures |Encode(PlainTextKey)| < MaxTextUnits && |Encode(TextyKey)| < MaxTextUnits
  {
    ShortFits(PlainTextKey);
    ShortFits(TextyKey);
  }

  /** A pickle of the count 2 and two key/value pairs of strings, in the order they are written. */
  function TwoEntries(key1: string, value1: string, key2: string, value2: string): seq<Byte>
  {
    LE32(2) + String16(key1) + String16(value1) + String16(key2) + String16(value2)
  }

  /** The pickle `createChromiumData` writes: the plain text under its key, then the texty JSON under its. */
  function Payload(plainText: string, jsonText: string): seq<Byte>
  {
    TwoEntries(PlainTextKey, plainText, TextyKey, jsonText)
  }

  /** A pickle `p` behind its length, wrapped to `uint32`. */
  function Framed(p: seq<Byte>): seq<Byte>
  {
    LE32(|p| % TwoTo32) + p
  }

  /** What `createChromiumData` returns. */
  function ChromiumData(plainText: string, jsonText: string): seq<Byte>
  {
    Framed(Payload(plainText, jsonText))
  }

  /** `binary.LittleEndian.PutUint32(b[0:4], v)`: the first four bytes, and nothing else. */
  method PutUint32(b: array<Byte>, v: nat)
    requires 4 <= b.Length && v < TwoTo32
    modifies b
    ensures b[..4] == LE32(v) && b[4..] == old(b[4..])
  {
    b[0] := v % 256;
    b[1] := (v / 256) % 256;
    b[2] := (v / 256 / 256) % 256;
    b[3] := v / 256 / 256 / 256;
  }

  method CreateChromiumData(plainText: string, jsonText: string) returns (finalData: array<Byte>)
    ensures fresh(finalData) && finalData[..] == ChromiumData(plainText, jsonText)
  {
    var writer := new PickleWriter();
    writer.WriteUInt32(2);
    writer.WriteString16(PlainTextKey);
    writer.WriteString16(plainText);
    writer.WriteString16(TextyKey);
    writer.WriteString16(jsonText);
    var payload := writer.GetPayload();
    assert [] + LE32(2) == LE32(2);
    finalData := LengthPrefixed(payload);
  }

  /** The last step of `createChromiumData`: a new array holding the wrapped length of `payload`, then `payload`. */
  method LengthPrefixed(payload: seq<Byte>) returns (finalData: array<Byte>)
    ensures fresh(finalData) && finalData[..] == Framed(payload)
  {
    finalData := new Byte[4 + |payload|];
    PutUint32(finalData, |payload| % TwoTo32);
    var i := 0;
    while i < |payload|
      invariant 0 <= i <= |payload|
      invariant finalData[..4] == LE32(|payload| % TwoTo32)
      invariant finalData[4..4 + i] == payload[..i]
      modifies finalData
    {
      finalData[4 + i] := payload[i];
      assert finalData[4..4 + i + 1] == finalData[4..4 + i] + [payload[i]];
      assert payload[..i + 1] == payload[..i] + [payload[i]];
      i := i + 1;
    }
    assert finalData[..] == finalData[..4] + finalData[4..4 + |payload|];
  }

  // ---- reading the payload back --------------------------------------

  /** The key/value pair with the given key at the front of `b`: its value and what follows. */
  function ReadEntry(b: seq<Byte>, key: string): Option<(string, seq<Byte>)>
  {
    match ReadString16(b)
    case None => None
    case Some((k, rest)) =>
      if k != key then None else ReadString16(rest)
  }

  /** A pickle of the count 2, an entry under `key1`, an entry under `key2`, and nothing more: the two values. */
  function ParseTwoEntries(p: seq<Byte>, key1: string, key2: string): Option<(string, string)>
  {
    match ReadUInt32(p)
    case None => None
    case Some((count, entries)) =>
      if count != 2 then None
      else
        match ReadEntry(entries, key1)
        case None => None
        case Some((value1, more)) =>
          match ReadEntry(more, key2)
          case None => None
          case Some((value2, rest)) => if rest != [] then None else Some((value1, value2))
  }

  /** A length, which must be that of the pickle that follows, then the pickle. */
  function ParseFramed(data: seq<Byte>, key1: string, key2: string): Option<(string, string)>
  {
    match ReadUInt32(data)
    case None => None
    case Some((size, payload)) => if size != |payload| then None else ParseTwoEntries(payload, key1, key2)
  }

  /** The clipboard data as `createChromiumData` lays it out: the plain text and the texty JSON. */
  function ParseChromiumData(data: seq<Byte>): Option<(string, string)>
  {
    ParseFramed(data, PlainTextKey, TextyKey)
  }

  lemma ReadEntryWritten(key: string, value: string, rest: seq<Byte>)
    requires Fits(key, value)
    ensures ReadEntry(String16(key) + (String16(value) + rest), key) == Some((value, rest))
  {
    ReadString16String16(key, String16(value) + rest);
    ReadString16String16(value, rest);
  }

  lemma Regroup5(a: seq<Byte>, b: seq<Byte>, c: seq<Byte>, d: seq<Byte>, e: seq<Byte>)
    ensures a + b + c + d + e == a + (b + (c + (d + (e + []))))
  {
    assert e + [] == e;
    assert (a + b + c + d) + e == (a + b + c) + (d + e);
    assert (a + b + c) + (d + e) == (a + b) + (c + (d + e));
    assert (a + b) + (c + (d + e)) == a + (b + (c + (d + e)));
  }

  /** Any pickle of two entries reads back as the two values. */
  lemma TwoEntriesRead(key1: string, value1: string, key2: string, value2: string)
    requires Fits(key1, value1) && Fits(key2, value2)
    ensures ParseTwoEntries(TwoEntries(key1, value1, key2, value2), key1, key2) == Some((value1, value2))
  {
    var second := String16(key2) + (String16(value2) + []);
    var entries := String16(key1) + (String16(value1) + second);
    Regroup5(LE32(2), String16(key1), String16(value1), String16(key2), String16(value2));
    ReadUInt32LE32(2, entries);
    ReadEntryWritten(key1, value1, second);
    ReadEntryWritten(key2, value2, []);
  }

  /** A pickle of two entries of fitting texts is shorter than 2^32 bytes. */
  lemma TwoEntriesSize(key1: string, value1: string, key2: string, value2: string)
    requires Fits(key1, value1) && Fits(key2, value2)
    ensures |TwoEntries(key1, value1, key2, value2)| < TwoTo32
  {
    String16Words(key1);
    String16Words(value1);
    String16Words(key2);
    String16Words(value2);
    var a, b, c, d := String16(key1), String16(value1), String16(key2), String16(value2);
    assert |LE32(2) + a + b + c + d| == 4 + |a| + |b| + |c| + |d|;
  }

  /** A pickle shorter than 2^32 bytes reads back from behind its length. */
  lemma FramedRead(p: seq<Byte>, key1: string, key2: string)
    requires |p| < TwoTo32
    ensures ParseFramed(Framed(p), key1, key2) == ParseTwoEntries(p, key1, key2)
  {
    NoWrap(|p|);
    ReadUInt32LE32(|p|, p);
  }

  /** Framing a pickle of two fitting entries and reading it back gives the two values. */
  lemma TwoEntriesRoundTrip(key1: string, value1: string, key2: string, value2: string)
    requires Fits(key1, value1) && Fits(key2, value2)
    ensures ParseFramed(Framed(TwoEntries(key1, value1, key2, value2)), key1, key2) == Some((value1, value2))
  {
    TwoEntriesSize(key1, value1, key2, value2);
    FramedRead(TwoEntries(key1, value1, key2, value2), key1, key2);
    TwoEntriesRead(key1, value1, key2, value2);
  }

  /** Reading the clipboard data back gives the two texts that were written. */
  lemma ParseChromiumDataRoundTrip(plainText: string, jsonText: string)
    requires Fits(plainText, jsonText)
    ensures ParseChromiumData(ChromiumData(plainText, jsonText)) == Some((plainText, jsonText))
  {
    KeysFit();
    TwoEntriesRoundTrip(PlainTextKey, plainText, TextyKey, jsonText);
  }

  /** A pickle of two entries starts with the count 2. */
  lemma TwoEntriesStart(key1: string, value1: string, key2: string, value2: string)
    ensures TwoEntries(key1, value1, key2, value2)[..4] == [2, 0, 0, 0]
  {
    var a := LE32(2);
    var rest := String16(key1) + (String16(value1) + (String16(key2) + (String16(value2) + [])));
    Regroup5(a, String16(key1), String16(value1), String16(key2), String16(value2));
    assert (a + rest)[..4] == a;
  }

  lemma MultipleOfFour(w: nat)
    ensures (4 * w) % 4 == 0
  {
  }

  /** A pickle of two entries is `words` four-byte words long. */
  lemma TwoEntriesLength(key1: string, value1: string, key2: string, value2: string) returns (words: nat)
    ensures |TwoEntries(key1, value1, key2, value2)| == 4 * words
  {
    var w1 := String16Size(key1);
    var w2 := String16Size(value1);
    var w3 := String16Size(key2);
    var w4 := String16Size(value2);
    var a, b, c, d := String16(key1), String16(value1), String16(key2), String16(value2);
    assert |LE32(2) + a + b + c + d| == 4 + |a| + |b| + |c| + |d|;
    words := 1 + w1 + w2 + w3 + w4;
  }

  /** A pickle of two entries is a whole number of four-byte words. */
  lemma TwoEntriesWords(key1: string, value1: string, key2: string, value2: string)
    ensures |TwoEntries(key1, value1, key2, value2)| % 4 == 0
  {
    var words := TwoEntriesLength(key1, value1, key2, value2);
    MultipleOfFour(words);
  }

  /**
   * A framed pickle of two entries: the pickle starts with the count 2 and
   * is a whole number of four-byte words, and so is the whole, four bytes
   * longer.
   */
  lemma FramedLayout(key1: string, value1: string, key2: string, value2: string)
    ensures var p := TwoEntries(key1, value1, key2, value2);
      && p[..4] == [2, 0, 0, 0]
      && |p| % 4 == 0
      && |Framed(p)| == 4 + |p|
      && |Framed(p)| % 4 == 0
  {
    TwoEntriesStart(key1, value1, key2, value2);
    TwoEntriesWords(key1, value1, key2, value2);
    Aligned(4, |TwoEntries(key1, value1, key2, value2)|);
  }

  /** The layout of what `createChromiumData` returns. */
  lemma Layout(plainText: string, jsonText: string)
    ensures Payload(plainText, jsonText)[..4] == [2, 0, 0, 0]
    ensures |Payload(plainText, jsonText)| % 4 == 0
    ensures |ChromiumData(plainText, jsonText)| == 4 + |Payload(plainText, jsonText)|
    ensures |ChromiumData(plainText, jsonText)| % 4 == 0
  {
    FramedLayout(PlainTextKey, plainText, TextyKey, jsonText);
  }
}
