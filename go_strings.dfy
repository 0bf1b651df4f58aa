/**
 * The Go standard-library string functions the generator relies on:
 * `strings.TrimSpace`, `strings.Repeat`, `strings.Join`, `strconv.Atoi`
 * and `fmt.Sprintf("%d")`, over strings taken as sequences of Unicode
 * scalar values.
 */
module GoStrings {
  import opened Wrappers

  const MinInt64: int := -0x8000_0000_0000_0000
  const MaxInt64: int := 0x7FFF_FFFF_FFFF_FFFF

  /** The characters Go's `unicode.IsSpace` accepts: the Unicode White_Space property. */
  const WhiteSpace: set<char> := {
    '\t', '\n', '\U{0B}', '\U{0C}', '\r', ' ', '\U{85}', '\U{A0}', '\U{1680}',
    '\U{2000}', '\U{2001}', '\U{2002}', '\U{2003}', '\U{2004}', '\U{2005}',
    '\U{2006}', '\U{2007}', '\U{2008}', '\U{2009}', '\U{200A}',
    '\U{2028}', '\U{2029}', '\U{202F}', '\U{205F}', '\U{3000}'
  }

  predicate IsSpace(c: char) { c in WhiteSpace }

  /** Every character of `s` is white space (the empty string included). */
  predicate Blank(s: string) {
    forall k :: 0 <= k < |s| ==> IsSpace(s[k])
  }

  lemma BlankConcat(a: string, b: string)
    ensures Blank(a + b) <==> Blank(a) && Blank(b)
  {
    if Blank(a) && Blank(b) {
      forall k | 0 <= k < |a + b| ensures IsSpace((a + b)[k]) {
        if k < |a| { assert (a + b)[k] == a[k]; } else { assert (a + b)[k] == b[k - |a|]; }
      }
    }
    if Blank(a + b) {
      forall k | 0 <= k < |a| ensures IsSpace(a[k]) { assert (a + b)[k] == a[k]; }
      forall k | 0 <= k < |b| ensures IsSpace(b[k]) { assert (a + b)[|a| + k] == b[k]; }
    }
  }

  /** The first index at or after `i` that does not hold white space (or `|s|`). */
  function TrimStart(s: string, i: nat): (j: nat)
    requires i <= |s|
    ensures i <= j <= |s|
    decreases |s| - i
  {
    if i < |s| && IsSpace(s[i]) then TrimStart(s, i + 1) else i
  }

  /** `TrimStart` passes over white space only, and stops at the first other character. */
  lemma {:induction false} TrimStartScans(s: string, i: nat)
    requires i <= |s|
    ensures forall k :: i <= k < TrimStart(s, i) ==> IsSpace(s[k])
    ensures TrimStart(s, i) < |s| ==> !IsSpace(s[TrimStart(s, i)])
    decreases |s| - i
  {
    if i < |s| && IsSpace(s[i]) {
      TrimStartScans(s, i + 1);
    }
  }

  /** Moves `j` back over white space, not below `lo`. */
  function TrimEnd(s: string, lo: nat, j: nat): (e: nat)
    requires lo <= j <= |s|
    ensures lo <= e <= j
  {
    if j > lo && IsSpace(s[j - 1]) then TrimEnd(s, lo, j - 1) else j
  }

  /** `TrimEnd` passes back over white space only, and stops after the last other character. */
  lemma {:induction false} TrimEndScans(s: string, lo: nat, j: nat)
    requires lo <= j <= |s|
    ensures forall k :: TrimEnd(s, lo, j) <= k < j ==> IsSpace(s[k])
    ensures TrimEnd(s, lo, j) > lo ==> !IsSpace(s[TrimEnd(s, lo, j) - 1])
  {
    if j > lo && IsSpace(s[j - 1]) {
      TrimEndScans(s, lo, j - 1);
    }
  }

  /** `strings.TrimSpace`: `s` without its leading and trailing white space. */
  function TrimSpace(s: string): (r: string)
    ensures |r| <= |s|
  {
    var i := TrimStart(s, 0);
    s[i..TrimEnd(s, i, |s|)]
  }

  /**
   * What `TrimSpace` leaves neither starts nor ends with white space, and
   * it is empty exactly when `s` is all white space.
   */
  lemma TrimSpaceTrims(s: string)
    ensures var r := TrimSpace(s); r != [] ==> !IsSpace(r[0]) && !IsSpace(r[|r| - 1])
    ensures TrimSpace(s) == [] <==> Blank(s)
  {
    var i := TrimStart(s, 0);
    var j := TrimEnd(s, i, |s|);
    TrimStartScans(s, 0);
    TrimEndScans(s, i, |s|);
    if i < |s| {
      assert i < j;
    }
  }

  /** Text that neither starts nor ends with white space is its own trim. */
  lemma TrimSpaceOfTrimmed(t: string)
    requires t != [] ==> !IsSpace(t[0]) && !IsSpace(t[|t| - 1])
    ensures TrimSpace(t) == t
  {
    if t != [] {
      assert TrimStart(t, 0) == 0;
      assert TrimEnd(t, 0, |t|) == |t|;
    }
  }

  /** Trimming is idempotent: text that has been trimmed is its own trim. */
  lemma TrimSpaceIdempotent(s: string)
    ensures TrimSpace(TrimSpace(s)) == TrimSpace(s)
  {
    TrimSpaceTrims(s);
    TrimSpaceOfTrimmed(TrimSpace(s));
  }

  /** `strings.Repeat(s, count)` for a count the call accepts. */
  function Repeat(s: string, count: nat): (r: string)
    ensures |r| == count * |s|
    ensures count > 0 ==> r[..|s|] == s && r[|s|..] == Repeat(s, count - 1)
  {
    if count == 0 then [] else s + Repeat(s, count - 1)
  }

  /** `strings.Join(elems, sep)`. */
  function Join(elems: seq<string>, sep: string): string
  {
    if elems == [] then []
    else if |elems| == 1 then elems[0]
    else Join(elems[..|elems| - 1], sep) + sep + elems[|elems| - 1]
  }

  /** `strings.Split(s, [sep])` for a one-character separator. */
  function Split(s: string, sep: char): (r: seq<string>)
    ensures |r| >= 1
  {
    if s == [] then [[]]
    else
      var tail := Split(s[1..], sep);
      if s[0] == sep then [[]] + tail else [[s[0]] + tail[0]] + tail[1..]
  }

  lemma SplitNoSeparator(s: string, sep: char)
    requires sep !in s
    ensures Split(s, sep) == [s]
  {
    if s != [] {
      SplitNoSeparator(s[1..], sep);
      assert [s[0]] + s[1..] == s;
    }
  }

  lemma {:induction false} SplitAround(a: string, sep: char, b: string)
    requires sep !in a
    ensures Split(a + [sep] + b, sep) == [a] + Split(b, sep)
  {
    if a == [] {
      assert a + [sep] + b == [sep] + b;
      assert ([sep] + b)[1..] == b;
    } else {
      assert (a + [sep] + b)[1..] == a[1..] + [sep] + b;
      SplitAround(a[1..], sep, b);
      assert [a[0]] + a[1..] == a;
    }
  }

  /**
   * Joining lines that hold no separator and splitting the result again
   * gives the lines back; the empty list is the one exception, since
   * `Join([], sep)` is `""`, which splits into one empty line.
   */
  lemma {:induction false} SplitJoin(lines: seq<string>, sep: char)
    requires |lines| >= 1
    requires forall k :: 0 <= k < |lines| ==> sep !in lines[k]
    ensures Split(Join(lines, [sep]), sep) == lines
  {
    if |lines| == 1 {
      SplitNoSeparator(lines[0], sep);
    } else {
      SplitJoin(lines[1..], sep);
      JoinFront(lines, [sep]);
      SplitAround(lines[0], sep, Join(lines[1..], [sep]));
      assert [lines[0]] + lines[1..] == lines;
    }
  }

  /** `Join` unfolded from the front. */
  lemma {:induction false} JoinFront(elems: seq<string>, sep: string)
    requires |elems| >= 2
    ensures Join(elems, sep) == elems[0] + sep + Join(elems[1..], sep)
  {
    if |elems| == 2 {
      assert elems[..1] == [elems[0]];
      assert elems[1..] == [elems[1]];
    } else {
      var init := elems[..|elems| - 1];
      JoinFront(init, sep);
      assert init[1..] == elems[1..][..|elems| - 2];
      assert elems[1..][|elems| - 2] == elems[|elems| - 1];
    }
  }

  predicate IsDigit(c: char) { '0' <= c <= '9' }

  predicate AllDigits(s: string) { forall k :: 0 <= k < |s| ==> IsDigit(s[k]) }

  /** The value of a string of decimal digits, most significant first. */
  function DigitsValue(s: string): nat
    requires AllDigits(s)
  {
    if s == [] then 0
    else DigitsValue(s[..|s| - 1]) * 10 + (s[|s| - 1] as int - '0' as int)
  }

  /**
   * `strconv.Atoi`: an optional `+` or `-`, then at least one ASCII digit
   * and nothing else; values outside the 64-bit range are errors.
   */
  function Atoi(s: string): (r: Option<int>)
    ensures r.Some? ==> MinInt64 <= r.value <= MaxInt64
    ensures r.Some? <==>
      var digits := if s != [] && (s[0] == '-' || s[0] == '+') then s[1..] else s;
      && digits != [] && AllDigits(digits)
      && MinInt64 <= (if s[0] == '-' then -(DigitsValue(digits) as int) else DigitsValue(digits)) <= MaxInt64
  {
    if s == [] then None
    else
      var digits := if s[0] == '-' || s[0] == '+' then s[1..] else s;
      if digits == [] || !AllDigits(digits) then None
      else
        var v := if s[0] == '-' then -(DigitsValue(digits) as int) else DigitsValue(digits);
        if MinInt64 <= v <= MaxInt64 then Some(v) else None
  }

  /** `fmt.Sprintf("%d", n)` for a non-negative n. */
  function DecimalString(n: nat): (r: string)
    ensures r != [] && AllDigits(r)
    ensures |r| > 1 ==> r[0] != '0'
    ensures DigitsValue(r) == n
  {
    var last := ('0' as int + n % 10) as char;
    if n < 10 then [last]
    else
      var r := DecimalString(n / 10) + [last];
      assert r[..|r| - 1] == DecimalString(n / 10);
      r
  }

  /** What `Sprintf("%d")` prints, `Atoi` reads back. */
  lemma AtoiDecimalString(n: nat)
    requires n <= MaxInt64
    ensures Atoi(DecimalString(n)) == Some(n)
  {
  }
}
