/** The pieces of Python's string behaviour the scripts rely on: `str.strip()`
    with no argument, the decimal rendering of a counter in an f-string, and
    the count of a character in a string. */
module PyStr {

  import opened Util

  /** The characters `str.isspace` accepts, which is the set `str.strip()` removes:
      U+0009..U+000D, U+001C..U+0020, U+0085, U+00A0, U+1680, U+2000..U+200A,
      U+2028, U+2029, U+202F, U+205F and U+3000. */
  predicate IsSpace(c: char) {
    || ('\t' <= c <= '\r')
    || ('\U{1C}' <= c <= ' ')
    || c == '\U{85}' || c == '\U{A0}' || c == '\U{1680}'
    || ('\U{2000}' <= c <= '\U{200A}')
    || c == '\U{2028}' || c == '\U{2029}' || c == '\U{202F}' || c == '\U{205F}'
    || c == '\U{3000}'
  }

  predicate AllSpace(s: string) {
    forall k :: 0 <= k < |s| ==> IsSpace(s[k])
  }

  /** `s.lstrip()`: drops leading whitespace. */
  function TrimStart(s: string): (r: string)
    ensures |r| <= |s|
  {
    if s != [] && IsSpace(s[0]) then TrimStart(s[1..]) else s
  }

  /** What `TrimStart` keeps is the suffix that starts at the first
      non-whitespace character. */
  lemma {:induction false} TrimStartSpec(s: string)
    ensures var r := TrimStart(s);
      && r == s[|s| - |r|..]
      && AllSpace(s[..|s| - |r|])
      && (r != [] ==> !IsSpace(r[0]))
    decreases |s|
  {
    if s != [] && IsSpace(s[0]) {
      var r := TrimStart(s[1..]);
      TrimStartSpec(s[1..]);
      assert s[..|s| - |r|] == [s[0]] + s[1..][..|s| - 1 - |r|];
    }
  }

  /** `s.rstrip()`: drops trailing whitespace. */
  function TrimEnd(s: string): (r: string)
    ensures |r| <= |s|
  {
    if s != [] && IsSpace(s[|s| - 1]) then TrimEnd(s[..|s| - 1]) else s
  }

  /** What `TrimEnd` keeps is the prefix that ends at the last non-whitespace character. */
  lemma {:induction false} TrimEndSpec(s: string)
    ensures var r := TrimEnd(s);
      && r == s[..|r|]
      && AllSpace(s[|r|..])
      && (r != [] ==> !IsSpace(r[|r| - 1]))
    decreases |s|
  {
    if s != [] && IsSpace(s[|s| - 1]) {
      var r := TrimEnd(s[..|s| - 1]);
      TrimEndSpec(s[..|s| - 1]);
      assert s[|r|..] == s[..|s| - 1][|r|..] + [s[|s| - 1]];
    }
  }

  /** Offset of the first character `Strip` keeps. */
  function StripStart(s: string): (i: nat)
    ensures i <= |s|
  {
    |s| - |TrimStart(s)|
  }

  /** Python's `s.strip()`: removes leading and trailing whitespace. */
  function Strip(s: string): (r: string)
    ensures StripStart(s) + |r| <= |s|
  {
    TrimEnd(TrimStart(s))
  }

  /** `Strip` returns the slice of `s` left after removing leading and trailing
      whitespace: everything removed is whitespace and the slice neither starts
      nor ends with whitespace. */
  lemma StripSpec(s: string)
    ensures var r, a := Strip(s), StripStart(s);
      && r == s[a..a + |r|]
      && AllSpace(s[..a]) && AllSpace(s[a + |r|..])
      && (r != [] ==> !IsSpace(r[0]) && !IsSpace(r[|r| - 1]))
  {
    var t := TrimStart(s);
    var r := TrimEnd(t);
    TrimStartSpec(s);
    TrimEndSpec(t);
    assert s[StripStart(s) + |r|..] == t[|r|..];
  }

  /** The slice `Strip` returns is the only one with whitespace on both sides and
      no whitespace at either of its ends: whichever way a stripped string is
      described, it is the same string. */
  lemma {:induction false} StripUnique(s: string, i: nat, j: nat)
    requires i <= j <= |s|
    requires AllSpace(s[..i]) && AllSpace(s[j..])
    requires i < j ==> !IsSpace(s[i]) && !IsSpace(s[j - 1])
    ensures Strip(s) == s[i..j]
  {
    StripSpec(s);
    var r := Strip(s);
    var a := StripStart(s);
    assert forall k :: 0 <= k < a ==> IsSpace(s[k]) by {
      forall k | 0 <= k < a ensures IsSpace(s[k]) { assert s[..a][k] == s[k]; }
    }
    assert forall k :: a + |r| <= k < |s| ==> IsSpace(s[k]) by {
      forall k | a + |r| <= k < |s| ensures IsSpace(s[k]) { assert s[a + |r|..][k - a - |r|] == s[k]; }
    }
    assert forall k :: 0 <= k < i ==> IsSpace(s[k]) by {
      forall k | 0 <= k < i ensures IsSpace(s[k]) { assert s[..i][k] == s[k]; }
    }
    assert forall k :: j <= k < |s| ==> IsSpace(s[k]) by {
      forall k | j <= k < |s| ensures IsSpace(s[k]) { assert s[j..][k - j] == s[k]; }
    }
    if i < j && r != [] {
      assert r[0] == s[a] && r[|r| - 1] == s[a + |r| - 1];
    }
  }

  /** Stripping twice is stripping once. */
  lemma StripIdempotent(s: string)
    ensures Strip(Strip(s)) == Strip(s)
  {
    StripSpec(s);
    var r := Strip(s);
    StripUnique(r, 0, |r|);
    assert r[0..|r|] == r;
  }

  /** A stripped string is empty exactly when the input is all whitespace. */
  lemma StripEmptyIff(s: string)
    ensures Strip(s) == [] <==> AllSpace(s)
  {
    StripSpec(s);
    var a := StripStart(s);
    if Strip(s) == [] {
      assert s == s[..a] + s[a..];
      forall k | 0 <= k < |s| ensures IsSpace(s[k]) {
        if k < a { assert s[..a][k] == s[k]; }
      }
    } else {
      assert Strip(s)[0] == s[a];
    }
  }

  /** What the strip-and-keep loop appends for one OCR reading: its stripped
      text, when that is not empty. */
  function KeepStripped(reading: string): (r: seq<string>)
    ensures |r| <= 1
    ensures r == [] <==> AllSpace(reading)
    ensures forall t :: t in r ==> t != [] && Strip(t) == t
  {
    var t := Strip(reading);
    StripEmptyIff(reading);
    StripIdempotent(reading);
    if t != [] then [t] else []
  }

  /** The strip-and-keep loop: every OCR reading is stripped and kept when the
      stripped text is not empty, in reading order. */
  function StripKeep(readings: seq<string>): seq<string>
  {
    FlatMap(readings, KeepStripped)
  }

  /** The kept texts: no more than the readings, each non-empty and already
      stripped, and exactly the stripped forms of the readings that are not all
      whitespace. */
  lemma StripKeepSpec(readings: seq<string>)
    ensures |StripKeep(readings)| <= |readings|
    ensures forall t :: t in StripKeep(readings) ==> t != [] && Strip(t) == t
    ensures forall t :: t in StripKeep(readings) <==>
      exists i :: 0 <= i < |readings| && !AllSpace(readings[i]) && t == Strip(readings[i])
  {
    FlatMapAtMostOne(readings, KeepStripped);
    forall t ensures t in StripKeep(readings) <==>
      exists i :: 0 <= i < |readings| && !AllSpace(readings[i]) && t == Strip(readings[i])
    {
      FlatMapMember(readings, KeepStripped, t);
    }
  }

  /** Strip-and-keep over two batches is the two results one after the other,
      so kept texts appear in reading order. */
  lemma StripKeepConcat(a: seq<string>, b: seq<string>)
    ensures StripKeep(a + b) == StripKeep(a) + StripKeep(b)
  {
    FlatMapConcat(a, b, KeepStripped);
  }

  function DigitChar(d: nat): (c: char)
    requires d < 10
    ensures '0' <= c <= '9'
  {
    (48 + d) as char
  }

  predicate IsDigits(s: string) {
    forall k :: 0 <= k < |s| ==> '0' <= s[k] <= '9'
  }

  /** The decimal rendering of a natural number, as `f"{n}"` produces it. */
  function Decimal(n: nat): (s: string)
    ensures s != [] && IsDigits(s)
    ensures s[0] == '0' ==> n == 0
    decreases n
  {
    if n < 10 then [DigitChar(n)] else Decimal(n / 10) + [DigitChar(n % 10)]
  }

  /** Reads a string of digits back as a number. */
  function DecimalValue(s: string): nat
    requires IsDigits(s)
  {
    if s == [] then 0 else 10 * DecimalValue(s[..|s| - 1]) + (s[|s| - 1] as int - 48)
  }

  /** The rendering is faithful: reading the digits back gives the number. */
  lemma {:induction false} DecimalRoundTrip(n: nat)
    ensures DecimalValue(Decimal(n)) == n
    decreases n
  {
    if n >= 10 {
      var s := Decimal(n);
      assert s[..|s| - 1] == Decimal(n / 10);
      DecimalRoundTrip(n / 10);
    }
  }

  /** Number of occurrences of `c` in `s`. */
  function Occurrences(s: string, c: char): (n: nat)
    ensures n <= |s|
  {
    if s == [] then 0 else Occurrences(s[..|s| - 1], c) + (if s[|s| - 1] == c then 1 else 0)
  }

  lemma {:induction false} OccurrencesConcat(a: string, b: string, c: char)
    ensures Occurrences(a + b, c) == Occurrences(a, c) + Occurrences(b, c)
    decreases |b|
  {
    if b == [] {
      assert a + b == a;
    } else {
      assert (a + b)[..|a + b| - 1] == a + b[..|b| - 1];
      OccurrencesConcat(a, b[..|b| - 1], c);
    }
  }

  lemma {:induction false} OccurrencesAbsent(s: string, c: char)
    requires c !in s
    ensures Occurrences(s, c) == 0
    decreases |s|
  {
    if s != [] {
      assert forall x :: x in s[..|s| - 1] ==> x in s;
      OccurrencesAbsent(s[..|s| - 1], c);
    }
  }
}
