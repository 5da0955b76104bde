/**
  The few pieces of the .NET base library the validation rules call:
  `int` (32-bit), `char.IsWhiteSpace`, `string.IsNullOrEmpty`,
  `string.IsNullOrWhiteSpace`, `int.TryParse`, `int.ToString` and
  `string.Split(char)`.  A .NET `null` string is modelled as the empty string.
*/
module DotNet {
  import opened Wrappers

  const MinInt32: int := -0x8000_0000
  const MaxInt32: int := 0x7FFF_FFFF

  /** The C# `int`. */
  type Int32 = x: int | MinInt32 <= x <= MaxInt32

  // ---------------------------------------------------------------------------
  // Characters and blank strings
  // ---------------------------------------------------------------------------

  /** `char.IsWhiteSpace`: the Unicode space, line and paragraph separators,
      plus U+0009..U+000D and U+0085. */
  predicate IsWhiteSpace(c: char)
  {
    || ('\t' <= c <= '\r')
    || c == ' ' || c == '\U{85}' || c == '\U{A0}' || c == '\U{1680}'
    || ('\U{2000}' <= c <= '\U{200A}')
    || c == '\U{2028}' || c == '\U{2029}' || c == '\U{202F}' || c == '\U{205F}' || c == '\U{3000}'
  }

  /** `string.IsNullOrEmpty`. */
  predicate IsNullOrEmpty(s: string)
  {
    |s| == 0
  }

  /** `string.IsNullOrWhiteSpace`: every character is white space, which the
      empty string satisfies vacuously. */
  predicate IsNullOrWhiteSpace(s: string)
  {
    forall i | 0 <= i < |s| :: IsWhiteSpace(s[i])
  }

  lemma EmptyIsBlank(s: string)
    requires IsNullOrEmpty(s)
    ensures IsNullOrWhiteSpace(s)
  {
  }

  /** `string.Length`: the number of UTF-16 code units, so a character
      outside the Basic Multilingual Plane counts twice (a surrogate pair). */
  function Utf16Length(s: string): (n: nat)
    ensures |s| <= n <= 2 * |s|
  {
    if |s| == 0 then 0
    else (if s[0] as int > 0xFFFF then 2 else 1) + Utf16Length(s[1..])
  }

  /** On text within the Basic Multilingual Plane the two lengths agree. */
  lemma {:induction false} Utf16LengthOfBmp(s: string)
    requires forall i | 0 <= i < |s| :: s[i] as int <= 0xFFFF
    ensures Utf16Length(s) == |s|
  {
    if |s| > 0 {
      Utf16LengthOfBmp(s[1..]);
    }
  }

  // ---------------------------------------------------------------------------
  // int.TryParse and int.ToString
  // ---------------------------------------------------------------------------

  /** The white space `int.TryParse` skips before and after a numeral. */
  predicate IsNumberWhite(c: char)
  {
    ('\t' <= c <= '\r') || c == ' '
  }

  predicate IsDigit(c: char)
  {
    '0' <= c <= '9'
  }

  predicate AllDigits(s: string)
  {
    forall i | 0 <= i < |s| :: IsDigit(s[i])
  }

  /** `s` without its leading number white space. */
  function TrimStart(s: string): string
  {
    if |s| > 0 && IsNumberWhite(s[0]) then TrimStart(s[1..]) else s
  }

  /** `s` without its trailing number white space. */
  function TrimEnd(s: string): string
  {
    if |s| > 0 && IsNumberWhite(s[|s| - 1]) then TrimEnd(s[..|s| - 1]) else s
  }

  /** Trimming the front keeps a suffix of the text. */
  lemma {:induction false} TrimStartIsSuffix(s: string)
    ensures |TrimStart(s)| <= |s| && TrimStart(s) == s[|s| - |TrimStart(s)|..]
  {
    if |s| > 0 && IsNumberWhite(s[0]) {
      TrimStartIsSuffix(s[1..]);
    }
  }

  /** Trimming the back keeps a prefix of the text. */
  lemma {:induction false} TrimEndIsPrefix(s: string)
    ensures |TrimEnd(s)| <= |s| && TrimEnd(s) == s[..|TrimEnd(s)|]
  {
    if |s| > 0 && IsNumberWhite(s[|s| - 1]) {
      TrimEndIsPrefix(s[..|s| - 1]);
    }
  }

  /** The value of a string of decimal digits, most significant first. */
  function DigitsValue(ds: string): nat
    requires AllDigits(ds)
  {
    if |ds| == 0 then 0
    else 10 * DigitsValue(ds[..|ds| - 1]) + (ds[|ds| - 1] as int - '0' as int)
  }

  /**
    `int.TryParse(s, out value)` with the default `NumberStyles.Integer` and an
    invariant culture: optional surrounding white space, an optional leading
    `-` or `+`, then one or more decimal digits.  A numeral outside the
    32-bit range is a parse failure, as in .NET.
  */
  function TryParseInt32(s: string): (r: Option<Int32>)
  {
    ParseNumeral(TrimEnd(TrimStart(s)))
  }

  /** The part of `int.TryParse` after the surrounding white space is gone. */
  function ParseNumeral(t: string): (r: Option<Int32>)
  {
    var signed := |t| > 0 && (t[0] == '-' || t[0] == '+');
    var digits := if signed then t[1..] else t;
    if |digits| == 0 || !AllDigits(digits) then None
    else
      var magnitude: int := DigitsValue(digits);
      var v := if signed && t[0] == '-' then -magnitude else magnitude;
      if MinInt32 <= v <= MaxInt32 then Some(v) else None
  }

  /** The value an `out int` holds after `int.TryParse`: 0 when parsing fails. */
  function TryParseOut(s: string): Int32
  {
    match TryParseInt32(s)
    case None => 0
    case Some(v) => v
  }

  function DigitChar(d: nat): (c: char)
    requires d < 10
    ensures IsDigit(c) && c as int - '0' as int == d
  {
    ('0' as int + d) as char
  }

  /** The decimal digits of n, most significant first, no leading zeros. */
  function NatToString(n: nat): (s: string)
    ensures |s| > 0 && AllDigits(s)
  {
    if n < 10 then [DigitChar(n)] else NatToString(n / 10) + [DigitChar(n % 10)]
  }

  /** `int.ToString()` with an invariant culture. */
  function Int32ToString(n: int): (s: string)
    ensures |s| > 0 && (n >= 0 ==> AllDigits(s))
  {
    if n < 0 then "-" + NatToString(-n) else NatToString(n)
  }

  lemma {:induction false} NatToStringValue(n: nat)
    ensures DigitsValue(NatToString(n)) == n
  {
    var s := NatToString(n);
    if n >= 10 {
      NatToStringValue(n / 10);
      assert s[..|s| - 1] == NatToString(n / 10);
    }
  }

  /** A string that starts and ends with a non-white character is left alone
      by the trimming `int.TryParse` does. */
  lemma TrimLeavesNumeral(s: string)
    requires |s| > 0 && !IsNumberWhite(s[0]) && !IsNumberWhite(s[|s| - 1])
    ensures TrimEnd(TrimStart(s)) == s
  {
  }

  lemma ParseNatRoundTrip(n: nat)
    requires n <= MaxInt32
    ensures ParseNumeral(NatToString(n)) == Some(n)
  {
    NatToStringValue(n);
  }

  lemma ParseNegativeRoundTrip(n: Int32)
    requires n < 0
    ensures ParseNumeral("-" + NatToString(-(n as int))) == Some(n)
  {
    var ds := NatToString(-(n as int));
    var t := "-" + ds;
    assert t[1..] == ds;
    NatToStringValue(-(n as int));
  }

  /** Parsing what `ToString` prints gives the number back. */
  lemma ParseRoundTrip(n: Int32)
    ensures TryParseInt32(Int32ToString(n)) == Some(n)
  {
    var s := Int32ToString(n);
    if n < 0 {
      var ds := NatToString(-(n as int));
      assert s == "-" + ds;
      assert s[|s| - 1] == ds[|ds| - 1];
      TrimLeavesNumeral(s);
      ParseNegativeRoundTrip(n);
    } else {
      TrimLeavesNumeral(s);
      ParseNatRoundTrip(n);
    }
  }

  /** A numeral of a natural number above `int.MaxValue` does not parse. */
  lemma OverflowDoesNotParse(n: nat)
    requires n > MaxInt32
    ensures TryParseInt32(NatToString(n)) == None
  {
    TrimLeavesNumeral(NatToString(n));
    NatToStringValue(n);
  }

  /** Nor does a negative numeral below `int.MinValue`. */
  lemma NegativeOverflowDoesNotParse(n: nat)
    requires n > -MinInt32
    ensures TryParseInt32("-" + NatToString(n)) == None
  {
    var ds := NatToString(n);
    var t := "-" + ds;
    assert t[1..] == ds;
    assert t[|t| - 1] == ds[|ds| - 1];
    TrimLeavesNumeral(t);
    NatToStringValue(n);
  }

  /** Text without a single decimal digit never parses. */
  lemma NoDigitNoNumber(s: string)
    requires forall i | 0 <= i < |s| :: !IsDigit(s[i])
    ensures TryParseInt32(s) == None
  {
    var start := TrimStart(s);
    var t := TrimEnd(start);
    TrimStartIsSuffix(s);
    TrimEndIsPrefix(start);
    if |t| > 0 {
      // the last character of the trimmed text is a character of s
      assert start[..|t|] == t;
      assert t[|t| - 1] == s[|s| - |start| + |t| - 1];
    }
  }

  // ---------------------------------------------------------------------------
  // string.Split(char)
  // ---------------------------------------------------------------------------

  /** `s.Split(sep)`: the pieces between separators, empty pieces kept. */
  function Split(s: string, sep: char): (parts: seq<string>)
    ensures |parts| >= 1
  {
    if |s| == 0 then [""]
    else
      var rest := Split(s[1..], sep);
      if s[0] == sep then [""] + rest else [[s[0]] + rest[0]] + rest[1..]
  }

  /** The inverse of Split: the parts glued back with the separator. */
  function Join(parts: seq<string>, sep: char): string
    requires |parts| >= 1
  {
    if |parts| == 1 then parts[0] else parts[0] + [sep] + Join(parts[1..], sep)
  }

  function Count(s: string, c: char): nat
  {
    if |s| == 0 then 0 else (if s[0] == c then 1 else 0) + Count(s[1..], c)
  }

  lemma {:induction false} SplitJoin(s: string, sep: char)
    ensures Join(Split(s, sep), sep) == s
    ensures |Split(s, sep)| == Count(s, sep) + 1
    ensures forall k | 0 <= k < |Split(s, sep)| :: sep !in Split(s, sep)[k]
  {
    if |s| > 0 {
      var rest := Split(s[1..], sep);
      SplitJoin(s[1..], sep);
      if s[0] == sep {
        assert Split(s, sep) == [""] + rest;
        assert ([""] + rest)[1..] == rest;
      } else {
        var parts := Split(s, sep);
        assert parts[0] == [s[0]] + rest[0];
        assert parts[1..] == rest[1..];
        if |rest| > 1 {
          assert Join(rest, sep) == rest[0] + [sep] + Join(rest[1..], sep);
        }
        forall k | 0 <= k < |parts| ensures sep !in parts[k] {
          if k > 0 { assert parts[k] == rest[k]; }
        }
      }
    }
  }

  /** Splitting at the first separator: a separator-free head becomes the
      first part and the rest is split on its own. */
  lemma {:induction false} SplitAtSeparator(head: string, sep: char, tail: string)
    requires sep !in head
    ensures Split(head + [sep] + tail, sep) == [head] + Split(tail, sep)
  {
    var s := head + [sep] + tail;
    if |head| == 0 {
      assert s[1..] == tail;
    } else {
      assert s[1..] == head[1..] + [sep] + tail;
      SplitAtSeparator(head[1..], sep, tail);
      assert [head[0]] + head[1..] == head;
    }
  }

  /** Split inverts Join on parts that hold no separator. */
  lemma {:induction false} JoinSplit(parts: seq<string>, sep: char)
    requires |parts| >= 1
    requires forall k | 0 <= k < |parts| :: sep !in parts[k]
    ensures Split(Join(parts, sep), sep) == parts
  {
    if |parts| == 1 {
      SplitNoSeparator(parts[0], sep);
    } else {
      JoinSplit(parts[1..], sep);
      SplitAtSeparator(parts[0], sep, Join(parts[1..], sep));
      assert [parts[0]] + parts[1..] == parts;
    }
  }

  /** A separator-free string is one part. */
  lemma {:induction false} SplitNoSeparator(s: string, sep: char)
    requires sep !in s
    ensures Split(s, sep) == [s]
  {
    if |s| > 0 {
      SplitNoSeparator(s[1..], sep);
      assert [s[0]] + s[1..] == s;
    }
  }
}
