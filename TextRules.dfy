/**
  The rules of the older ValidatableEntryText project: its own copy of
  `MinLengthRule`, and `IsValidUrlRule`, which accepts a text that matches a
  fixed URL regular expression or, failing that, is a dotted-quad IPv4
  address.  The regular expression is not interpreted here: `Validate` takes
  the outcome of matching it as the function `urlPatternMatches`.
*/
module TextRules {
  import opened DotNet
  import Rules

  datatype MinLengthRule = MinLengthRule(errorMessage: string, minLength: Int32)
  {
    predicate Validate(text: string)
    {
      if IsNullOrWhiteSpace(text) then false else Utf16Length(text) > minLength
    }
  }

  /** The two copies of the rule give the same verdict on every text, so every
      property proved of `Rules.MinLengthRule` holds of this one. */
  lemma MinLengthAgreesWithEntryCopy(m: string, minLength: Int32, text: string)
    ensures MinLengthRule(m, minLength).Validate(text) == Rules.MinLengthRule(m, minLength).Validate(text)
  {
  }

  /** The promises of the rule, read off the entry copy through the agreement. */
  lemma MinLengthProperties(m: string, minLength: Int32, text: string)
    ensures IsNullOrWhiteSpace(text) ==> !MinLengthRule(m, minLength).Validate(text)
    ensures !IsNullOrWhiteSpace(text) ==>
      (MinLengthRule(m, minLength).Validate(text) <==> Utf16Length(text) > minLength)
    ensures !IsNullOrWhiteSpace(text) && Utf16Length(text) == minLength ==> !MinLengthRule(m, minLength).Validate(text)
    ensures !IsNullOrWhiteSpace(text) && minLength <= 0 ==> MinLengthRule(m, minLength).Validate(text)
  {
    MinLengthAgreesWithEntryCopy(m, minLength, text);
    if IsNullOrWhiteSpace(text) {
      Rules.MinLengthRejectsBlank(m, minLength, text);
    } else {
      Rules.MinLengthIsStrict(m, minLength, text);
    }
  }

  // ---------------------------------------------------------------------------
  // IsValidUrlRule
  // ---------------------------------------------------------------------------

  /** The lambda given to `parts.Any`: the out variable is 0 when parsing fails,
      and `&&` binds tighter than `||`. */
  predicate PartRejected(part: string)
  {
    var y := TryParseOut(part);
    (TryParseInt32(part).Some? && y > 255) || y < 1
  }

  /** `parts.Any(PartRejected)`. */
  predicate AnyPartRejected(parts: seq<string>)
  {
    exists k | 0 <= k < |parts| :: PartRejected(parts[k])
  }

  /** `isValidIP`: exactly four `'.'`-separated parts, none of them rejected. */
  predicate IsValidIP(s: string)
  {
    var parts := Split(s, '.');
    |parts| == 4 && !AnyPartRejected(parts)
  }

  datatype IsValidUrlRule = IsValidUrlRule(errorMessage: string)
  {
    /** A match of the URL pattern passes; otherwise the IP check decides. */
    predicate Validate(text: string, urlPatternMatches: string -> bool)
    {
      if !urlPatternMatches(text) then IsValidIP(text) else true
    }
  }

  /** A part is acceptable exactly when it parses to a value in 1..255; a part
      that does not parse (the empty part among them) is rejected. */
  lemma PartRejectedIff(part: string)
    ensures !PartRejected(part) <==>
      TryParseInt32(part).Some? && 1 <= TryParseInt32(part).value <= 255
    ensures TryParseInt32(part).None? ==> PartRejected(part)
  {
  }

  /** `isValidIP` holds exactly when there are four parts and each parses
      into 1..255. */
  lemma IsValidIPIff(s: string)
    ensures IsValidIP(s) <==>
      var parts := Split(s, '.');
      && |parts| == 4
      && forall k | 0 <= k < 4 ::
           TryParseInt32(parts[k]).Some? && 1 <= TryParseInt32(parts[k]).value <= 255
  {
    var parts := Split(s, '.');
    forall k | 0 <= k < |parts| {
      PartRejectedIff(parts[k]);
    }
  }

  /** A count of dots other than three means a part count other than four. */
  lemma WrongPartCountRejected(s: string)
    requires Count(s, '.') != 3
    ensures !IsValidIP(s)
  {
    SplitJoin(s, '.');
  }

  /** The four parts of a dotted quad whose pieces hold no dot. */
  lemma {:induction false} SplitQuad(a: string, b: string, c: string, d: string)
    requires '.' !in a && '.' !in b && '.' !in c && '.' !in d
    ensures Split(a + "." + b + "." + c + "." + d, '.') == [a, b, c, d]
  {
    SplitNoSeparator(d, '.');
    SplitAtSeparator(c, '.', d);
    assert c + "." + d == c + ['.'] + d;
    SplitAtSeparator(b, '.', c + "." + d);
    assert b + "." + c + "." + d == b + ['.'] + (c + "." + d);
    SplitAtSeparator(a, '.', b + "." + c + "." + d);
    assert a + "." + b + "." + c + "." + d == a + ['.'] + (b + "." + c + "." + d);
  }

  lemma NumeralHasNoDot(n: Int32)
    ensures '.' !in Int32ToString(n)
  {
    var s := Int32ToString(n);
    if n < 0 {
      assert s[1..] == NatToString(-(n as int));
      assert forall i | 1 <= i < |s| :: s[i] == s[1..][i - 1];
    }
  }

  /** A part written by `ToString` is accepted exactly when its number lies in 1..255. */
  lemma NumeralPart(n: Int32)
    ensures !PartRejected(Int32ToString(n)) <==> 1 <= n <= 255
  {
    ParseRoundTrip(n);
  }

  function Quad(a: Int32, b: Int32, c: Int32, d: Int32): string
  {
    Int32ToString(a) + "." + Int32ToString(b) + "." + Int32ToString(c) + "." + Int32ToString(d)
  }

  lemma QuadParts(a: Int32, b: Int32, c: Int32, d: Int32)
    ensures Split(Quad(a, b, c, d), '.') ==
      [Int32ToString(a), Int32ToString(b), Int32ToString(c), Int32ToString(d)]
  {
    NumeralHasNoDot(a);
    NumeralHasNoDot(b);
    NumeralHasNoDot(c);
    NumeralHasNoDot(d);
    SplitQuad(Int32ToString(a), Int32ToString(b), Int32ToString(c), Int32ToString(d));
  }

  /** Four parts none of which is rejected make a valid address. */
  lemma FourGoodParts(s: string, p0: string, p1: string, p2: string, p3: string)
    requires Split(s, '.') == [p0, p1, p2, p3]
    requires !PartRejected(p0) && !PartRejected(p1) && !PartRejected(p2) && !PartRejected(p3)
    ensures IsValidIP(s)
  {
    var parts := [p0, p1, p2, p3];
    forall k | 0 <= k < 4 ensures !PartRejected(parts[k]) {
    }
    assert !AnyPartRejected(parts);
  }

  /** One rejected part among four makes the address invalid. */
  lemma OneBadPart(s: string, p0: string, p1: string, p2: string, p3: string)
    requires Split(s, '.') == [p0, p1, p2, p3]
    requires PartRejected(p0) || PartRejected(p1) || PartRejected(p2) || PartRejected(p3)
    ensures !IsValidIP(s)
  {
    var parts := [p0, p1, p2, p3];
    if PartRejected(p0) { assert PartRejected(parts[0]); }
    else if PartRejected(p1) { assert PartRejected(parts[1]); }
    else if PartRejected(p2) { assert PartRejected(parts[2]); }
    else { assert PartRejected(parts[3]); }
    assert AnyPartRejected(parts);
  }

  /** The dotted quad of four numbers is an IP address exactly when every
      number lies in 1..255: so 1 and 255 are accepted, 0 and 256 are not. */
  lemma DottedQuadIff(a: Int32, b: Int32, c: Int32, d: Int32)
    ensures IsValidIP(Quad(a, b, c, d)) <==>
      1 <= a <= 255 && 1 <= b <= 255 && 1 <= c <= 255 && 1 <= d <= 255
  {
    var s, p0, p1, p2, p3 := Quad(a, b, c, d), Int32ToString(a), Int32ToString(b), Int32ToString(c), Int32ToString(d);
    QuadParts(a, b, c, d);
    NumeralPart(a);
    NumeralPart(b);
    NumeralPart(c);
    NumeralPart(d);
    if !PartRejected(p0) && !PartRejected(p1) && !PartRejected(p2) && !PartRejected(p3) {
      FourGoodParts(s, p0, p1, p2, p3);
    } else {
      OneBadPart(s, p0, p1, p2, p3);
    }
  }

  /** Concrete addresses: a missing or an extra part. */
  lemma WrongPartCountExamples()
    ensures !IsValidIP("1.2.3") && !IsValidIP("1.2.3.4.5")
  {
    WrongPartCountRejected("1.2.3");
    WrongPartCountRejected("1.2.3.4.5");
  }

  /** An empty part fails to parse and makes the address invalid. */
  lemma EmptyPartExample()
    ensures !IsValidIP("1..2.3")
  {
    SplitQuad("1", "", "2", "3");
    assert "1" + "." + "" + "." + "2" + "." + "3" == "1..2.3";
    PartRejectedIff("");
    assert PartRejected(Split("1..2.3", '.')[1]);
  }

  /** The ends of the accepted range of a part: 1 and 255 pass. */
  lemma LowestAndHighestPartsAccepted()
    ensures IsValidIP("1.1.1.1") && IsValidIP("255.255.255.255")
  {
    assert Int32ToString(1) == "1";
    assert Quad(1, 1, 1, 1) == "1.1.1.1";
    DottedQuadIff(1, 1, 1, 1);
    assert Int32ToString(255) == "255";
    assert Quad(255, 255, 255, 255) == "255.255.255.255";
    DottedQuadIff(255, 255, 255, 255);
  }

  /** Just outside the range of a part: 0 and 256 fail. */
  lemma ZeroPartRejected()
    ensures !IsValidIP("0.1.1.1")
  {
    assert Int32ToString(1) == "1";
    assert Int32ToString(0) == "0";
    assert Quad(0, 1, 1, 1) == "0.1.1.1";
    DottedQuadIff(0, 1, 1, 1);
  }

  lemma Part256Rejected()
    ensures !IsValidIP("256.1.1.1")
  {
    assert Int32ToString(1) == "1";
    assert NatToString(25) == "25";
    assert Int32ToString(256) == "256";
    assert Quad(256, 1, 1, 1) == "256.1.1.1";
    DottedQuadIff(256, 1, 1, 1);
  }

  /** When the URL pattern matches, the IP check is not consulted. */
  lemma UrlMatchAccepts(m: string, text: string, urlPatternMatches: string -> bool)
    requires urlPatternMatches(text)
    ensures IsValidUrlRule(m).Validate(text, urlPatternMatches)
  {
  }

  /** When it does not match, the verdict is the IP check's. */
  lemma UrlFallsBackToIP(m: string, text: string, urlPatternMatches: string -> bool)
    requires !urlPatternMatches(text)
    ensures IsValidUrlRule(m).Validate(text, urlPatternMatches) == IsValidIP(text)
  {
  }

  /** Whatever the pattern, an IP address passes, and a text passes only if
      the pattern matches it or it is an IP address. */
  lemma UrlAcceptsExactly(m: string, text: string, urlPatternMatches: string -> bool)
    ensures IsValidUrlRule(m).Validate(text, urlPatternMatches) <==>
      urlPatternMatches(text) || IsValidIP(text)
  {
  }
}
