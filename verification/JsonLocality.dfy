/** Decoding is local: a value decodes alike wherever the text of it stands. */
module JsonLocality {
  import opened Json

  /** `t`, read `d` further on, agrees with `s` from `lo` up to `hi`. */
  ghost predicate Same(s: string, t: string, d: int, lo: int, hi: int) {
    && 0 <= lo <= hi <= |s| && 0 <= lo + d && hi + d <= |t|
    && forall k :: lo <= k < hi ==> t[k + d] == s[k]
  }

  /** No number ending at `p` could have gone on. */
  predicate Stops(t: string, p: nat) {
    p >= |t| || !(IsDigit(t[p]) || t[p] == '.' || t[p] == 'e' || t[p] == 'E')
  }

  lemma {:induction false} SkipWsShift(s: string, t: string, d: int, lo: int, hi: int, i: nat)
    requires Same(s, t, d, lo, hi) && lo <= i && SkipWs(s, i) < hi
    ensures SkipWs(t, i + d) == SkipWs(s, i) + d
    decreases |s| - i
  {
    if IsWs(s[i]) {
      SkipWsShift(s, t, d, lo, hi, i + 1);
    }
  }

  lemma Hex4Shift(s: string, t: string, d: int, lo: int, hi: int, i: nat)
    requires Same(s, t, d, lo, hi) && lo <= i && i + 4 <= hi
    ensures Hex4(t, i + d) == Hex4(s, i)
  {
    assert t[i + d] == s[i] && t[i + 1 + d] == s[i + 1] && t[i + 2 + d] == s[i + 2] && t[i + 3 + d] == s[i + 3];
  }

  /** An escape looks no further than the literal it stands in goes on. */
  lemma UnicodeEscapeShift(s: string, t: string, d: int, lo: int, hi: int, i: nat)
    requires Same(s, t, d, lo, hi) && lo <= i
    requires UnicodeEscape(s, i).Done? && UnicodeEscape(s, i).end < hi
    requires At(s, i + 4, '\\') ==> i + 5 < hi && (s[i + 5] == 'u' ==> i + 10 <= hi)
    ensures UnicodeEscape(t, i + d) == Done(UnicodeEscape(s, i).value, UnicodeEscape(s, i).end + d)
  {
    Hex4Shift(s, t, d, lo, hi, i);
    assert t[i + 4 + d] == s[i + 4];
    if s[i + 4] == '\\' {
      assert t[i + 5 + d] == s[i + 5];
      if s[i + 5] == 'u' {
        Hex4Shift(s, t, d, lo, hi, i + 6);
      }
    }
  }

  lemma EscapeShift(s: string, t: string, d: int, lo: int, hi: int, i: nat)
    requires Same(s, t, d, lo, hi) && lo <= i
    requires Escape(s, i).Done? && Escape(s, i).end < hi
    requires s[i + 1] == 'u' && At(s, i + 6, '\\') ==> i + 7 < hi && (s[i + 7] == 'u' ==> i + 12 <= hi)
    ensures Escape(t, i + d) == Done(Escape(s, i).value, Escape(s, i).end + d)
  {
    hide UnicodeEscape, Hex4;
    assert t[i + 1 + d] == s[i + 1];
    if s[i + 1] == 'u' {
      UnicodeEscapeShift(s, t, d, lo, hi, i + 2);
    }
  }

  lemma EscapedStringReach(s: string, i: nat)
    requires At(s, i, '\\') && ScanString(s, i).Done?
    ensures i + 1 < ScanString(s, i).end && (s[i + 1] == 'u' ==> i + 6 <= ScanString(s, i).end)
  {
  }

  lemma EscapeReach(s: string, i: nat, hi: int)
    requires At(s, i, '\\') && ScanString(s, i).Done? && ScanString(s, i).end <= hi
    ensures Escape(s, i).end < hi
    ensures s[i + 1] == 'u' && At(s, i + 6, '\\') ==> i + 7 < hi && (s[i + 7] == 'u' ==> i + 12 <= hi)
  {
    var next := Escape(s, i).end;
    if s[i + 1] == 'u' && At(s, i + 6, '\\') && next == i + 6 {
      EscapedStringReach(s, next);
    }
  }

  lemma {:induction false} ScanStringShift(s: string, t: string, d: int, lo: int, hi: int, i: nat)
    requires Same(s, t, d, lo, hi) && lo <= i
    requires ScanString(s, i).Done? && ScanString(s, i).end <= hi
    ensures ScanString(t, i + d) == Done(ScanString(s, i).value, ScanString(s, i).end + d)
    decreases |s| - i
  {
    hide Escape, UnicodeEscape, Hex4, SimpleEscape;
    assert t[i + d] == s[i];
    if s[i] == '\\' {
      EscapeReach(s, i, hi);
      EscapeShift(s, t, d, lo, hi, i);
      ScanStringShift(s, t, d, lo, hi, Escape(s, i).end);
    } else if s[i] != '\"' {
      ScanStringShift(s, t, d, lo, hi, i + 1);
    }
  }

  lemma {:induction false} DigitsEndShift(s: string, t: string, d: int, lo: int, hi: int, i: nat)
    requires Same(s, t, d, lo, hi) && lo <= i <= hi && DigitsEnd(s, i) <= hi
    requires DigitsEnd(s, i) == hi ==> Stops(t, hi + d)
    ensures DigitsEnd(t, i + d) == DigitsEnd(s, i) + d
    decreases |s| - i
  {
    if i < hi && IsDigit(s[i]) {
      DigitsEndShift(s, t, d, lo, hi, i + 1);
    }
  }

  lemma IntegerEndShift(s: string, t: string, d: int, lo: int, hi: int, i: nat)
    requires Same(s, t, d, lo, hi) && lo <= i && i < IntegerEnd(s, i) <= hi
    requires IntegerEnd(s, i) == hi ==> Stops(t, hi + d)
    ensures IntegerEnd(t, i + d) == IntegerEnd(s, i) + d
  {
    assert t[i + d] == s[i];
    var first := if At(s, i, '-') then i + 1 else i;
    if !At(s, first, '0') {
      DigitsEndShift(s, t, d, lo, hi, first);
    }
  }

  lemma FractionEndShift(s: string, t: string, d: int, lo: int, hi: int, i: nat)
    requires Same(s, t, d, lo, hi) && lo <= i && FractionEnd(s, i) <= hi
    requires FractionEnd(s, i) == hi ==> Stops(t, hi + d)
    requires FractionEnd(s, i) == i ==> Stops(t, i + d) || (i < hi && s[i] != '.')
    ensures FractionEnd(t, i + d) == FractionEnd(s, i) + d
  {
    if FractionEnd(s, i) != i {
      assert t[i + d] == s[i] && t[i + 1 + d] == s[i + 1];
      DigitsEndShift(s, t, d, lo, hi, i + 1);
    } else if i < hi {
      assert t[i + d] == s[i];
    }
  }

  lemma ExponentEndShift(s: string, t: string, d: int, lo: int, hi: int, i: nat)
    requires Same(s, t, d, lo, hi) && lo <= i && ExponentEnd(s, i) <= hi
    requires ExponentEnd(s, i) == hi ==> Stops(t, hi + d)
    requires ExponentEnd(s, i) == i ==> Stops(t, i + d)
    ensures ExponentEnd(t, i + d) == ExponentEnd(s, i) + d
  {
    if ExponentEnd(s, i) != i {
      assert t[i + d] == s[i] && t[i + 1 + d] == s[i + 1];
      var digits := if At(s, i + 1, '+') || At(s, i + 1, '-') then i + 2 else i + 1;
      assert t[digits + d] == s[digits];
      DigitsEndShift(s, t, d, lo, hi, digits);
    }
  }

  lemma ExponentStarts(s: string, i: nat)
    ensures ExponentEnd(s, i) > i ==> At(s, i, 'e') || At(s, i, 'E')
  {
  }

  lemma ScanNumberShift(s: string, t: string, d: int, lo: int, hi: int, i: nat)
    requires Same(s, t, d, lo, hi) && lo <= i
    requires ScanNumber(s, i).Done? && ScanNumber(s, i).end <= hi && Stops(t, ScanNumber(s, i).end + d)
    ensures ScanNumber(t, i + d) == Done(ScanNumber(s, i).value, ScanNumber(s, i).end + d)
  {
    hide IntegerEnd, FractionEnd, ExponentEnd, DigitsEnd;
    var whole := IntegerEnd(s, i);
    var fraction := FractionEnd(s, whole);
    var end := ExponentEnd(s, fraction);
    ExponentStarts(s, fraction);
    IntegerEndShift(s, t, d, lo, end, i);
    FractionEndShift(s, t, d, lo, end, whole);
    ExponentEndShift(s, t, d, lo, end, fraction);
    assert t[i + d..end + d] == s[i..end];
  }

  lemma WordShift(s: string, t: string, d: int, lo: int, hi: int, i: nat, word: string)
    requires Same(s, t, d, lo, hi) && lo <= i && i + |word| <= hi
    ensures Matches(t, i + d, word) == Matches(s, i, word)
  {
    assert t[i + d..i + d + |word|] == s[i..i + |word|];
  }

  lemma WordStarts(s: string, i: nat, word: string)
    requires word != [] && Matches(s, i, word)
    ensures s[i] == word[0] && (|word| > 1 ==> s[i + 1] == word[1])
  {
    assert s[i..i + |word|][0] == s[i];
    assert |word| > 1 ==> s[i..i + |word|][1] == s[i + 1];
  }

  /** After a value inside an array or object comes whitespace or punctuation. */
  lemma DelimiterStops(s: string, t: string, d: int, lo: int, hi: int, i: nat, next: nat)
    requires Same(s, t, d, lo, hi) && lo <= i && next == SkipWs(s, i) && next < hi
    requires s[next] == ',' || s[next] == ']' || s[next] == '}'
    ensures Stops(t, i + d)
  {
    assert t[i + d] == s[i];
    if i < next {
      assert IsWs(s[i]);
    }
  }

  ghost predicate Settled(v: Value, t: string, p: nat) {
    v.Number? ==> Stops(t, p)
  }

  lemma NumberStarts(s: string, i: nat)
    requires ScanNumber(s, i).Done?
    ensures IsDigit(s[i]) || (s[i] == '-' && i + 1 < ScanNumber(s, i).end && IsDigit(s[i + 1]))
  {
  }

  lemma NotAWord(t: string, i: nat)
    requires i < |t| && (IsDigit(t[i]) || (t[i] == '-' && DigitAt(t, i + 1)))
    ensures !Matches(t, i, "null") && !Matches(t, i, "true") && !Matches(t, i, "false")
    ensures !Matches(t, i, "NaN") && !Matches(t, i, "Infinity") && !Matches(t, i, "-Infinity")
  {
    hide Matches;
    if Matches(t, i, "null") { WordStarts(t, i, "null"); }
    if Matches(t, i, "true") { WordStarts(t, i, "true"); }
    if Matches(t, i, "false") { WordStarts(t, i, "false"); }
    if Matches(t, i, "NaN") { WordStarts(t, i, "NaN"); }
    if Matches(t, i, "Infinity") { WordStarts(t, i, "Infinity"); }
    if Matches(t, i, "-Infinity") { WordStarts(t, i, "-Infinity"); }
  }

  /** At most one constant starts at a position. */
  lemma OneWord(t: string, i: nat, word: string, other: string)
    requires Matches(t, i, word) && 1 < |word| && 1 < |other| && word[0] != other[0]
    ensures !Matches(t, i, other)
  {
    WordStarts(t, i, word);
    if Matches(t, i, other) {
      WordStarts(t, i, other);
    }
  }

  lemma ParseTokenShift(s: string, t: string, d: int, lo: int, hi: int, i: nat)
    requires Same(s, t, d, lo, hi) && lo <= i
    requires ParseToken(s, i).Done? && ParseToken(s, i).end <= hi
    requires Settled(ParseToken(s, i).value, t, ParseToken(s, i).end + d)
    ensures ParseToken(t, i + d) == Done(ParseToken(s, i).value, ParseToken(s, i).end + d)
  {
    hide ScanNumber, Stops, Matches;
    if Matches(s, i, "null") {
      WordShift(s, t, d, lo, hi, i, "null");
    } else if Matches(s, i, "true") {
      WordShift(s, t, d, lo, hi, i, "true");
      OneWord(t, i + d, "true", "null");
    } else if Matches(s, i, "false") {
      WordShift(s, t, d, lo, hi, i, "false");
      OneWord(t, i + d, "false", "null");
      OneWord(t, i + d, "false", "true");
    } else if Matches(s, i, "NaN") {
      WordShift(s, t, d, lo, hi, i, "NaN");
      OneWord(t, i + d, "NaN", "null");
      OneWord(t, i + d, "NaN", "true");
      OneWord(t, i + d, "NaN", "false");
    } else if Matches(s, i, "Infinity") {
      WordShift(s, t, d, lo, hi, i, "Infinity");
      OneWord(t, i + d, "Infinity", "null");
      OneWord(t, i + d, "Infinity", "true");
      OneWord(t, i + d, "Infinity", "false");
      OneWord(t, i + d, "Infinity", "NaN");
    } else if Matches(s, i, "-Infinity") {
      WordShift(s, t, d, lo, hi, i, "-Infinity");
      OneWord(t, i + d, "-Infinity", "null");
      OneWord(t, i + d, "-Infinity", "true");
      OneWord(t, i + d, "-Infinity", "false");
      OneWord(t, i + d, "-Infinity", "NaN");
      OneWord(t, i + d, "-Infinity", "Infinity");
    } else {
      NumberStarts(s, i);
      assert t[i + d] == s[i];
      assert i + 1 < hi ==> t[i + 1 + d] == s[i + 1];
      NotAWord(t, i + d);
      ScanNumberIsNumber(s, i);
      ScanNumberShift(s, t, d, lo, hi, i);
    }
  }

  lemma ScanNumberIsNumber(s: string, i: nat)
    requires ScanNumber(s, i).Done?
    ensures ScanNumber(s, i).value.Number?
  {
  }

  lemma {:induction false} ParseValueShift(s: string, t: string, d: int, lo: int, hi: int, i: nat)
    requires Same(s, t, d, lo, hi) && lo <= i
    requires ParseValue(s, i).Done? && ParseValue(s, i).end <= hi
    requires Settled(ParseValue(s, i).value, t, ParseValue(s, i).end + d)
    ensures ParseValue(t, i + d) == Done(ParseValue(s, i).value, ParseValue(s, i).end + d)
    decreases |s| - i, 1
  {
    hide SkipWs, ParseElements, ParseMembers, ParseToken, ScanString;
    assert t[i + d] == s[i];
    if s[i] == '\"' {
      ScanStringShift(s, t, d, lo, hi, i + 1);
    } else if s[i] == '{' {
      SkipWsShift(s, t, d, lo, hi, i + 1);
      var first := SkipWs(s, i + 1);
      assert t[first + d] == s[first];
      if s[first] != '}' {
        ParseMembersShift(s, t, d, lo, hi, first);
      }
    } else if s[i] == '[' {
      SkipWsShift(s, t, d, lo, hi, i + 1);
      var first := SkipWs(s, i + 1);
      assert t[first + d] == s[first];
      if s[first] != ']' {
        ParseElementsShift(s, t, d, lo, hi, first);
      }
    } else {
      ParseTokenShift(s, t, d, lo, hi, i);
    }
  }

  lemma {:induction false} ParseElementsShift(s: string, t: string, d: int, lo: int, hi: int, i: nat)
    requires Same(s, t, d, lo, hi) && lo <= i
    requires ParseElements(s, i).Done? && ParseElements(s, i).end <= hi
    ensures ParseElements(t, i + d) == Done(ParseElements(s, i).value, ParseElements(s, i).end + d)
    decreases |s| - i, 2
  {
    hide SkipWs, ParseValue, ParseElements, ParseMembers, Stops;
    ElementsEquation(s, i);
    ElementsEquation(t, i + d);
    var v := ParseValue(s, i);
    var next := SkipWs(s, v.end);
    DelimiterStops(s, t, d, lo, hi, v.end, next);
    ParseValueShift(s, t, d, lo, hi, i);
    SkipWsShift(s, t, d, lo, hi, v.end);
    assert t[next + d] == s[next];
    if s[next] == ',' {
      SkipWsShift(s, t, d, lo, hi, next + 1);
      ParseElementsShift(s, t, d, lo, hi, SkipWs(s, next + 1));
    }
  }

  lemma {:induction false} ParseMemberShift(s: string, t: string, d: int, lo: int, hi: int, i: nat)
    requires Same(s, t, d, lo, hi) && lo <= i
    requires ParseMember(s, i).Done? && ParseMember(s, i).end <= hi
    requires Stops(t, ParseMember(s, i).end + d)
    ensures ParseMember(t, i + d) == Done(ParseMember(s, i).value, ParseMember(s, i).end + d)
    decreases |s| - i, 2
  {
    hide SkipWs, ParseValue, ParseElements, ParseMembers, ScanString, Stops;
    assert t[i + d] == s[i];
    ScanStringShift(s, t, d, lo, hi, i + 1);
    var key := ScanString(s, i + 1);
    var colon := SkipWs(s, key.end);
    SkipWsShift(s, t, d, lo, hi, key.end);
    assert t[colon + d] == s[colon];
    SkipWsShift(s, t, d, lo, hi, colon + 1);
    ParseValueShift(s, t, d, lo, hi, SkipWs(s, colon + 1));
  }

  lemma {:induction false} ParseMembersShift(s: string, t: string, d: int, lo: int, hi: int, i: nat)
    requires Same(s, t, d, lo, hi) && lo <= i
    requires ParseMembers(s, i).Done? && ParseMembers(s, i).end <= hi
    ensures ParseMembers(t, i + d) == Done(ParseMembers(s, i).value, ParseMembers(s, i).end + d)
    decreases |s| - i, 3
  {
    hide SkipWs, ParseValue, ParseElements, ParseMember, ParseMembers, Stops;
    MembersEquation(s, i);
    MembersEquation(t, i + d);
    var m := ParseMember(s, i);
    var next := SkipWs(s, m.end);
    DelimiterStops(s, t, d, lo, hi, m.end, next);
    ParseMemberShift(s, t, d, lo, hi, i);
    SkipWsShift(s, t, d, lo, hi, m.end);
    assert t[next + d] == s[next];
    if s[next] == ',' {
      SkipWsShift(s, t, d, lo, hi, next + 1);
      ParseMembersShift(s, t, d, lo, hi, SkipWs(s, next + 1));
    }
  }
}
