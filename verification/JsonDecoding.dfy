/** The decoder takes the texts of the grammar and no others. */
module JsonDecoding {
  import opened Json
  import opened JsonGrammar

  lemma Cut(s: string, i: nat, j: nat, k: nat)
    requires i <= j <= k <= |s|
    ensures s[i..k] == s[i..j] + s[j..k]
  {
  }

  lemma UnitAt(s: string, i: nat) returns (p: Piece)
    requires i + 6 <= |s| && s[i] == '\\' && s[i + 1] == 'u' && Hex4(s, i + 2) >= 0
    ensures p.Unit? && ValidPiece(p) && Spelled(p) == s[i..i + 6] && CodeOf(p) == Hex4(s, i + 2)
  {
    p := Unit(s[i + 2], s[i + 3], s[i + 4], s[i + 5]);
    HexAgreesBack(p.h0);
    HexAgreesBack(p.h1);
    HexAgreesBack(p.h2);
    HexAgreesBack(p.h3);
  }

  lemma HexAgreesBack(c: char)
    ensures HexValue(c) >= 0 ==> HexDigit(c) && HexValue(c) == HexOf(c)
  {
  }

  /** The pieces of the escape at `i`: one, or the two units of a pair. */
  lemma EscapePieces(s: string, i: nat) returns (ps: seq<Piece>)
    requires i < |s| && s[i] == '\\' && Escape(s, i).Done?
    ensures ValidPieces(ps) && 1 <= |ps| <= 2 && Body(ps) == s[i..Escape(s, i).end] && TextOf(ps) == [Escape(s, i).value]
    ensures |ps| == 2 ==> Paired(ps)
    ensures |ps| == 1 && ps[0].Unit? ==>
              s[i + 1] == 'u' && Escape(s, i).end == i + 6 && CodeOf(ps[0]) == Hex4(s, i + 2)
              && !(HighSurrogate(Hex4(s, i + 2)) && At(s, i + 6, '\\') && At(s, i + 7, 'u') && LowSurrogate(Hex4(s, i + 8)))
    ensures ps[0].Unit? ==> s[i + 1] == 'u' && CodeOf(ps[0]) == Hex4(s, i + 2)
  {
    hide Hex4, CodeOf;
    var end := Escape(s, i).end;
    if s[i + 1] == 'u' {
      var first := UnitAt(s, i);
      if end == i + 6 {
        ps := [first];
        OnePiece(first);
      } else {
        var second := UnitAt(s, i + 6);
        ps := [first, second];
        TwoUnits(first, second);
        Cut(s, i, i + 6, i + 12);
      }
    } else {
      ps := [Short(s[i + 1])];
      OnePiece(ps[0]);
      ShortBack(s, i);
    }
  }

  lemma ShortBack(s: string, i: nat)
    requires i + 1 < |s| && s[i] == '\\' && s[i + 1] != 'u' && SimpleEscape(s[i + 1]) >= 0
    ensures ValidPiece(Short(s[i + 1])) && CodeOf(Short(s[i + 1])) == SimpleEscape(s[i + 1])
    ensures Spelled(Short(s[i + 1])) == s[i..i + 2]
  {
  }

  lemma OnePiece(p: Piece)
    ensures Body([p]) == Spelled(p) && TextOf([p]) == [CodeOf(p)]
  {
  }

  lemma TwoUnits(p: Piece, q: Piece)
    ensures Body([p, q]) == Spelled(p) + Spelled(q)
    ensures Paired([p, q]) ==> TextOf([p, q]) == [0x10000 + 0x400 * (CodeOf(p) - 0xD800) + (CodeOf(q) - 0xDC00)]
  {
    assert [p, q][1..] == [q] && [p, q][2..] == [];
    OnePiece(q);
  }

  lemma {:induction false} LiteralPieces(s: string, i: nat) returns (ps: seq<Piece>)
    requires ScanString(s, i).Done?
    ensures ValidPieces(ps) && Body(ps) + "\"" == s[i..ScanString(s, i).end] && TextOf(ps) == ScanString(s, i).value
    ensures ps != [] && ps[0].Unit? ==> At(s, i, '\\') && At(s, i + 1, 'u') && CodeOf(ps[0]) == Hex4(s, i + 2)
    decreases |s| - i
  {
    hide Escape, Hex4, CodeOf, ValidPiece, Spelled;
    var end := ScanString(s, i).end;
    if s[i] == '\"' {
      ps := [];
    } else if s[i] == '\\' {
      var next := Escape(s, i).end;
      var escaped := EscapePieces(s, i);
      var rest := LiteralPieces(s, next);
      ps := escaped + rest;
      Cut(s, i, next, end);
      PiecesJoin(escaped, rest);
    } else {
      var rest := LiteralPieces(s, i + 1);
      ps := [Raw(s[i])] + rest;
      RawBack(s, i);
      Cut(s, i, i + 1, end);
      OnePiece(ps[0]);
      PiecesJoin([Raw(s[i])], rest);
    }
  }

  lemma RawBack(s: string, i: nat)
    requires i < |s| && s[i] >= ' ' && s[i] != '\"' && s[i] != '\\'
    ensures ValidPiece(Raw(s[i])) && CodeOf(Raw(s[i])) == s[i] as int && Spelled(Raw(s[i])) == s[i..i + 1]
  {
  }

  /** Joining keeps bodies and, unless a pair is made across the joint, texts. */
  lemma PiecesJoin(a: seq<Piece>, b: seq<Piece>)
    requires 1 <= |a| <= 2 && (|a| == 2 ==> Paired(a))
    ensures Body(a + b) == Body(a) + Body(b)
    ensures (|a| == 1 && Paired(a + b)) || TextOf(a + b) == TextOf(a) + TextOf(b)
  {
    hide CodeOf, Spelled;
    assert (a + b)[1..] == a[1..] + b;
    if |a| == 1 {
      OnePiece(a[0]);
      assert a[1..] + b == b;
    } else {
      TwoUnits(a[0], a[1]);
      assert a == [a[0], a[1]];
      assert (a + b)[2..] == b && (a + b)[1..][1..] == b && (a + b)[1] == a[1];
      assert Paired(a + b);
    }
  }

  lemma WholeAt(s: string, i: nat) returns (minus: bool, whole: string)
    requires i < |s| && IntegerEnd(s, i) != i
    ensures whole != "" && AllDigits(whole) && (whole[0] == '0' ==> |whole| == 1)
    ensures s[i..IntegerEnd(s, i)] == (if minus then "-" else "") + whole
  {
    minus := At(s, i, '-');
    whole := s[if minus then i + 1 else i..IntegerEnd(s, i)];
  }

  lemma FractionAt(s: string, i: nat) returns (fraction: string)
    requires i <= |s|
    ensures AllDigits(fraction) && s[i..FractionEnd(s, i)] == FractionText(fraction)
  {
    fraction := if FractionEnd(s, i) == i then "" else s[i + 1..FractionEnd(s, i)];
  }

  lemma ExponentAt(s: string, i: nat) returns (x: Exponent)
    requires i <= |s|
    ensures ValidExponent(x) && s[i..ExponentEnd(s, i)] == ExponentText(x)
  {
    var end := ExponentEnd(s, i);
    if end == i {
      x := NoExponent;
    } else {
      var digits := if At(s, i + 1, '+') || At(s, i + 1, '-') then i + 2 else i + 1;
      x := Exponent(s[i], s[i + 1..digits], s[digits..end]);
    }
  }

  lemma NumeralAt(s: string, i: nat) returns (t: Token)
    requires i < |s| && ScanNumber(s, i).Done?
    ensures ValidToken(t) && TokenText(t) == s[i..ScanNumber(s, i).end] && TokenValue(t) == ScanNumber(s, i).value
  {
    hide *;
    NumberEquation(s, i);
    var minus, whole := WholeAt(s, i);
    var dot := IntegerEnd(s, i);
    var fraction := FractionAt(s, dot);
    var e := FractionEnd(s, dot);
    var exponent := ExponentAt(s, e);
    var end := ExponentEnd(s, e);
    t := Numeral(minus, whole, fraction, exponent);
    Cut(s, i, dot, end);
    Cut(s, dot, e, end);
    NumeralIsBack(t);
  }

  lemma NumeralIsBack(t: Token)
    requires t.Numeral?
    requires t.whole != "" && AllDigits(t.whole) && (t.whole[0] == '0' ==> |t.whole| == 1) && AllDigits(t.fraction)
    requires ValidExponent(t.exponent)
    ensures ValidToken(t) && TokenValue(t) == Number(TokenText(t))
    ensures TokenText(t) == (if t.minus then "-" else "") + t.whole + (FractionText(t.fraction) + ExponentText(t.exponent))
  {
  }

  lemma WordAt(s: string, i: nat, word: string)
    requires Matches(s, i, word) && ValidToken(Word(word))
    ensures TokenText(Word(word)) == s[i..i + |word|]
  {
  }

  lemma TokenAt(s: string, i: nat) returns (t: Token)
    requires i < |s| && ParseToken(s, i).Done?
    ensures ValidToken(t) && TokenText(t) == s[i..ParseToken(s, i).end] && TokenValue(t) == ParseToken(s, i).value
  {
    hide ScanNumber, Matches, TokenText;
    var word := if Matches(s, i, "null") then "null"
                else if Matches(s, i, "true") then "true"
                else if Matches(s, i, "false") then "false"
                else if Matches(s, i, "NaN") then "NaN"
                else if Matches(s, i, "Infinity") then "Infinity"
                else if Matches(s, i, "-Infinity") then "-Infinity"
                else "";
    if word == "" {
      t := NumeralAt(s, i);
    } else {
      t := Word(word);
      WordAt(s, i, word);
    }
  }

  lemma {:induction false} BlankAt(s: string, i: nat)
    requires i <= |s|
    ensures Blank(s[i..SkipWs(s, i)])
  {
  }

  lemma StringAt(s: string, i: nat) returns (n: Node)
    requires i < |s| && s[i] == '\"' && ScanString(s, i + 1).Done?
    ensures ValidNode(n) && Written(n) == s[i..ScanString(s, i + 1).end] && ValueOf(n) == Str(ScanString(s, i + 1).value)
  {
    hide ScanString, Body, TextOf, ValidPieces;
    var pieces := LiteralPieces(s, i + 1);
    n := Quoted(pieces);
    Cut(s, i, i + 1, ScanString(s, i + 1).end);
  }

  lemma {:induction false} ObjectAt(s: string, i: nat) returns (n: Node)
    requires i < |s| && s[i] == '{' && ParseValue(s, i).Done?
    ensures ValidNode(n) && Written(n) == s[i..ParseValue(s, i).end] && ValueOf(n) == ParseValue(s, i).value
    decreases |s| - i, 0
  {
    hide *;
    ObjectCase(s, i);
    var first, end := SkipWs(s, i + 1), ParseValue(s, i).end;
    BlankAt(s, i + 1);
    if first < |s| && s[first] == '}' {
      n := Braces(s[i + 1..first], []);
      BracesAre(n.pad, []);
      assert s[i..end] == "{" + s[i + 1..first] + "}";
    } else {
      var pairs := PairsAt(s, i + 1);
      n := Braces("", pairs);
      BracesAre("", pairs);
      assert s[i..end] == "{" + s[i + 1..end];
    }
  }

  lemma {:induction false} ArrayAt(s: string, i: nat) returns (n: Node)
    requires i < |s| && s[i] == '[' && ParseValue(s, i).Done?
    ensures ValidNode(n) && Written(n) == s[i..ParseValue(s, i).end] && ValueOf(n) == ParseValue(s, i).value
    decreases |s| - i, 0
  {
    hide *;
    ArrayCase(s, i);
    var first, end := SkipWs(s, i + 1), ParseValue(s, i).end;
    BlankAt(s, i + 1);
    if first < |s| && s[first] == ']' {
      n := Brackets(s[i + 1..first], []);
      BracketsAre(n.pad, []);
      assert s[i..end] == "[" + s[i + 1..first] + "]";
    } else {
      var slots := SlotsAt(s, i + 1);
      n := Brackets("", slots);
      BracketsAre("", slots);
      assert s[i..end] == "[" + s[i + 1..end];
    }
  }

  lemma {:induction false} NodeAt(s: string, i: nat) returns (n: Node)
    requires ParseValue(s, i).Done?
    ensures ValidNode(n) && Written(n) == s[i..ParseValue(s, i).end] && ValueOf(n) == ParseValue(s, i).value
    decreases |s| - i, 1
  {
    hide *;
    ValueCases(s, i);
    if s[i] == '\"' {
      n := StringAt(s, i);
    } else if s[i] == '{' {
      n := ObjectAt(s, i);
    } else if s[i] == '[' {
      n := ArrayAt(s, i);
    } else {
      var token := TokenAt(s, i);
      n := Leaf(token);
      LeafIs(token);
    }
  }

  lemma {:induction false} SlotAt(s: string, i: nat) returns (slot: Slot)
    requires i <= |s| && ParseValue(s, SkipWs(s, i)).Done?
    ensures var v := ParseValue(s, SkipWs(s, i));
            ValidSlot(slot) && SlotText(slot) == s[i..SkipWs(s, v.end)] && ValueOf(slot.node) == v.value
    decreases |s| - i, 2
  {
    hide ParseValue;
    var v := SkipWs(s, i);
    var end := ParseValue(s, v).end;
    var node := NodeAt(s, v);
    slot := Slot(s[i..v], node, s[end..SkipWs(s, end)]);
    BlankAt(s, i);
    BlankAt(s, end);
    Cut(s, i, v, SkipWs(s, end));
    Cut(s, v, end, SkipWs(s, end));
  }

  lemma {:induction false} SlotsAt(s: string, i: nat) returns (slots: seq<Slot>)
    requires i <= |s| && ParseElements(s, SkipWs(s, i)).Done?
    ensures var es := ParseElements(s, SkipWs(s, i));
            && slots != [] && (forall k :: 0 <= k < |slots| ==> ValidSlot(slots[k]))
            && SlotsText(slots) + "]" == s[i..es.end] && SlotValues(slots) == es.value
    decreases |s| - i, 3
  {
    hide *;
    var start := SkipWs(s, i);
    ElementsEquation(s, start);
    var v := ParseValue(s, start);
    var slot := SlotAt(s, i);
    var next := SkipWs(s, v.end);
    var end := ParseElements(s, start).end;
    SlotsGo(s, next);
    Cut(s, i, next, end);
    if At(s, next, ']') {
      slots := [slot];
      SlotsAre(slot, []);
      assert [slot] + [] == slots;
    } else {
      var rest := SlotsAt(s, next + 1);
      slots := [slot] + rest;
      Cut(s, next, next + 1, end);
      SlotsAre(slot, rest);
    }
  }

  lemma SlotsAre(slot: Slot, rest: seq<Slot>)
    ensures rest == [] ==> SlotsText([slot] + rest) == SlotText(slot)
    ensures rest != [] ==> SlotsText([slot] + rest) == SlotText(slot) + ("," + SlotsText(rest))
    ensures SlotValues([]) == [] && SlotValues([slot] + rest) == [ValueOf(slot.node)] + SlotValues(rest)
  {
    hide SlotText, ValueOf;
    assert ([slot] + rest)[1..] == rest;
  }

  lemma {:induction false} PairAt(s: string, i: nat) returns (p: Pair)
    requires i <= |s| && ParseMember(s, SkipWs(s, i)).Done?
    ensures var m := ParseMember(s, SkipWs(s, i));
            ValidPair(p) && PairText(p) == s[i..SkipWs(s, m.end)] && MemberOf(p) == m.value
    decreases |s| - i, 3
  {
    hide *;
    var open := SkipWs(s, i);
    MemberCase(s, open);
    var key := ScanString(s, open + 1);
    var colon := SkipWs(s, key.end);
    var v := ParseValue(s, SkipWs(s, colon + 1));
    var pieces := LiteralPieces(s, open + 1);
    var slot := SlotAt(s, colon + 1);
    p := Pair(s[i..open], pieces, s[key.end..colon], slot);
    BlankAt(s, i);
    BlankAt(s, key.end);
    var end := SkipWs(s, v.end);
    assert SlotText(slot) == s[colon + 1..end];
    PairSpelled(s, i, open, key.end, colon, end, p);
    PairIs(p);
  }

  lemma MemberCase(s: string, i: nat)
    requires ParseMember(s, i).Done?
    ensures i < |s| && s[i] == '\"' && ScanString(s, i + 1).Done?
    ensures var key := ScanString(s, i + 1);
            var colon := SkipWs(s, key.end);
            && colon < |s| && s[colon] == ':' && ParseValue(s, SkipWs(s, colon + 1)).Done?
            && var v := ParseValue(s, SkipWs(s, colon + 1));
               ParseMember(s, i) == Done(Member(key.value, v.value), v.end)
  {
    hide ParseValue, ScanString, SkipWs;
  }

  lemma PairSpelled(s: string, i: nat, open: nat, key: nat, colon: nat, end: nat, p: Pair)
    requires i <= open < key <= colon < end <= |s| && s[open] == '\"' && s[colon] == ':'
    requires p.before == s[i..open] && Body(p.key) + "\"" == s[open + 1..key]
    requires p.mid == s[key..colon] && SlotText(p.slot) == s[colon + 1..end]
    ensures PairText(p) == s[i..end]
  {
    hide Body, SlotText;
    var fromColon := ":" + SlotText(p.slot);
    assert fromColon == s[colon..end];
    Cut(s, key, colon, end);
    Cut(s, open + 1, key, end);
    var fromKey := Body(p.key) + ("\"" + (p.mid + fromColon));
    assert fromKey == (Body(p.key) + "\"") + (p.mid + fromColon);
    assert "\"" + fromKey == s[open..end];
    Cut(s, i, open, end);
  }

  lemma {:induction false} PairsAt(s: string, i: nat) returns (pairs: seq<Pair>)
    requires i <= |s| && ParseMembers(s, SkipWs(s, i)).Done?
    ensures var ms := ParseMembers(s, SkipWs(s, i));
            && pairs != [] && (forall k :: 0 <= k < |pairs| ==> ValidPair(pairs[k]))
            && PairsText(pairs) + "}" == s[i..ms.end] && PairMembers(pairs) == ms.value
    decreases |s| - i, 4
  {
    hide *;
    var start := SkipWs(s, i);
    MembersEquation(s, start);
    var m := ParseMember(s, start);
    var pair := PairAt(s, i);
    var next := SkipWs(s, m.end);
    var end := ParseMembers(s, start).end;
    PairsGo(s, next);
    Cut(s, i, next, end);
    if At(s, next, '}') {
      pairs := [pair];
      PairsAre(pair, []);
      assert [pair] + [] == pairs;
    } else {
      var rest := PairsAt(s, next + 1);
      pairs := [pair] + rest;
      Cut(s, next, next + 1, end);
      PairsAre(pair, rest);
    }
  }

  lemma PairsAre(pair: Pair, rest: seq<Pair>)
    ensures rest == [] ==> PairsText([pair] + rest) == PairText(pair)
    ensures rest != [] ==> PairsText([pair] + rest) == PairText(pair) + ("," + PairsText(rest))
    ensures PairMembers([]) == [] && PairMembers([pair] + rest) == [MemberOf(pair)] + PairMembers(rest)
  {
    hide PairText, MemberOf;
    assert ([pair] + rest)[1..] == rest;
  }

  /** The decoder takes exactly the texts of the grammar, each for what it means. */
  lemma DecodesExactly(s: string, v: Value)
    ensures (Loads(s).Done? && Loads(s).value == v) <==>
              exists before, n, after :: Blank(before) && ValidNode(n) && Blank(after) && s == before + Written(n) + after && ValueOf(n) == v
  {
    hide ParseValue, Written, ValueOf, ValidNode, Blank;
    if Loads(s).Done? && Loads(s).value == v {
      var start := SkipWs(s, 0);
      var end := ParseValue(s, start).end;
      var n := NodeAt(s, start);
      BlankAt(s, 0);
      BlankAt(s, end);
      assert s == s[0..start] + Written(n) + s[end..SkipWs(s, end)];
    }
    if before, n, after :| Blank(before) && ValidNode(n) && Blank(after) && s == before + Written(n) + after && ValueOf(n) == v {
      TextsDecode(before, n, after);
    }
  }
}
