/** The texts of the JSON grammar and what they mean, white space and escapes included: sections 2 to 7
    of RFC 8259 with the three constants Python also takes. Each of these texts decodes to what it
    means. */
module JsonGrammar {
  import opened Json

  // ---------- String literals ----------

  /** One character of a literal as spelled: as it is, by a letter, or by four hex digits. */
  datatype Piece = Raw(c: char) | Short(c: char) | Unit(h0: char, h1: char, h2: char, h3: char)

  predicate HexDigit(c: char) {
    '0' <= c <= '9' || 'a' <= c <= 'f' || 'A' <= c <= 'F'
  }

  predicate ValidPiece(p: Piece) {
    match p
    case Raw(c) => c >= ' ' && c != '\"' && c != '\\'
    case Short(c) => c == '\"' || c == '\\' || c == '/' || c == 'b' || c == 'f' || c == 'n' || c == 'r' || c == 't'
    case Unit(h0, h1, h2, h3) => HexDigit(h0) && HexDigit(h1) && HexDigit(h2) && HexDigit(h3)
  }

  function Spelled(p: Piece): string {
    match p
    case Raw(c) => [c]
    case Short(c) => ['\\', c]
    case Unit(h0, h1, h2, h3) => ['\\', 'u', h0, h1, h2, h3]
  }

  function HexOf(c: char): int {
    if c <= '9' then c as int - 48 else if c <= 'F' then c as int - 55 else c as int - 87
  }

  function CodeOf(p: Piece): int {
    match p
    case Raw(c) => c as int
    case Short(c) =>
      (match c
       case 'b' => 8
       case 't' => 9
       case 'n' => 10
       case 'f' => 12
       case 'r' => 13
       case _ => c as int)
    case Unit(h0, h1, h2, h3) => ((HexOf(h0) * 16 + HexOf(h1)) * 16 + HexOf(h2)) * 16 + HexOf(h3)
  }

  /** A surrogate pair, spelled as its two units. */
  predicate Paired(ps: seq<Piece>) {
    && |ps| >= 2 && ps[0].Unit? && ps[1].Unit?
    && 0xD800 <= CodeOf(ps[0]) < 0xDC00 && 0xDC00 <= CodeOf(ps[1]) < 0xE000
  }

  predicate ValidPieces(ps: seq<Piece>) {
    forall p :: p in ps ==> ValidPiece(p)
  }

  function TextOf(ps: seq<Piece>): Text {
    if ps == [] then []
    else if Paired(ps) then
      [0x10000 + 0x400 * (CodeOf(ps[0]) - 0xD800) + (CodeOf(ps[1]) - 0xDC00)] + TextOf(ps[2..])
    else [CodeOf(ps[0])] + TextOf(ps[1..])
  }

  function Body(ps: seq<Piece>): string {
    if ps == [] then "" else Spelled(ps[0]) + Body(ps[1..])
  }

  // ---------- Numbers and constants ----------

  datatype Exponent = NoExponent | Exponent(e: char, sign: string, digits: string)

  datatype Token =
    | Word(text: string)
    | Numeral(minus: bool, whole: string, fraction: string, exponent: Exponent)

  predicate AllDigits(s: string) {
    forall i :: 0 <= i < |s| ==> '0' <= s[i] <= '9'
  }

  predicate ValidToken(t: Token) {
    match t
    case Word(text) =>
      text == "null" || text == "true" || text == "false" || text == "NaN" || text == "Infinity" || text == "-Infinity"
    case Numeral(minus, whole, fraction, exponent) =>
      && whole != "" && AllDigits(whole) && (whole[0] == '0' ==> |whole| == 1) && AllDigits(fraction)
      && (exponent.Exponent? ==>
            && (exponent.e == 'e' || exponent.e == 'E') && exponent.digits != "" && AllDigits(exponent.digits)
            && (exponent.sign == "" || exponent.sign == "+" || exponent.sign == "-"))
  }

  function FractionText(fraction: string): string {
    if fraction == "" then "" else "." + fraction
  }

  function ExponentText(x: Exponent): string {
    if x.NoExponent? then "" else [x.e] + (x.sign + x.digits)
  }

  function TokenText(t: Token): string {
    match t
    case Word(text) => text
    case Numeral(minus, whole, fraction, exponent) =>
      (if minus then "-" else "") + (whole + (FractionText(fraction) + ExponentText(exponent)))
  }

  function TokenValue(t: Token): Value {
    match t
    case Word(text) =>
      if text == "null" then Null
      else if text == "true" then Bool(true)
      else if text == "false" then Bool(false)
      else Number(text)
    case Numeral(_, _, _, _) => Number(TokenText(t))
  }

  // ---------- Values ----------

  /** A value as written. An empty array or object holds `pad`; otherwise each element stands in white
      space of its own. */
  datatype Node =
    | Leaf(token: Token)
    | Quoted(pieces: seq<Piece>)
    | Brackets(pad: string, slots: seq<Slot>)
    | Braces(pad: string, pairs: seq<Pair>)

  datatype Slot = Slot(before: string, node: Node, after: string)
  datatype Pair = Pair(before: string, key: seq<Piece>, mid: string, slot: Slot)

  predicate Blank(s: string) {
    forall i :: 0 <= i < |s| ==> s[i] == ' ' || s[i] == '\t' || s[i] == '\n' || s[i] == '\r'
  }

  predicate ValidNode(n: Node) {
    match n
    case Leaf(token) => ValidToken(token)
    case Quoted(pieces) => ValidPieces(pieces)
    case Brackets(pad, slots) => Blank(pad) && forall i :: 0 <= i < |slots| ==> ValidSlot(slots[i])
    case Braces(pad, pairs) => Blank(pad) && forall i :: 0 <= i < |pairs| ==> ValidPair(pairs[i])
  }

  predicate ValidSlot(s: Slot) {
    Blank(s.before) && ValidNode(s.node) && Blank(s.after)
  }

  predicate ValidPair(p: Pair) {
    Blank(p.before) && ValidPieces(p.key) && Blank(p.mid) && ValidSlot(p.slot)
  }

  function Written(n: Node): string
    decreases n, 0
  {
    match n
    case Leaf(token) => TokenText(token)
    case Quoted(pieces) => "\"" + (Body(pieces) + "\"")
    case Brackets(pad, slots) => "[" + (if slots == [] then pad else SlotsText(slots)) + "]"
    case Braces(pad, pairs) => "{" + (if pairs == [] then pad else PairsText(pairs)) + "}"
  }

  function SlotText(s: Slot): string
    decreases s, 0
  {
    s.before + (Written(s.node) + s.after)
  }

  function PairText(p: Pair): string
    decreases p, 0
  {
    p.before + ("\"" + (Body(p.key) + ("\"" + (p.mid + (":" + SlotText(p.slot))))))
  }

  function SlotsText(slots: seq<Slot>): string
    requires slots != []
    decreases slots, 0
  {
    if |slots| == 1 then SlotText(slots[0]) else SlotText(slots[0]) + ("," + SlotsText(slots[1..]))
  }

  function PairsText(pairs: seq<Pair>): string
    requires pairs != []
    decreases pairs, 0
  {
    if |pairs| == 1 then PairText(pairs[0]) else PairText(pairs[0]) + ("," + PairsText(pairs[1..]))
  }

  function ValueOf(n: Node): Value {
    match n
    case Leaf(token) => TokenValue(token)
    case Quoted(pieces) => Str(TextOf(pieces))
    case Brackets(_, slots) => Array(SlotValues(slots))
    case Braces(_, pairs) => Object(PairMembers(pairs))
  }

  function MemberOf(p: Pair): Member {
    Member(TextOf(p.key), ValueOf(p.slot.node))
  }

  function SlotValues(slots: seq<Slot>): seq<Value> {
    if slots == [] then [] else [ValueOf(slots[0].node)] + SlotValues(slots[1..])
  }

  function PairMembers(pairs: seq<Pair>): seq<Member> {
    if pairs == [] then [] else [MemberOf(pairs[0])] + PairMembers(pairs[1..])
  }

  // ---------- Where a text stands ----------

  predicate Here(s: string, i: nat, t: string) {
    i + |t| <= |s| && s[i..i + |t|] == t
  }

  lemma HereParts(s: string, i: nat, a: string, b: string)
    requires Here(s, i, a + b)
    ensures Here(s, i, a) && Here(s, i + |a|, b)
  {
    assert s[i..i + |a|] == (a + b)[..|a|] == a;
    assert s[i + |a|..i + |a + b|] == (a + b)[|a|..] == b;
  }

  lemma HereAt(s: string, i: nat, t: string, k: nat)
    requires Here(s, i, t) && k < |t|
    ensures s[i + k] == t[k]
  {
    assert s[i..i + |t|][k] == s[i + k];
  }

  /** Nothing here goes on with a value. */
  predicate Stops(s: string, i: nat) {
    i >= |s| || s[i] == ' ' || s[i] == '\t' || s[i] == '\n' || s[i] == '\r' || s[i] == ',' || s[i] == ']' || s[i] == '}'
  }

  // ---------- Literals decode to what they spell ----------

  lemma HexAgrees(c: char)
    requires HexDigit(c)
    ensures HexValue(c) == HexOf(c) && 0 <= HexOf(c) < 16
  {
  }

  lemma UnitDecodes(s: string, i: nat, p: Piece)
    requires p.Unit? && ValidPiece(p) && Here(s, i, Spelled(p))
    ensures s[i] == '\\' && s[i + 1] == 'u' && Hex4(s, i + 2) == CodeOf(p) && 0 <= CodeOf(p) < 0x10000
  {
    hide HexDigit;
    HexAgrees(p.h0);
    HexAgrees(p.h1);
    HexAgrees(p.h2);
    HexAgrees(p.h3);
    assert |Spelled(p)| == 6;
    HereAt(s, i, Spelled(p), 0);
    HereAt(s, i, Spelled(p), 1);
    HereAt(s, i, Spelled(p), 2);
    HereAt(s, i, Spelled(p), 3);
    HereAt(s, i, Spelled(p), 4);
    HereAt(s, i, Spelled(p), 5);
  }

  lemma ShortDecodes(s: string, i: nat, p: Piece)
    requires p.Short? && ValidPiece(p) && Here(s, i, Spelled(p))
    ensures s[i] == '\\' && Escape(s, i) == Done(CodeOf(p), i + 2)
  {
    HereAt(s, i, Spelled(p), 0);
    HereAt(s, i, Spelled(p), 1);
  }

  /** What follows a piece in a literal: its quote, or another piece. */
  lemma NextPiece(s: string, i: nat, ps: seq<Piece>)
    requires ValidPieces(ps) && Here(s, i, Body(ps) + "\"")
    ensures i < |s|
    ensures ps == [] ==> s[i] == '\"'
    ensures ps != [] ==> Here(s, i, Spelled(ps[0])) && Here(s, i + |Spelled(ps[0])|, Body(ps[1..]) + "\"")
    ensures ps != [] && !ps[0].Unit? ==> !(At(s, i, '\\') && At(s, i + 1, 'u'))
  {
    hide ValidPiece, Spelled, Here;
    HereAt(s, i, Body(ps) + "\"", 0);
    HereIs(s, i, Body(ps) + "\"");
    if ps != [] {
      assert ValidPiece(ps[0]);
      assert Body(ps) + "\"" == Spelled(ps[0]) + (Body(ps[1..]) + "\"");
      HereParts(s, i, Spelled(ps[0]), Body(ps[1..]) + "\"");
      if !ps[0].Unit? {
        NoUnitHere(s, i, ps[0]);
      }
    }
  }

  lemma NoUnitHere(s: string, i: nat, p: Piece)
    requires ValidPiece(p) && !p.Unit? && Here(s, i, Spelled(p))
    ensures !(At(s, i, '\\') && At(s, i + 1, 'u'))
  {
    HereAt(s, i, Spelled(p), 0);
    if p.Short? {
      HereAt(s, i, Spelled(p), 1);
    }
  }

  lemma UnitEscapes(s: string, i: nat, ps: seq<Piece>)
    requires ValidPieces(ps) && Here(s, i, Body(ps) + "\"") && ps != [] && ps[0].Unit?
    ensures i + 6 < |s| && s[i] == '\\' && s[i + 1] == 'u' && ValidPiece(ps[0]) && 0 <= CodeOf(ps[0])
    ensures Paired(ps) ==> Escape(s, i) == Done(0x10000 + 0x400 * (CodeOf(ps[0]) - 0xD800) + (CodeOf(ps[1]) - 0xDC00), i + 12)
    ensures !Paired(ps) ==> Escape(s, i) == Done(CodeOf(ps[0]), i + 6)
  {
    hide Hex4, Body, ValidPiece, CodeOf;
    assert ValidPiece(ps[0]);
    NextPiece(s, i, ps);
    UnitDecodes(s, i, ps[0]);
    NextPiece(s, i + 6, ps[1..]);
    if |ps| > 1 && ps[1].Unit? {
      assert ValidPiece(ps[1]);
      UnitDecodes(s, i + 6, ps[1]);
    }
  }

  lemma {:induction false} LiteralDecodes(s: string, i: nat, ps: seq<Piece>)
    requires ValidPieces(ps) && Here(s, i, Body(ps) + "\"")
    ensures ScanString(s, i) == Done(TextOf(ps), i + |Body(ps)| + 1)
    decreases |ps|
  {
    hide Escape, CodeOf, ValidPiece, Here, Spelled, Paired;
    NextPiece(s, i, ps);
    if ps != [] {
      assert ValidPiece(ps[0]);
      if ps[0].Unit? {
        UnitEscapes(s, i, ps);
        UnitsSpelled(ps);
        if Paired(ps) {
          NextPiece(s, i + 6, ps[1..]);
          assert ps[1..][1..] == ps[2..];
          LiteralDecodes(s, i + 12, ps[2..]);
        } else {
          LiteralDecodes(s, i + 6, ps[1..]);
        }
      } else {
        PlainPiece(s, i, ps[0]);
        UnitsSpelled(ps);
        LiteralDecodes(s, i + |Spelled(ps[0])|, ps[1..]);
      }
    }
  }

  lemma UnitsSpelled(ps: seq<Piece>)
    requires ps != []
    ensures |Spelled(ps[0])| == (if ps[0].Unit? then 6 else if ps[0].Short? then 2 else 1)
    ensures Paired(ps) ==> |ps| >= 2 && ps[0].Unit? && ps[1].Unit? && |Spelled(ps[1])| == 6
  {
    hide CodeOf;
  }

  lemma PlainPiece(s: string, i: nat, p: Piece)
    requires ValidPiece(p) && !p.Unit? && Here(s, i, Spelled(p))
    ensures p.Short? ==> s[i] == '\\' && Escape(s, i) == Done(CodeOf(p), i + 2)
    ensures p.Raw? ==> s[i] == p.c && s[i] != '\\' && s[i] != '\"' && s[i] >= ' ' && CodeOf(p) == s[i] as int
  {
    if p.Short? {
      ShortDecodes(s, i, p);
    } else {
      HereAt(s, i, Spelled(p), 0);
    }
  }

  // ---------- So do numbers and constants ----------

  lemma {:induction false} DigitsDecode(s: string, i: nat, digits: string)
    requires AllDigits(digits) && Here(s, i, digits) && !DigitAt(s, i + |digits|)
    ensures DigitsEnd(s, i) == i + |digits|
    decreases |digits|
  {
    if digits != "" {
      HereAt(s, i, digits, 0);
      assert digits == digits[..1] + digits[1..];
      HereParts(s, i, digits[..1], digits[1..]);
      DigitsDecode(s, i + 1, digits[1..]);
    }
  }

  lemma StopIsNoDigit(s: string, i: nat)
    requires Stops(s, i)
    ensures !DigitAt(s, i) && !At(s, i, '.') && !At(s, i, 'e') && !At(s, i, 'E')
  {
  }

  lemma WholeDecodes(s: string, i: nat, minus: bool, whole: string)
    requires whole != "" && AllDigits(whole) && (whole[0] == '0' ==> |whole| == 1)
    requires Here(s, i, (if minus then "-" else "") + whole) && !DigitAt(s, i + (if minus then 1 else 0) + |whole|)
    ensures IntegerEnd(s, i) == i + (if minus then 1 else 0) + |whole|
    ensures i < |s| && (s[i] == '-' || IsDigit(s[i])) && (s[i] == '-' ==> DigitAt(s, i + 1))
  {
    var first := if minus then i + 1 else i;
    HereParts(s, i, if minus then "-" else "", whole);
    HereAt(s, first, whole, 0);
    if minus {
      HereAt(s, i, "-", 0);
    }
    DigitsDecode(s, first, whole);
  }

  lemma FractionDecodes(s: string, i: nat, fraction: string)
    requires AllDigits(fraction) && Here(s, i, FractionText(fraction)) && !DigitAt(s, i + |FractionText(fraction)|)
    requires fraction == "" ==> !At(s, i, '.')
    ensures FractionEnd(s, i) == i + |FractionText(fraction)|
  {
    if fraction != "" {
      HereParts(s, i, ".", fraction);
      HereAt(s, i, ".", 0);
      HereAt(s, i + 1, fraction, 0);
      DigitsDecode(s, i + 1, fraction);
    }
  }

  predicate ValidExponent(x: Exponent) {
    x.Exponent? ==>
      && (x.e == 'e' || x.e == 'E') && x.digits != "" && AllDigits(x.digits)
      && (x.sign == "" || x.sign == "+" || x.sign == "-")
  }

  lemma ExponentEndsAt(s: string, i: nat, digits: nat)
    requires At(s, i, 'e') || At(s, i, 'E')
    requires digits == (if At(s, i + 1, '+') || At(s, i + 1, '-') then i + 2 else i + 1) && DigitAt(s, digits)
    ensures ExponentEnd(s, i) == DigitsEnd(s, digits)
  {
  }

  /** Where the digits of an exponent start. */
  lemma ExponentStands(s: string, i: nat, x: Exponent)
    requires x.Exponent? && ValidExponent(x) && Here(s, i, ExponentText(x))
    ensures At(s, i, x.e) && Here(s, i + 1 + |x.sign|, x.digits) && DigitAt(s, i + 1 + |x.sign|)
    ensures |x.sign| == if At(s, i + 1, '+') || At(s, i + 1, '-') then 1 else 0
  {
    hide *;
    ExponentIs(x);
    HereParts(s, i, [x.e], x.sign + x.digits);
    CharHere(s, i, [x.e]);
    HereParts(s, i + 1, x.sign, x.digits);
    CharHere(s, i + 1 + |x.sign|, x.digits);
    DigitFirst(x.digits);
    if x.sign != "" {
      CharHere(s, i + 1, x.sign);
    }
    SignHere(s, i + 1, x.sign, if x.sign == "" then x.digits[0] else x.sign[0]);
    DigitHere(s, i + 1 + |x.sign|, x.digits[0]);
    AtHere(s, i, x.e);
  }

  lemma ExponentIs(x: Exponent)
    requires x.Exponent? && ValidExponent(x)
    ensures ExponentText(x) == [x.e] + (x.sign + x.digits) && |ExponentText(x)| == 1 + |x.sign| + |x.digits|
    ensures x.digits != "" && AllDigits(x.digits) && (x.e == 'e' || x.e == 'E') && |x.sign| <= 1
    ensures x.sign != "" ==> x.sign[0] == '+' || x.sign[0] == '-'
  {
  }

  lemma CharHere(s: string, i: nat, t: string)
    requires Here(s, i, t) && t != ""
    ensures i < |s| && s[i] == t[0]
  {
    HereAt(s, i, t, 0);
  }

  lemma SignHere(s: string, i: nat, sign: string, c: char)
    requires i < |s| && s[i] == c && |sign| <= 1 && (sign != "" ==> c == '+' || c == '-') && (sign == "" ==> '0' <= c <= '9')
    ensures |sign| == if At(s, i, '+') || At(s, i, '-') then 1 else 0
  {
  }

  lemma DigitHere(s: string, i: nat, c: char)
    requires i < |s| && s[i] == c && '0' <= c <= '9'
    ensures DigitAt(s, i)
  {
  }

  lemma AtHere(s: string, i: nat, c: char)
    requires i < |s| && s[i] == c
    ensures At(s, i, c)
  {
  }

  lemma DigitFirst(digits: string)
    requires digits != "" && AllDigits(digits)
    ensures '0' <= digits[0] <= '9'
  {
  }

  lemma SomeExponentDecodes(s: string, i: nat, x: Exponent)
    requires x.Exponent? && ValidExponent(x) && Here(s, i, ExponentText(x)) && !DigitAt(s, i + |ExponentText(x)|)
    ensures ExponentEnd(s, i) == i + |ExponentText(x)|
  {
    hide *;
    ExponentIs(x);
    ExponentStands(s, i, x);
    var digits := i + 1 + |x.sign|;
    assert i + |ExponentText(x)| == digits + |x.digits|;
    assert digits == if At(s, i + 1, '+') || At(s, i + 1, '-') then i + 2 else i + 1;
    ExponentEndsAt(s, i, digits);
    DigitsDecode(s, digits, x.digits);
  }

  lemma NoExponentDecodes(s: string, i: nat)
    requires !At(s, i, 'e') && !At(s, i, 'E')
    ensures ExponentText(NoExponent) == "" && ExponentEnd(s, i) == i
  {
  }

  lemma ExponentDecodes(s: string, i: nat, x: Exponent)
    requires ValidExponent(x) && Here(s, i, ExponentText(x)) && !DigitAt(s, i + |ExponentText(x)|)
    requires x.NoExponent? ==> !At(s, i, 'e') && !At(s, i, 'E')
    ensures ExponentEnd(s, i) == i + |ExponentText(x)|
  {
    hide *;
    if x.Exponent? {
      SomeExponentDecodes(s, i, x);
    } else {
      NoExponentDecodes(s, i);
    }
  }

  /** Where the parts of a numeral stand, and that no part can take more than its own. */
  lemma NumeralParts(s: string, i: nat, t: Token)
    requires t.Numeral? && ValidToken(t) && Here(s, i, TokenText(t)) && Stops(s, i + |TokenText(t)|)
    ensures var start := (if t.minus then "-" else "") + t.whole;
            var dot := i + |start|;
            var e := dot + |FractionText(t.fraction)|;
            && Here(s, i, start) && Here(s, dot, FractionText(t.fraction)) && Here(s, e, ExponentText(t.exponent))
            && e + |ExponentText(t.exponent)| == i + |TokenText(t)|
            && !DigitAt(s, dot) && !DigitAt(s, e) && (t.fraction == "" ==> !At(s, dot, '.'))
            && (t.exponent.NoExponent? ==> !At(s, e, 'e') && !At(s, e, 'E'))
  {
    hide *;
    var start := (if t.minus then "-" else "") + t.whole;
    var fraction, exponent := FractionText(t.fraction), ExponentText(t.exponent);
    var dot := i + |start|;
    var e := dot + |fraction|;
    NumeralIs(t);
    HereParts(s, i, start, fraction + exponent);
    HereParts(s, dot, fraction, exponent);
    StopIsNoDigit(s, i + |TokenText(t)|);
    ExponentStarts(s, e, t.exponent);
    FractionStarts(s, dot, t.fraction);
  }

  lemma FractionStarts(s: string, i: nat, fraction: string)
    requires Here(s, i, FractionText(fraction))
    ensures fraction == "" ==> FractionText(fraction) == ""
    ensures fraction != "" ==> !DigitAt(s, i)
  {
    if fraction != "" {
      HereAt(s, i, FractionText(fraction), 0);
    }
  }

  lemma ExponentStarts(s: string, i: nat, x: Exponent)
    requires ValidExponent(x) && Here(s, i, ExponentText(x))
    ensures x.NoExponent? ==> ExponentText(x) == ""
    ensures x.Exponent? ==> !DigitAt(s, i) && !At(s, i, '.')
  {
    if x.Exponent? {
      HereAt(s, i, ExponentText(x), 0);
    }
  }

  lemma NumeralDecodes(s: string, i: nat, t: Token)
    requires t.Numeral? && ValidToken(t) && Here(s, i, TokenText(t)) && Stops(s, i + |TokenText(t)|)
    ensures ScanNumber(s, i) == Done(TokenValue(t), i + |TokenText(t)|)
    ensures i < |s| && (s[i] == '-' || IsDigit(s[i])) && (s[i] == '-' ==> DigitAt(s, i + 1))
  {
    hide *;
    NumeralIs(t);
    NumeralParts(s, i, t);
    var dot := i + (if t.minus then 1 else 0) + |t.whole|;
    WholeDecodes(s, i, t.minus, t.whole);
    FractionDecodes(s, dot, t.fraction);
    StopIsNoDigit(s, i + |TokenText(t)|);
    ExponentDecodes(s, dot + |FractionText(t.fraction)|, t.exponent);
    NumberEquation(s, i);
    HereIs(s, i, TokenText(t));
  }

  lemma HereIs(s: string, i: nat, t: string)
    requires Here(s, i, t)
    ensures i + |t| <= |s| && s[i..i + |t|] == t
  {
  }

  lemma NumeralIs(t: Token)
    requires t.Numeral? && ValidToken(t)
    ensures t.whole != "" && AllDigits(t.whole) && (t.whole[0] == '0' ==> |t.whole| == 1) && AllDigits(t.fraction)
    ensures ValidExponent(t.exponent) && TokenValue(t) == Number(TokenText(t))
    ensures TokenText(t) == ((if t.minus then "-" else "") + t.whole) + (FractionText(t.fraction) + ExponentText(t.exponent))
  {
  }

  lemma NumberEquation(s: string, i: nat)
    ensures ScanNumber(s, i) ==
            var whole := IntegerEnd(s, i);
            if whole == i || i >= |s| then Fail
            else Done(Number(s[i..ExponentEnd(s, FractionEnd(s, whole))]), ExponentEnd(s, FractionEnd(s, whole)))
  {
  }

  lemma WordDecodes(s: string, i: nat, t: Token)
    requires t.Word? && ValidToken(t) && Here(s, i, t.text)
    ensures ParseToken(s, i) == Done(TokenValue(t), i + |t.text|)
    ensures i < |s| && (s[i] == 'n' || s[i] == 't' || s[i] == 'f' || s[i] == 'N' || s[i] == 'I' || s[i] == '-')
  {
    hide ScanNumber;
    HereAt(s, i, t.text, 0);
    NoOtherWord(s, i, "null");
    NoOtherWord(s, i, "true");
    NoOtherWord(s, i, "false");
    NoOtherWord(s, i, "NaN");
    NoOtherWord(s, i, "Infinity");
    NoOtherWord(s, i, "-Infinity");
  }

  lemma NoOtherWord(s: string, i: nat, word: string)
    requires i < |s| && word != ""
    ensures Matches(s, i, word) <==> Here(s, i, word)
    ensures s[i] != word[0] ==> !Matches(s, i, word)
    ensures |word| > 1 && i + 1 < |s| && s[i + 1] != word[1] ==> !Matches(s, i, word)
  {
    if Matches(s, i, word) {
      HereAt(s, i, word, 0);
      if |word| > 1 {
        HereAt(s, i, word, 1);
      }
    }
  }

  lemma WordText(t: Token)
    requires t.Word?
    ensures TokenText(t) == t.text
  {
  }

  lemma TokenDecodes(s: string, i: nat, t: Token)
    requires ValidToken(t) && Here(s, i, TokenText(t)) && Stops(s, i + |TokenText(t)|)
    ensures ParseValue(s, i) == Done(TokenValue(t), i + |TokenText(t)|)
    ensures i < |s| && !IsWs(s[i])
  {
    hide ScanNumber, Here, Stops, ValidToken, TokenText, TokenValue, Matches;
    if t.Word? {
      WordText(t);
      WordDecodes(s, i, t);
    } else {
      NumeralDecodes(s, i, t);
      NoOtherWord(s, i, "null");
      NoOtherWord(s, i, "true");
      NoOtherWord(s, i, "false");
      NoOtherWord(s, i, "NaN");
      NoOtherWord(s, i, "Infinity");
      NoOtherWord(s, i, "-Infinity");
    }
  }

  // ---------- So do whole values ----------

  /** Starts a value: no white space and no punctuation between values. */
  predicate Opens(c: char) {
    !IsWs(c) && c != ',' && c != ':' && c != ']' && c != '}'
  }

  lemma {:induction false} BlankSkips(s: string, i: nat, ws: string)
    requires Blank(ws) && Here(s, i, ws) && (i + |ws| < |s| ==> !IsWs(s[i + |ws|]))
    ensures SkipWs(s, i) == i + |ws|
    decreases |ws|
  {
    if ws != "" {
      HereAt(s, i, ws, 0);
      assert ws == ws[..1] + ws[1..];
      HereParts(s, i, ws[..1], ws[1..]);
      BlankSkips(s, i + 1, ws[1..]);
    }
  }

  lemma BlankStops(s: string, i: nat, ws: string)
    requires Blank(ws) && Here(s, i, ws) && Stops(s, i + |ws|)
    ensures Stops(s, i)
  {
    if ws != "" {
      HereAt(s, i, ws, 0);
    }
  }

  lemma WrittenOpens(s: string, i: nat, n: Node)
    requires ValidNode(n) && Here(s, i, Written(n)) && Stops(s, i + |Written(n)|)
    ensures i < |s| && Opens(s[i])
  {
    hide Stops, ValidToken, TokenText;
    if n.Leaf? {
      TokenOpens(s, i, n.token);
    } else {
      HereAt(s, i, Written(n), 0);
    }
  }

  lemma TokenOpens(s: string, i: nat, t: Token)
    requires ValidToken(t) && Here(s, i, TokenText(t)) && Stops(s, i + |TokenText(t)|)
    ensures i < |s| && Opens(s[i])
  {
    hide ParseToken, ScanNumber, Here, Stops, ValidToken, TokenText, TokenValue;
    if t.Word? {
      WordText(t);
      WordDecodes(s, i, t);
    } else {
      NumeralDecodes(s, i, t);
    }
  }

  // The cases of a value, for proofs that keep the definitions folded.

  lemma ObjectCase(s: string, i: nat)
    requires i < |s| && s[i] == '{'
    ensures var first := SkipWs(s, i + 1);
            && i < first
            && ParseValue(s, i) ==
                 if first < |s| && s[first] == '}' then Done(Object([]), first + 1)
                 else if ParseMembers(s, first).Fail? then Fail
                 else Done(Object(ParseMembers(s, first).value), ParseMembers(s, first).end)
  {
    hide SkipWs, ParseMembers;
  }

  lemma ArrayCase(s: string, i: nat)
    requires i < |s| && s[i] == '['
    ensures var first := SkipWs(s, i + 1);
            && i < first
            && ParseValue(s, i) ==
                 if first < |s| && s[first] == ']' then Done(Array([]), first + 1)
                 else if ParseElements(s, first).Fail? then Fail
                 else Done(Array(ParseElements(s, first).value), ParseElements(s, first).end)
  {
    hide SkipWs, ParseElements;
  }

  lemma BracesAre(pad: string, pairs: seq<Pair>)
    requires (pad == "" || Blank(pad)) && forall k :: 0 <= k < |pairs| ==> ValidPair(pairs[k])
    ensures var n := Braces(pad, pairs);
            && ValidNode(n) && ValueOf(n) == Object(PairMembers(pairs)) && PairMembers([]) == []
            && (pairs == [] ==> Written(n) == "{" + pad + "}")
            && (pairs != [] ==> Written(n) == "{" + (PairsText(pairs) + "}"))
  {
    hide *;
    BracesValid(pad, pairs);
    BracesWritten(pad, pairs);
    NothingInside();
  }

  lemma BracesValid(pad: string, pairs: seq<Pair>)
    requires (pad == "" || Blank(pad)) && forall k :: 0 <= k < |pairs| ==> ValidPair(pairs[k])
    ensures ValidNode(Braces(pad, pairs)) && ValueOf(Braces(pad, pairs)) == Object(PairMembers(pairs))
  {
    hide ValidPair, PairMembers, Written;
  }

  lemma BracesWritten(pad: string, pairs: seq<Pair>)
    ensures pairs == [] ==> Written(Braces(pad, pairs)) == "{" + pad + "}"
    ensures pairs != [] ==> Written(Braces(pad, pairs)) == "{" + (PairsText(pairs) + "}")
  {
    hide PairsText, TokenText, Body;
  }

  lemma BracketsAre(pad: string, slots: seq<Slot>)
    requires (pad == "" || Blank(pad)) && forall k :: 0 <= k < |slots| ==> ValidSlot(slots[k])
    ensures var n := Brackets(pad, slots);
            && ValidNode(n) && ValueOf(n) == Array(SlotValues(slots)) && SlotValues([]) == []
            && (slots == [] ==> Written(n) == "[" + pad + "]")
            && (slots != [] ==> Written(n) == "[" + (SlotsText(slots) + "]"))
  {
    hide *;
    BracketsValid(pad, slots);
    BracketsWritten(pad, slots);
    NothingInside();
  }

  lemma BracketsValid(pad: string, slots: seq<Slot>)
    requires (pad == "" || Blank(pad)) && forall k :: 0 <= k < |slots| ==> ValidSlot(slots[k])
    ensures ValidNode(Brackets(pad, slots)) && ValueOf(Brackets(pad, slots)) == Array(SlotValues(slots))
  {
    hide ValidSlot, SlotValues, Written;
  }

  lemma BracketsWritten(pad: string, slots: seq<Slot>)
    ensures slots == [] ==> Written(Brackets(pad, slots)) == "[" + pad + "]"
    ensures slots != [] ==> Written(Brackets(pad, slots)) == "[" + (SlotsText(slots) + "]")
  {
    hide SlotsText, TokenText, Body;
  }

  lemma NothingInside()
    ensures PairMembers([]) == [] && SlotValues([]) == []
  {
  }

  lemma LeafIs(t: Token)
    ensures ValidNode(Leaf(t)) <==> ValidToken(t)
    ensures Written(Leaf(t)) == TokenText(t) && ValueOf(Leaf(t)) == TokenValue(t)
  {
  }

  lemma ValueCases(s: string, i: nat)
    requires i < |s|
    ensures s[i] == '\"' ==> ParseValue(s, i) == if ScanString(s, i + 1).Done? then Done(Str(ScanString(s, i + 1).value), ScanString(s, i + 1).end) else Fail
    ensures s[i] != '\"' && s[i] != '{' && s[i] != '[' ==> ParseValue(s, i) == ParseToken(s, i)
  {
  }

  lemma {:induction false} NodeDecodes(s: string, i: nat, n: Node)
    requires ValidNode(n) && Here(s, i, Written(n)) && Stops(s, i + |Written(n)|)
    ensures ParseValue(s, i) == Done(ValueOf(n), i + |Written(n)|)
    decreases |Written(n)|, 0
  {
    hide *;
    PunctuationOpens();
    NodeIs(n);
    match n {
      case Leaf(token) =>
        LeafIs(token);
        TokenDecodes(s, i, token);
      case Quoted(pieces) =>
        HereParts(s, i, "\"", Body(pieces) + "\"");
        HereAt(s, i, "\"", 0);
        LiteralDecodes(s, i + 1, pieces);
        ValueCases(s, i);
      case Brackets(pad, slots) =>
        BracketsAre(pad, slots);
        if slots == [] {
          EmptyStands(s, i, '[', pad, ']');
        } else {
          HereParts(s, i, "[", SlotsText(slots) + "]");
          HereAt(s, i, "[", 0);
          SlotsDecode(s, i + 1, slots);
          NoClose(s[SkipWs(s, i + 1)]);
        }
        ArrayCase(s, i);
      case Braces(pad, pairs) =>
        BracesAre(pad, pairs);
        if pairs == [] {
          EmptyStands(s, i, '{', pad, '}');
        } else {
          HereParts(s, i, "{", PairsText(pairs) + "}");
          HereAt(s, i, "{", 0);
          PairsDecode(s, i + 1, pairs);
          NoClose(s[SkipWs(s, i + 1)]);
        }
        ObjectCase(s, i);
    }
  }

  lemma NoClose(c: char)
    requires Opens(c)
    ensures c != ']' && c != '}'
  {
  }

  lemma NodeIs(n: Node)
    requires ValidNode(n)
    ensures n.Quoted? ==> Written(n) == "\"" + (Body(n.pieces) + "\"") && ValidPieces(n.pieces) && ValueOf(n) == Str(TextOf(n.pieces))
    ensures n.Brackets? ==> Blank(n.pad) && forall k :: 0 <= k < |n.slots| ==> ValidSlot(n.slots[k])
    ensures n.Braces? ==> Blank(n.pad) && forall k :: 0 <= k < |n.pairs| ==> ValidPair(n.pairs[k])
  {
    hide ValidToken, TokenText, TokenValue, Body, TextOf, ValidPieces, ValidSlot, ValidPair, SlotsText, PairsText;
  }

  lemma EmptyStands(s: string, i: nat, open: char, pad: string, close: char)
    requires Blank(pad) && Here(s, i, [open] + pad + [close]) && !IsWs(close)
    ensures i < |s| && s[i] == open && SkipWs(s, i + 1) == i + 1 + |pad| < |s| && s[i + 1 + |pad|] == close
  {
    assert [open] + pad + [close] == [open] + (pad + [close]);
    HereParts(s, i, [open], pad + [close]);
    HereAt(s, i, [open], 0);
    HereParts(s, i + 1, pad, [close]);
    HereAt(s, i + 1 + |pad|, [close], 0);
    BlankSkips(s, i + 1, pad);
  }

  /** One value with its white space, before a comma or a closing bracket. */
  lemma {:induction false} SlotDecodes(s: string, i: nat, slot: Slot)
    requires ValidSlot(slot) && Here(s, i, SlotText(slot))
    requires var end := i + |SlotText(slot)|; end < |s| && (s[end] == ',' || s[end] == ']' || s[end] == '}')
    ensures var v := i + |slot.before|;
            && SkipWs(s, i) == v < |s| && Opens(s[v]) && ParseValue(s, v) == Done(ValueOf(slot.node), v + |Written(slot.node)|)
            && SkipWs(s, v + |Written(slot.node)|) == i + |SlotText(slot)|
    decreases |SlotText(slot)|, 1
  {
    hide *;
    SlotIs(slot);
    BeforeStops(s, i + |SlotText(slot)|);
    var v := i + |slot.before|;
    var end := v + |Written(slot.node)|;
    HereParts(s, i, slot.before, Written(slot.node) + slot.after);
    HereParts(s, v, Written(slot.node), slot.after);
    BlankStops(s, end, slot.after);
    BlankSkips(s, end, slot.after);
    WrittenOpens(s, v, slot.node);
    OpensIs(s[v]);
    BlankSkips(s, i, slot.before);
    NodeDecodes(s, v, slot.node);
  }

  lemma OpensIs(c: char)
    requires Opens(c)
    ensures !IsWs(c)
  {
  }

  lemma SlotIs(slot: Slot)
    ensures ValidSlot(slot) <==> Blank(slot.before) && ValidNode(slot.node) && Blank(slot.after)
    ensures SlotText(slot) == slot.before + (Written(slot.node) + slot.after)
  {
  }

  lemma BeforeStops(s: string, i: nat)
    requires i < |s| && (s[i] == ',' || s[i] == ']' || s[i] == '}')
    ensures Stops(s, i) && !IsWs(s[i])
  {
  }

  lemma {:induction false} SlotsDecode(s: string, i: nat, slots: seq<Slot>)
    requires slots != [] && (forall k :: 0 <= k < |slots| ==> ValidSlot(slots[k])) && Here(s, i, SlotsText(slots) + "]")
    ensures SkipWs(s, i) < |s| && Opens(s[SkipWs(s, i)])
    ensures ParseElements(s, SkipWs(s, i)) == Done(SlotValues(slots), i + |SlotsText(slots)| + 1)
    decreases |SlotsText(slots)|, 2
  {
    hide *;
    var next := i + |SlotText(slots[0])|;
    FirstSlot(s, i, slots);
    SlotDecodes(s, i, slots[0]);
    ElementsEquation(s, SkipWs(s, i));
    if |slots| > 1 {
      SlotsDecode(s, next + 1, slots[1..]);
    }
    SlotsGo(s, next);
  }

  lemma SlotsGo(s: string, i: nat)
    ensures At(s, i, ',') <==> i < |s| && s[i] == ','
    ensures At(s, i, ']') <==> i < |s| && s[i] == ']'
  {
  }

  /** Where the first of them stands, and what follows it. */
  lemma FirstSlot(s: string, i: nat, slots: seq<Slot>)
    requires slots != [] && Here(s, i, SlotsText(slots) + "]")
    ensures Here(s, i, SlotText(slots[0])) && i + |SlotText(slots[0])| < |s|
    ensures var next := i + |SlotText(slots[0])|;
            && (|slots| == 1 ==>
                  && s[next] == ']' && |SlotsText(slots)| == |SlotText(slots[0])|
                  && SlotValues(slots) == [ValueOf(slots[0].node)])
            && (|slots| > 1 ==>
                  && s[next] == ',' && Here(s, next + 1, SlotsText(slots[1..]) + "]")
                  && |SlotsText(slots)| == |SlotText(slots[0])| + 1 + |SlotsText(slots[1..])|
                  && SlotValues(slots) == [ValueOf(slots[0].node)] + SlotValues(slots[1..]))
  {
    hide Here, SlotText, ValueOf;
    var next := i + |SlotText(slots[0])|;
    var rest := if |slots| == 1 then "]" else "," + (SlotsText(slots[1..]) + "]");
    assert SlotsText(slots) + "]" == SlotText(slots[0]) + rest;
    HereParts(s, i, SlotText(slots[0]), rest);
    HereAt(s, next, rest, 0);
    if |slots| > 1 {
      HereParts(s, next, ",", SlotsText(slots[1..]) + "]");
    }
  }

  /** One member, its white space included. */
  lemma {:induction false} PairDecodes(s: string, i: nat, p: Pair)
    requires ValidPair(p) && Here(s, i, PairText(p))
    requires var end := i + |PairText(p)|; end < |s| && (s[end] == ',' || s[end] == ']' || s[end] == '}')
    ensures var m := SkipWs(s, i);
            && m < |s| && Opens(s[m]) && ParseMember(s, m).Done? && ParseMember(s, m).value == MemberOf(p)
            && SkipWs(s, ParseMember(s, m).end) == i + |PairText(p)|
    decreases |PairText(p)|, 2
  {
    hide *;
    var colon := KeyDecodes(s, i, p);
    SlotDecodes(s, colon + 1, p.slot);
    MemberEquation(s, SkipWs(s, i), p, colon);
  }

  /** The name of a member and its colon. */
  lemma KeyDecodes(s: string, i: nat, p: Pair) returns (colon: nat)
    requires ValidPair(p) && Here(s, i, PairText(p))
    ensures var m := SkipWs(s, i);
            && m + 1 < |s| && s[m] == '\"' && Opens(s[m])
            && ScanString(s, m + 1).Done? && ScanString(s, m + 1).value == TextOf(p.key)
            && SkipWs(s, ScanString(s, m + 1).end) == colon < |s| && s[colon] == ':'
    ensures Here(s, colon + 1, SlotText(p.slot)) && colon + 1 + |SlotText(p.slot)| == i + |PairText(p)| && ValidSlot(p.slot)
    ensures |SlotText(p.slot)| < |PairText(p)|
  {
    hide *;
    var open := i + |p.before|;
    var quote := open + 1 + |Body(p.key)|;
    colon := quote + 1 + |p.mid|;
    PairStands(s, i, p);
    PairIs(p);
    PunctuationOpens();
    BlankSkips(s, i, p.before);
    LiteralDecodes(s, open + 1, p.key);
    BlankSkips(s, quote + 1, p.mid);
  }

  lemma PairIs(p: Pair)
    ensures ValidPair(p) <==> Blank(p.before) && ValidPieces(p.key) && Blank(p.mid) && ValidSlot(p.slot)
    ensures MemberOf(p) == Member(TextOf(p.key), ValueOf(p.slot.node))
  {
  }

  lemma PunctuationOpens()
    ensures Opens('\"') && !IsWs('\"') && !IsWs(':') && !IsWs(']') && !IsWs('}')
  {
  }

  /** Where the parts of a member stand. */
  lemma PairStands(s: string, i: nat, p: Pair)
    requires Here(s, i, PairText(p))
    ensures var open := i + |p.before|;
            var colon := open + 2 + |Body(p.key)| + |p.mid|;
            && Here(s, i, p.before) && open + 1 < |s| && s[open] == '\"' && Here(s, open + 1, Body(p.key) + "\"")
            && Here(s, open + 2 + |Body(p.key)|, p.mid) && colon < |s| && s[colon] == ':' && Here(s, colon + 1, SlotText(p.slot))
            && |PairText(p)| == colon + 1 + |SlotText(p.slot)| - i
  {
    hide *;
    PairJoined(p);
    var fromColon := ":" + SlotText(p.slot);
    var key := Body(p.key) + "\"";
    var open := i + |p.before|;
    HereParts(s, i, p.before, "\"" + (key + (p.mid + fromColon)));
    QuoteStands(s, open, key, p.mid + fromColon);
    var after := open + 1 + |key|;
    HereParts(s, after, p.mid, fromColon);
    HereParts(s, after + |p.mid|, ":", SlotText(p.slot));
    HereAt(s, after + |p.mid|, ":", 0);
    HereIs(s, after + |p.mid|, ":");
  }

  lemma QuoteStands(s: string, i: nat, key: string, rest: string)
    requires Here(s, i, "\"" + (key + rest)) && key != ""
    ensures i + 1 < |s| && s[i] == '\"' && Here(s, i + 1, key) && Here(s, i + 1 + |key|, rest)
  {
    hide Here;
    HereParts(s, i, "\"", key + rest);
    HereAt(s, i, "\"", 0);
    HereParts(s, i + 1, key, rest);
    HereIs(s, i + 1, key);
  }

  lemma PairJoined(p: Pair)
    ensures PairText(p) == p.before + ("\"" + ((Body(p.key) + "\"") + (p.mid + (":" + SlotText(p.slot)))))
  {
    hide Body, SlotText;
    assert Body(p.key) + ("\"" + (p.mid + (":" + SlotText(p.slot)))) == (Body(p.key) + "\"") + (p.mid + (":" + SlotText(p.slot)));
  }

  lemma MemberEquation(s: string, m: nat, p: Pair, colon: nat)
    requires m + 1 < |s| && s[m] == '\"' && ScanString(s, m + 1).Done? && ScanString(s, m + 1).value == TextOf(p.key)
    requires SkipWs(s, ScanString(s, m + 1).end) == colon < |s| && s[colon] == ':'
    requires ParseValue(s, SkipWs(s, colon + 1)).Done? && ParseValue(s, SkipWs(s, colon + 1)).value == ValueOf(p.slot.node)
    ensures ParseMember(s, m) == Done(MemberOf(p), ParseValue(s, SkipWs(s, colon + 1)).end)
  {
    hide ParseValue, ScanString, SkipWs;
  }

  lemma {:induction false} PairsDecode(s: string, i: nat, pairs: seq<Pair>)
    requires pairs != [] && (forall k :: 0 <= k < |pairs| ==> ValidPair(pairs[k])) && Here(s, i, PairsText(pairs) + "}")
    ensures SkipWs(s, i) < |s| && Opens(s[SkipWs(s, i)])
    ensures ParseMembers(s, SkipWs(s, i)) == Done(PairMembers(pairs), i + |PairsText(pairs)| + 1)
    decreases |PairsText(pairs)|, 3
  {
    hide *;
    var next := i + |PairText(pairs[0])|;
    FirstPair(s, i, pairs);
    PairDecodes(s, i, pairs[0]);
    MembersEquation(s, SkipWs(s, i));
    if |pairs| > 1 {
      PairsDecode(s, next + 1, pairs[1..]);
    }
    PairsGo(s, next);
  }

  lemma PairsGo(s: string, i: nat)
    ensures At(s, i, ',') <==> i < |s| && s[i] == ','
    ensures At(s, i, '}') <==> i < |s| && s[i] == '}'
  {
  }

  /** Where the first of them stands, and what follows it. */
  lemma FirstPair(s: string, i: nat, pairs: seq<Pair>)
    requires pairs != [] && Here(s, i, PairsText(pairs) + "}")
    ensures Here(s, i, PairText(pairs[0])) && i + |PairText(pairs[0])| < |s|
    ensures var next := i + |PairText(pairs[0])|;
            && (|pairs| == 1 ==>
                  && s[next] == '}' && |PairsText(pairs)| == |PairText(pairs[0])|
                  && PairMembers(pairs) == [MemberOf(pairs[0])])
            && (|pairs| > 1 ==>
                  && s[next] == ',' && Here(s, next + 1, PairsText(pairs[1..]) + "}")
                  && |PairsText(pairs)| == |PairText(pairs[0])| + 1 + |PairsText(pairs[1..])|
                  && PairMembers(pairs) == [MemberOf(pairs[0])] + PairMembers(pairs[1..]))
  {
    hide Here, PairText, MemberOf;
    var next := i + |PairText(pairs[0])|;
    var rest := if |pairs| == 1 then "}" else "," + (PairsText(pairs[1..]) + "}");
    assert PairsText(pairs) + "}" == PairText(pairs[0]) + rest;
    HereParts(s, i, PairText(pairs[0]), rest);
    HereAt(s, next, rest, 0);
    if |pairs| > 1 {
      HereParts(s, next, ",", PairsText(pairs[1..]) + "}");
    }
  }

  lemma WholeIsHere(s: string)
    ensures Here(s, 0, s) && Stops(s, |s|)
  {
  }

  /** A text of the grammar, in white space, decodes to what it means. */
  lemma TextsDecode(before: string, n: Node, after: string)
    requires Blank(before) && ValidNode(n) && Blank(after)
    ensures Loads(before + Written(n) + after) == Done(ValueOf(n), |before| + |Written(n)|)
  {
    hide *;
    var w := Written(n);
    assert before + w + after == before + (w + after);
    WholeTextDecodes(before + w + after, before, n, after);
  }

  lemma WholeTextDecodes(s: string, before: string, n: Node, after: string)
    requires Blank(before) && ValidNode(n) && Blank(after) && s == before + (Written(n) + after)
    ensures Loads(s) == Done(ValueOf(n), |before| + |Written(n)|)
  {
    hide *;
    var end := |before| + |Written(n)|;
    WholeIsHere(s);
    HereParts(s, 0, before, Written(n) + after);
    HereParts(s, |before|, Written(n), after);
    assert end + |after| == |s|;
    BlankStops(s, end, after);
    WrittenOpens(s, |before|, n);
    OpensIs(s[|before|]);
    BlankSkips(s, 0, before);
    NodeDecodes(s, |before|, n);
    BlankSkips(s, end, after);
    LoadsIs(s);
  }

  lemma LoadsIs(s: string)
    ensures Loads(s) ==
            var v := ParseValue(s, SkipWs(s, 0));
            if v.Done? && SkipWs(s, v.end) == |s| then v else Fail
  {
  }
}
