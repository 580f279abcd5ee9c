/** The JSON decoder both row paths rest on: what Python's `json` makes of a text, position by
    position. Grammar: sections 2 to 7 of RFC 8259, plus the three constants Python also takes. */
module Json {

  /** A decoded string: code points, so that equal keys are equal however they were escaped. */
  type Text = seq<int>

  datatype Member = Member(key: Text, value: Value)

  /** A decoded value. A number keeps its spelling; an object keeps its members as written,
      duplicates included, and is read as a dictionary by `DictOf`. */
  datatype Value =
    | Null
    | Bool(b: bool)
    | Number(lexeme: string)
    | Str(text: Text)
    | Array(items: seq<Value>)
    | Object(members: seq<Member>)

  datatype Parse<+T> = Fail | Done(value: T, end: nat)

  predicate IsWs(c: char) {
    c == ' ' || c == '\t' || c == '\n' || c == '\r'
  }

  predicate IsDigit(c: char) {
    '0' <= c <= '9'
  }

  function SkipWs(s: string, i: nat): (j: nat)
    ensures i <= j && (i <= |s| ==> j <= |s|)
    ensures forall k :: i <= k < j ==> k < |s| && IsWs(s[k])
    ensures j < |s| ==> !IsWs(s[j])
    decreases |s| - i
  {
    if i < |s| && IsWs(s[i]) then SkipWs(s, i + 1) else i
  }

  predicate At(s: string, i: nat, c: char) {
    i < |s| && s[i] == c
  }

  predicate Matches(s: string, i: nat, word: string) {
    i + |word| <= |s| && s[i..i + |word|] == word
  }

  // ---------- Strings ----------

  function HexValue(c: char): int {
    if '0' <= c <= '9' then c as int - '0' as int
    else if 'a' <= c <= 'f' then c as int - 'a' as int + 10
    else if 'A' <= c <= 'F' then c as int - 'A' as int + 10
    else -1
  }

  /** The code unit of the four hex digits at `i`, or -1. */
  function Hex4(s: string, i: nat): (code: int)
    ensures code >= 0 ==> i + 4 <= |s|
  {
    if i + 4 > |s| then -1
    else if HexValue(s[i]) < 0 || HexValue(s[i + 1]) < 0 || HexValue(s[i + 2]) < 0 || HexValue(s[i + 3]) < 0 then -1
    else HexValue(s[i]) * 4096 + HexValue(s[i + 1]) * 256 + HexValue(s[i + 2]) * 16 + HexValue(s[i + 3])
  }

  predicate HighSurrogate(code: int) {
    0xD800 <= code <= 0xDBFF
  }

  predicate LowSurrogate(code: int) {
    0xDC00 <= code <= 0xDFFF
  }

  function SimpleEscape(c: char): int {
    if c == '\"' then 34
    else if c == '\\' then 92
    else if c == '/' then 47
    else if c == 'b' then 8
    else if c == 'f' then 12
    else if c == 'n' then 10
    else if c == 'r' then 13
    else if c == 't' then 9
    else -1
  }

  /** The `\\u` escape whose four digits start at `i`. A high surrogate followed by an escaped low
      one is one code point. */
  function UnicodeEscape(s: string, i: nat): (r: Parse<int>)
    ensures r.Done? ==> i + 4 <= r.end <= |s|
  {
    var high := Hex4(s, i);
    if high < 0 then Fail
    else if HighSurrogate(high) && At(s, i + 4, '\\') && At(s, i + 5, 'u') && LowSurrogate(Hex4(s, i + 6)) then
      Done(0x10000 + (high - 0xD800) * 1024 + (Hex4(s, i + 6) - 0xDC00), i + 10)
    else Done(high, i + 4)
  }

  /** One escape whose backslash is at `i`: the code point and the position after it. */
  function Escape(s: string, i: nat): (r: Parse<int>)
    ensures r.Done? ==> i + 2 <= r.end <= |s|
  {
    if i + 1 >= |s| then Fail
    else if s[i + 1] == 'u' then UnicodeEscape(s, i + 2)
    else if SimpleEscape(s[i + 1]) < 0 then Fail
    else Done(SimpleEscape(s[i + 1]), i + 2)
  }

  /** The rest of a string literal from `i`, past its opening quote. */
  function ScanString(s: string, i: nat): (r: Parse<Text>)
    ensures r.Done? ==> i < r.end <= |s| && s[r.end - 1] == '\"'
    decreases |s| - i
  {
    if i >= |s| then Fail
    else if s[i] == '\"' then Done([], i + 1)
    else if s[i] == '\\' then
      var e := Escape(s, i);
      if e.Fail? then Fail else
        var rest := ScanString(s, e.end);
        if rest.Fail? then Fail else Done([e.value] + rest.value, rest.end)
    else if s[i] < ' ' then Fail
    else
      var rest := ScanString(s, i + 1);
      if rest.Fail? then Fail else Done([s[i] as int] + rest.value, rest.end)
  }

  // ---------- Numbers ----------

  function DigitsEnd(s: string, i: nat): (j: nat)
    ensures i <= j && (i <= |s| ==> j <= |s|)
    ensures forall k :: i <= k < j ==> k < |s| && IsDigit(s[k])
    ensures j < |s| ==> !IsDigit(s[j])
    decreases |s| - i
  {
    if i < |s| && IsDigit(s[i]) then DigitsEnd(s, i + 1) else i
  }

  predicate DigitAt(s: string, i: nat) {
    i < |s| && IsDigit(s[i])
  }

  /** The end of the integer part at `i`, or `i` itself when there is none. */
  function IntegerEnd(s: string, i: nat): (j: nat)
    ensures i <= j && (i <= |s| ==> j <= |s|)
  {
    var first := if At(s, i, '-') then i + 1 else i;
    if At(s, first, '0') then first + 1
    else if DigitAt(s, first) then DigitsEnd(s, first)
    else i
  }

  function FractionEnd(s: string, i: nat): (j: nat)
    ensures i <= j && (i <= |s| ==> j <= |s|)
  {
    if At(s, i, '.') && DigitAt(s, i + 1) then DigitsEnd(s, i + 1) else i
  }

  function ExponentEnd(s: string, i: nat): (j: nat)
    ensures i <= j && (i <= |s| ==> j <= |s|)
  {
    if At(s, i, 'e') || At(s, i, 'E') then
      var digits := if At(s, i + 1, '+') || At(s, i + 1, '-') then i + 2 else i + 1;
      if DigitAt(s, digits) then DigitsEnd(s, digits) else i
    else i
  }

  /** The longest number at `i`. */
  function ScanNumber(s: string, i: nat): (r: Parse<Value>)
    ensures r.Done? ==> i < r.end <= |s|
  {
    var whole := IntegerEnd(s, i);
    if whole == i || i >= |s| then Fail else
      var end := ExponentEnd(s, FractionEnd(s, whole));
      Done(Number(s[i..end]), end)
  }

  // ---------- Values ----------

  /** A constant or a number at `i`. */
  function ParseToken(s: string, i: nat): (r: Parse<Value>)
    ensures r.Done? ==> i < r.end <= |s|
  {
    if Matches(s, i, "null") then Done(Null, i + 4)
    else if Matches(s, i, "true") then Done(Bool(true), i + 4)
    else if Matches(s, i, "false") then Done(Bool(false), i + 5)
    else if Matches(s, i, "NaN") then Done(Number("NaN"), i + 3)
    else if Matches(s, i, "Infinity") then Done(Number("Infinity"), i + 8)
    else if Matches(s, i, "-Infinity") then Done(Number("-Infinity"), i + 9)
    else ScanNumber(s, i)
  }

  /** The value at exactly `i`: what `raw_decode` returns, or `Fail` where it raises. */
  function ParseValue(s: string, i: nat): (r: Parse<Value>)
    ensures r.Done? ==> i < r.end <= |s|
    decreases |s| - i, 1
  {
    if i >= |s| then Fail
    else if s[i] == '\"' then
      var t := ScanString(s, i + 1);
      if t.Fail? then Fail else Done(Str(t.value), t.end)
    else if s[i] == '{' then
      var first := SkipWs(s, i + 1);
      if At(s, first, '}') then Done(Object([]), first + 1) else
        var ms := ParseMembers(s, first);
        if ms.Fail? then Fail else Done(Object(ms.value), ms.end)
    else if s[i] == '[' then
      var first := SkipWs(s, i + 1);
      if At(s, first, ']') then Done(Array([]), first + 1) else
        var es := ParseElements(s, first);
        if es.Fail? then Fail else Done(Array(es.value), es.end)
    else ParseToken(s, i)
  }

  /** Elements from `i` up to and past the closing bracket. */
  function ParseElements(s: string, i: nat): (r: Parse<seq<Value>>)
    ensures r.Done? ==> i < r.end <= |s| && r.value != []
    decreases |s| - i, 2
  {
    var v := ParseValue(s, i);
    if v.Fail? then Fail else
      var next := SkipWs(s, v.end);
      if At(s, next, ']') then Done([v.value], next + 1)
      else if At(s, next, ',') then
        var rest := ParseElements(s, SkipWs(s, next + 1));
        if rest.Fail? then Fail else Done([v.value] + rest.value, rest.end)
      else Fail
  }

  /** One member `"key" : value` at `i`. */
  function ParseMember(s: string, i: nat): (r: Parse<Member>)
    ensures r.Done? ==> i < r.end <= |s|
    decreases |s| - i, 2
  {
    if !At(s, i, '\"') then Fail else
      var key := ScanString(s, i + 1);
      if key.Fail? then Fail else
        var colon := SkipWs(s, key.end);
        if !At(s, colon, ':') then Fail else
          var v := ParseValue(s, SkipWs(s, colon + 1));
          if v.Fail? then Fail else Done(Member(key.value, v.value), v.end)
  }

  /** Members from `i` up to and past the closing brace. */
  function ParseMembers(s: string, i: nat): (r: Parse<seq<Member>>)
    ensures r.Done? ==> i < r.end <= |s| && r.value != []
    decreases |s| - i, 3
  {
    var m := ParseMember(s, i);
    if m.Fail? then Fail else
      var next := SkipWs(s, m.end);
      if At(s, next, '}') then Done([m.value], next + 1)
      else if At(s, next, ',') then
        var rest := ParseMembers(s, SkipWs(s, next + 1));
        if rest.Fail? then Fail else Done([m.value] + rest.value, rest.end)
      else Fail
  }

  /** The defining equations, for proofs that keep the definitions folded. */
  lemma ElementsEquation(s: string, i: nat)
    ensures ParseElements(s, i) ==
            var v := ParseValue(s, i);
            if v.Fail? then Fail else
              var next := SkipWs(s, v.end);
              if At(s, next, ']') then Done([v.value], next + 1)
              else if At(s, next, ',') then
                var rest := ParseElements(s, SkipWs(s, next + 1));
                if rest.Fail? then Fail else Done([v.value] + rest.value, rest.end)
              else Fail
  {
  }

  lemma MembersEquation(s: string, i: nat)
    ensures ParseMembers(s, i) ==
            var m := ParseMember(s, i);
            if m.Fail? then Fail else
              var next := SkipWs(s, m.end);
              if At(s, next, '}') then Done([m.value], next + 1)
              else if At(s, next, ',') then
                var rest := ParseMembers(s, SkipWs(s, next + 1));
                if rest.Fail? then Fail else Done([m.value] + rest.value, rest.end)
              else Fail
  {
  }

  /** `json.loads`: one value with nothing but whitespace around it. */
  function Loads(s: string): Parse<Value> {
    var v := ParseValue(s, SkipWs(s, 0));
    if v.Done? && SkipWs(s, v.end) == |s| then v else Fail
  }

  // ---------- Objects as dictionaries ----------

  /** `d[m.key] = m.value` on a dictionary kept as its items in order. */
  function SetItem(items: seq<Member>, m: Member): (r: seq<Member>)
    ensures forall x :: x in r ==> x in items || x == m
  {
    if items == [] then [m]
    else if items[0].key == m.key then [m] + items[1..]
    else [items[0]] + SetItem(items[1..], m)
  }

  /** The dictionary Python builds from the members as written, as its items in order: a repeated
      name keeps its first place and its last value. */
  function DictItems(ms: seq<Member>): (r: seq<Member>)
    ensures forall x :: x in r ==> x in ms
  {
    if ms == [] then [] else SetItem(DictItems(ms[..|ms| - 1]), ms[|ms| - 1])
  }

  datatype Lookup = Missing | Found(value: Value)

  /** `d.get(key)` on items with distinct keys. */
  function Get(items: seq<Member>, key: Text): Lookup {
    if items == [] then Missing else if items[0].key == key then Found(items[0].value) else Get(items[1..], key)
  }

  ghost predicate DistinctKeys(items: seq<Member>) {
    forall i, j :: 0 <= i < j < |items| ==> items[i].key != items[j].key
  }

  /** The value last written under a name. */
  function LastValue(ms: seq<Member>, key: Text): Lookup {
    if ms == [] then Missing
    else if ms[|ms| - 1].key == key then Found(ms[|ms| - 1].value)
    else LastValue(ms[..|ms| - 1], key)
  }

  lemma {:induction false} SetItemWorks(items: seq<Member>, m: Member, key: Text)
    requires DistinctKeys(items)
    ensures DistinctKeys(SetItem(items, m))
    ensures Get(SetItem(items, m), key) == if key == m.key then Found(m.value) else Get(items, key)
    ensures forall x :: x in SetItem(items, m) && x != m ==> x in items && x.key != m.key
  {
    if items != [] && items[0].key != m.key {
      SetItemWorks(items[1..], m, key);
      var rest := SetItem(items[1..], m);
      forall i | 0 <= i < |rest| ensures rest[i].key != items[0].key {
        assert rest[i] in rest;
      }
    }
  }

  /** Later members win: the dictionary holds each name once, with the value last written. */
  lemma {:induction false} DictKeepsLast(ms: seq<Member>, key: Text)
    ensures DistinctKeys(DictItems(ms)) && Get(DictItems(ms), key) == LastValue(ms, key)
  {
    if ms != [] {
      DictKeepsLast(ms[..|ms| - 1], key);
      SetItemWorks(DictItems(ms[..|ms| - 1]), ms[|ms| - 1], key);
    }
  }

  /** Without repeated names the dictionary is the members as written. */
  lemma {:induction false} DistinctMembersAreTheDict(ms: seq<Member>)
    requires DistinctKeys(ms)
    ensures DictItems(ms) == ms
  {
    if ms != [] {
      var front, last := ms[..|ms| - 1], ms[|ms| - 1];
      DistinctMembersAreTheDict(front);
      SetItemAppends(front, last);
      assert front + [last] == ms;
    }
  }

  lemma {:induction false} SetItemAppends(items: seq<Member>, m: Member)
    requires forall i :: 0 <= i < |items| ==> items[i].key != m.key
    ensures SetItem(items, m) == items + [m]
  {
    if items != [] {
      SetItemAppends(items[1..], m);
    }
  }
}
