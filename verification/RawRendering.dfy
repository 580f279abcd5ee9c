/** The raw output of a select: the source text of each kept row, rejoined with fresh
    punctuation, and the one synthetic marker of a truncated slice. */
module RawRendering {
  import opened Texts
  import opened Json
  import opened JsonLocality
  import opened RetrieveRows

  // ---------- The truncation marker ----------

  const TRUNCATION_KEY := "__ccr_truncated__"

  function TruncationMessage(limit: nat, matched: nat): string {
    MESSAGE_START + Decimal(limit) + MESSAGE_OF + Decimal(matched) + MESSAGE_END
  }

  /** Characters a string literal holds as they are. */
  predicate Plain(s: string) {
    forall i :: 0 <= i < |s| ==> s[i] >= ' ' && s[i] != '\"' && s[i] != '\\'
  }

  /** `json.dumps` of the one-member marker object. */
  function MarkerText(limit: nat, matched: nat): string {
    "{\"" + TRUNCATION_KEY + "\": \"" + TruncationMessage(limit, matched) + "\"}"
  }

  function Marker(limit: nat, matched: nat): Value {
    Object([Member(Codes(TRUNCATION_KEY), Str(Codes(TruncationMessage(limit, matched))))])
  }

  const MESSAGE_START := "synthetic marker, not a source row: showing "
  const MESSAGE_OF := " of "
  const MESSAGE_END := " matched rows; raise 'limit' for the rest"

  lemma WordsArePlain()
    ensures Plain(MESSAGE_START) && Plain(MESSAGE_OF) && Plain(MESSAGE_END) && Plain(TRUNCATION_KEY)
  {
  }

  lemma DecimalIsPlain(n: nat)
    ensures Plain(Decimal(n))
  {
  }

  lemma MessageIsPlain(limit: nat, matched: nat)
    ensures Plain(TruncationMessage(limit, matched)) && Plain(TRUNCATION_KEY)
  {
    hide Plain, Decimal;
    WordsArePlain();
    DecimalIsPlain(limit);
    DecimalIsPlain(matched);
    PlainAppend(MESSAGE_START, Decimal(limit));
    PlainAppend(MESSAGE_START + Decimal(limit), MESSAGE_OF);
    PlainAppend(MESSAGE_START + Decimal(limit) + MESSAGE_OF, Decimal(matched));
    PlainAppend(MESSAGE_START + Decimal(limit) + MESSAGE_OF + Decimal(matched), MESSAGE_END);
  }

  lemma PlainAppend(a: string, b: string)
    requires Plain(a) && Plain(b)
    ensures Plain(a + b)
  {
  }

  lemma {:induction false} ScanPlain(s: string, i: nat, body: string)
    requires Plain(body) && i + |body| < |s| && s[i..i + |body|] == body && s[i + |body|] == '\"'
    ensures ScanString(s, i) == Done(Codes(body), i + |body| + 1)
    decreases |body|
  {
    if body != [] {
      assert s[i] == s[i..i + |body|][0] == body[0];
      assert s[i + 1..i + 1 + |body[1..]|] == body[1..];
      ScanPlain(s, i + 1, body[1..]);
      assert Codes(body) == [body[0] as int] + Codes(body[1..]);
    }
  }

  lemma MarkerWrites(limit: nat, matched: nat)
    ensures Writes(MarkerText(limit, matched), Marker(limit, matched))
  {
    hide Plain, Decimal, TruncationMessage, ScanString, Codes;
    MessageIsPlain(limit, matched);
    MarkerShape(MarkerText(limit, matched), TRUNCATION_KEY, TruncationMessage(limit, matched));
  }

  /** A one-member object whose key opens at 1, whose value opens at `v`, ending at the end. */
  lemma OneMemberParses(s: string, key: string, v: nat, message: string)
    requires Plain(key) && Plain(message) && v == |key| + 5 && |s| == v + |message| + 3
    requires s[0] == '{' && s[1] == '\"' && s[2..2 + |key|] == key && s[2 + |key|] == '\"'
    requires s[v - 2] == ':' && s[v - 1] == ' ' && s[v] == '\"'
    requires s[v + 1..v + 1 + |message|] == message && s[v + 1 + |message|] == '\"' && s[|s| - 1] == '}'
    ensures ParseValue(s, 0) == Done(Object([Member(Codes(key), Str(Codes(message)))]), |s|)
  {
    hide Plain, ScanString, Codes, ParseMembers, ParseMember, ParseElements, ParseToken;
    ScanPlain(s, 2, key);
    ScanPlain(s, v + 1, message);
    MemberAt(s, Codes(key), v, Codes(message));
    MembersEquation(s, 1);
  }

  lemma MemberAt(s: string, key: Text, v: nat, message: Text)
    requires 4 <= v < |s| && s[1] == '\"' && ScanString(s, 2) == Done(key, v - 2)
    requires s[v - 2] == ':' && s[v - 1] == ' ' && s[v] == '\"'
    requires ScanString(s, v + 1).Done? && ScanString(s, v + 1).value == message
    ensures ParseMember(s, 1) == Done(Member(key, Str(message)), ScanString(s, v + 1).end)
  {
    hide ScanString, ParseElements, ParseMembers, ParseToken;
    assert SkipWs(s, v - 1) == v by {
      assert SkipWs(s, v) == v;
    }
  }

  lemma MarkerShape(s: string, key: string, message: string)
    requires Plain(key) && Plain(message) && s == "{\"" + key + "\": \"" + message + "\"}"
    ensures Writes(s, Object([Member(Codes(key), Str(Codes(message)))]))
  {
    hide Plain, ScanString, Codes, ParseValue;
    var v := |key| + 5;
    assert s == ("{\"" + key) + ("\": \"" + message + "\"}");
    assert s[2..2 + |key|] == key;
    assert s[v + 1..v + 1 + |message|] == message;
    OneMemberParses(s, key, v, message);
  }

  // ---------- Rejoining ----------

  function JoinComma(xs: seq<string>): string {
    if xs == [] then "" else if |xs| == 1 then xs[0] else xs[0] + "," + JoinComma(xs[1..])
  }

  function RenderRaw(spans: seq<string>, limit: nat, matched: nat): string {
    var shown := (if |spans| <= limit then spans else spans[..limit])
                 + (if matched > limit then [MarkerText(limit, matched)] else []);
    "[" + JoinComma(shown) + "]"
  }

  ghost predicate AllWrite(texts: seq<string>, rows: seq<Value>) {
    |texts| == |rows| && forall i :: 0 <= i < |texts| ==> Writes(texts[i], rows[i])
  }

  /** A row text decodes to its row wherever it is embedded. */
  lemma EmbeddedRow(s: string, i: nat, text: string, row: Value)
    requires Writes(text, row) && i + |text| <= |s| && s[i..i + |text|] == text
    ensures s[i] == '{' && ParseValue(s, i) == Done(row, i + |text|)
  {
    hide ParseValue;
    forall k | 0 <= k < |text| ensures s[k + i] == text[k] {
      assert s[i..i + |text|][k] == s[k + i];
    }
    assert Same(text, s, i, 0, |text|);
    ParseValueShift(text, s, i, 0, |text|, 0);
  }

  /** Where the first text of a join stands, and what follows it. */
  lemma JoinedHead(s: string, i: nat, texts: seq<string>)
    requires texts != [] && i <= |s| && s[i..] == JoinComma(texts) + "]"
    ensures var next := i + |texts[0]|;
            && next < |s| && s[i..next] == texts[0]
            && (if |texts| == 1 then s[next] == ']' && next + 1 == |s|
                else s[next] == ',' && s[next + 1..] == JoinComma(texts[1..]) + "]")
  {
    var next := i + |texts[0]|;
    var rest := if |texts| == 1 then "]" else "," + (JoinComma(texts[1..]) + "]");
    assert s[i..] == texts[0] + rest;
    assert s[i..next] == s[i..][..|texts[0]|];
    assert s[next..] == s[i..][|texts[0]|..] == rest;
    assert s[next] == rest[0];
    assert |texts| > 1 ==> s[next + 1..] == rest[1..];
  }

  lemma {:induction false} JoinedReparse(s: string, i: nat, texts: seq<string>, rows: seq<Value>)
    requires AllWrite(texts, rows) && texts != [] && i <= |s| && s[i..] == JoinComma(texts) + "]"
    ensures i < |s| && s[i] == '{' && ParseElements(s, i) == Done(rows, |s|)
    decreases |texts|
  {
    hide ParseValue, ParseElements, JoinComma, Writes;
    var next := i + |texts[0]|;
    JoinedHead(s, i, texts);
    assert Writes(texts[0], rows[0]);
    EmbeddedRow(s, i, texts[0], rows[0]);
    ElementsEquation(s, i);
    if |texts| == 1 {
      assert rows == [rows[0]];
    } else {
      JoinedReparse(s, next + 1, texts[1..], rows[1..]);
      assert SkipWs(s, next + 1) == next + 1;
      assert [rows[0]] + rows[1..] == rows;
    }
  }

  /** Raw output decodes to the rows it shows, in order, followed by the marker exactly when
      more rows matched than are shown. */
  lemma RawReparses(spans: seq<string>, rows: seq<Value>, limit: nat)
    requires AllWrite(spans, rows)
    ensures var text := RenderRaw(spans, limit, |rows|);
            var shown := if |rows| <= limit then rows else rows[..limit] + [Marker(limit, |rows|)];
            Loads(text) == Done(Array(shown), |text|)
  {
    hide ParseElements, JoinComma, Marker, MarkerText, Writes;
    var matched := |rows|;
    var text := RenderRaw(spans, limit, matched);
    var shownTexts := (if |spans| <= limit then spans else spans[..limit])
                      + (if matched > limit then [MarkerText(limit, matched)] else []);
    var shown := if |rows| <= limit then rows else rows[..limit] + [Marker(limit, matched)];
    MarkerWrites(limit, matched);
    assert AllWrite(shownTexts, shown);
    RejoinedLoads(shownTexts, shown);
  }

  lemma RejoinedLoads(texts: seq<string>, rows: seq<Value>)
    requires AllWrite(texts, rows)
    ensures var text := "[" + JoinComma(texts) + "]"; Loads(text) == Done(Array(rows), |text|)
  {
    hide ParseElements, Writes;
    var text := "[" + JoinComma(texts) + "]";
    assert text[1..] == JoinComma(texts) + "]";
    if texts == [] {
      assert text == "[]";
    } else {
      JoinedReparse(text, 1, texts, rows);
    }
  }
}
