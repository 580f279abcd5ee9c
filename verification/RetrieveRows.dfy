/** Row selection over a stored JSON original: the rows the decoder extracts, each paired with its
    source span, and the plain and raw outputs of a select. */
module RetrieveRows {
  import opened Wrappers
  import opened Json
  import opened JsonLocality
  import opened RetrieveSpans

  datatype FilterError =
    | NotJson
    | NotObjectArray
    | DominantCount(found: nat)
    | NotArrayOrObject
    | SpansUnmapped

  // ---------- The independent extractor ----------

  function DominantItems(items: seq<Member>): (r: seq<Value>)
    ensures forall v :: v in r ==> Dominant(v) && exists i :: 0 <= i < |items| && items[i].value == v
  {
    if items == [] then [] else (if Dominant(items[0].value) then [items[0].value] else []) + DominantItems(items[1..])
  }

  /** The rows of a text: a non-empty top-level array of objects, or the one dominant value of a
      top-level object read as a dictionary. */
  function ExtractRows(text: string): Result<seq<Value>, FilterError> {
    var parsed := Loads(text);
    if parsed.Fail? then Err(NotJson)
    else match parsed.value
      case Array(items) => if Dominant(parsed.value) then Ok(items) else Err(NotObjectArray)
      case Object(ms) =>
        var found := DominantItems(DictItems(ms));
        if |found| == 1 then assert found[0] in found; Ok(found[0].items) else Err(DominantCount(|found|))
      case _ => Err(NotArrayOrObject)
  }

  /** The name was last given a non-empty array of nothing but objects. */
  predicate RowsUnder(ms: seq<Member>, name: Text) {
    match LastValue(ms, name)
    case Found(Array(items)) => items != [] && forall v | v in items :: v.Object?
    case _ => false
  }

  ghost function RowNames(ms: seq<Member>): set<Text> {
    set m | m in ms && RowsUnder(ms, m.key) :: m.key
  }

  /** What is extracted from which text, and why nothing is from the others. */
  lemma ExtractsRowsExactly(text: string)
    ensures match Loads(text)
            case Fail => ExtractRows(text) == Err(NotJson)
            case Done(Array(items), _) =>
              ExtractRows(text) ==
                if items != [] && (forall v :: v in items ==> v.Object?) then Ok(items) else Err(NotObjectArray)
            case Done(Object(ms), _) =>
              && (|RowNames(ms)| != 1 ==> ExtractRows(text) == Err(DominantCount(|RowNames(ms)|)))
              && (|RowNames(ms)| == 1 ==>
                    ExtractRows(text).Ok?
                    && forall name :: name in RowNames(ms) ==> LastValue(ms, name) == Found(Array(ExtractRows(text).value)))
            case _ => ExtractRows(text) == Err(NotArrayOrObject)
  {
    hide Loads, DictItems, DominantItems, RowNames, LastValue;
    if Loads(text).Done? && Loads(text).value.Object? {
      var ms := Loads(text).value.members;
      var items := DictItems(ms);
      var found := DominantItems(items);
      DictKeepsLast(ms, []);
      NamesOfDict(ms);
      DominantCounts(items);
      if |found| == 1 {
        assert found[0] in found;
        forall name | name in RowNames(ms) ensures LastValue(ms, name) == Found(found[0]) {
          DominantUnder(ms, name);
        }
      }
    }
  }

  ghost function DominantNames(items: seq<Member>): set<Text> {
    set m | m in items && Dominant(m.value) :: m.key
  }

  lemma {:induction false} GetMember(items: seq<Member>, m: Member)
    requires DistinctKeys(items)
    ensures m in items <==> Get(items, m.key) == Found(m.value)
  {
    if items != [] {
      assert items == [items[0]] + items[1..];
      GetMember(items[1..], m);
      if items[0].key == m.key {
        assert m !in items[1..];
      }
    }
  }

  lemma NamesOfDict(ms: seq<Member>)
    ensures DominantNames(DictItems(ms)) == RowNames(ms)
  {
    hide DictItems, LastValue;
    var items := DictItems(ms);
    forall name ensures name in DominantNames(items) <==> name in RowNames(ms) {
      DictKeepsLast(ms, name);
      if name in DominantNames(items) {
        var m :| m in items && Dominant(m.value) && m.key == name;
        GetMember(items, m);
        assert m in ms;
      }
      if name in RowNames(ms) {
        GetMember(items, Member(name, LastValue(ms, name).value));
      }
    }
  }

  /** One dominant value for each dominant name. */
  lemma {:induction false} DominantCounts(items: seq<Member>)
    requires DistinctKeys(items)
    ensures |DominantItems(items)| == |DominantNames(items)|
  {
    hide Dominant;
    if items == [] {
      assert DominantNames(items) == {};
    } else {
      DominantCounts(items[1..]);
      NamesNext(items);
    }
  }

  lemma NamesNext(items: seq<Member>)
    requires items != [] && DistinctKeys(items)
    ensures items[0].key !in DominantNames(items[1..])
    ensures DominantNames(items) == DominantNames(items[1..]) + if Dominant(items[0].value) then {items[0].key} else {}
  {
    hide Dominant;
    assert items == [items[0]] + items[1..];
  }

  lemma {:induction false} DominantListed(items: seq<Member>, m: Member)
    requires m in items && Dominant(m.value)
    ensures m.value in DominantItems(items)
  {
    if items[0] != m {
      assert items == [items[0]] + items[1..];
      DominantListed(items[1..], m);
    }
  }

  lemma DominantUnder(ms: seq<Member>, name: Text)
    requires name in RowNames(ms)
    ensures LastValue(ms, name).Found? && LastValue(ms, name).value in DominantItems(DictItems(ms))
  {
    hide DictItems, DominantItems, LastValue;
    var m := Member(name, LastValue(ms, name).value);
    DictKeepsLast(ms, name);
    GetMember(DictItems(ms), m);
    DominantListed(DictItems(ms), m);
  }

  lemma {:induction false} DominantMemberListed(ms: seq<Member>, i: nat)
    requires i < |ms| && Dominant(ms[i].value)
    ensures ms[i].value in Dominants(ms)
  {
    if i < |ms| - 1 {
      DominantMemberListed(ms[..|ms| - 1], i);
    }
  }

  /** What the dictionary shows as dominant was written as dominant somewhere. */
  lemma DominantItemsWereWritten(ms: seq<Member>, v: Value)
    requires v in DominantItems(DictItems(ms))
    ensures v in Dominants(ms)
  {
    var items := DictItems(ms);
    var i :| 0 <= i < |items| && items[i].value == v;
    assert items[i] in items;
    var j :| 0 <= j < |ms| && ms[j] == items[i];
    DominantMemberListed(ms, j);
  }

  /** A text whose members, counting repeats, do not have exactly one dominant value. */
  ghost predicate Ambiguous(text: string) {
    Loads(text).Done? && Loads(text).value.Object? && |Dominants(Loads(text).value.members)| != 1
  }

  lemma {:induction false} DominantItemsAppend(a: seq<Member>, m: Member)
    ensures DominantItems(a + [m]) == DominantItems(a) + (if Dominant(m.value) then [m.value] else [])
  {
    if a != [] {
      assert (a + [m])[1..] == a[1..] + [m];
      DominantItemsAppend(a[1..], m);
    } else {
      assert [m][1..] == [];
    }
  }

  lemma {:induction false} DominantsAreItems(ms: seq<Member>)
    ensures DominantItems(ms) == Dominants(ms)
  {
    if ms != [] {
      var front, last := ms[..|ms| - 1], ms[|ms| - 1];
      DominantsAreItems(front);
      DominantItemsAppend(front, last);
      assert front + [last] == ms;
    }
  }

  /** Only a repeated name can make an extractable text ambiguous. */
  lemma AmbiguityNeedsRepeats(text: string)
    requires ExtractRows(text).Ok? && Ambiguous(text)
    ensures !DistinctKeys(Loads(text).value.members)
  {
    var ms := Loads(text).value.members;
    if DistinctKeys(ms) {
      DistinctMembersAreTheDict(ms);
      DominantsAreItems(ms);
    }
  }

  /** Such a text exists: the dictionary shows one dominant array, the text writes two. */
  const REPEATED := "{\"a\":[{}],\"a\":[{}]}"

  /** An array of one empty object at `i`, which is followed by `]` at `i + 3`. */
  lemma SmallArrayParses(s: string, i: nat)
    requires i + 4 <= |s| && s[i] == '[' && s[i + 1] == '{' && s[i + 2] == '}' && s[i + 3] == ']'
    ensures ParseValue(s, i) == Done(Array([Object([])]), i + 4)
  {
    hide ParseElements, ParseMembers, ParseToken, ScanString;
    ElementsEquation(s, i + 1);
    assert ParseValue(s, i + 1) == Done(Object([]), i + 3);
  }

  /** A member named `a` at `i` holding that array. */
  lemma SmallMemberParses(s: string, i: nat)
    requires i + 8 <= |s| && s[i] == '\"' && s[i + 1] == 'a' && s[i + 2] == '\"' && s[i + 3] == ':'
    requires s[i + 4] == '[' && s[i + 5] == '{' && s[i + 6] == '}' && s[i + 7] == ']'
    ensures ParseMember(s, i) == Done(Member(['a' as int], Array([Object([])])), i + 8)
  {
    hide ParseValue;
    SmallArrayParses(s, i + 4);
    assert ScanString(s, i + 2) == Done([], i + 3);
    assert ['a' as int] + [] == ['a' as int];
  }

  const TWICE := Member(['a' as int], Array([Object([])]))

  lemma RepeatedLoads(s: string)
    requires |s| == 19 && s[0] == '{' && s[9] == ',' && s[18] == '}'
    requires ParseMember(s, 1) == Done(TWICE, 9) && ParseMember(s, 10) == Done(TWICE, 18)
    requires s[1] == s[10] == '\"'
    ensures Loads(s) == Done(Object([TWICE, TWICE]), 19)
  {
    hide ParseMember, ParseMembers, ParseElements, ParseToken, ScanString;
    MembersEquation(s, 10);
    MembersEquation(s, 1);
    assert [TWICE] + [TWICE] == [TWICE, TWICE];
  }

  lemma RepeatedCounts()
    ensures DictItems([TWICE, TWICE]) == [TWICE]
    ensures DominantItems([TWICE]) == [TWICE.value] && Dominants([TWICE, TWICE]) == [TWICE.value, TWICE.value]
  {
    assert [TWICE, TWICE][..1] == [TWICE] && [TWICE][..0] == [];
    assert DictItems([TWICE]) == [TWICE];
    assert Dominants([TWICE]) == [TWICE.value];
  }

  lemma RepeatedNameIsAmbiguous()
    ensures ExtractRows(REPEATED) == Ok([Object([])]) && Ambiguous(REPEATED)
  {
    hide Loads, DictItems, DominantItems, Dominants;
    RepeatedParses();
    RepeatedCounts();
  }

  lemma RepeatedParses()
    ensures Loads(REPEATED) == Done(Object([TWICE, TWICE]), 19)
  {
    hide ParseValue, ParseMember, ParseMembers, ParseElements, ParseToken, ScanString, Loads, SkipWs;
    var s := REPEATED;
    assert |s| == 19 && s[0] == '{' && s[1] == '\"' && s[9] == ',' && s[10] == '\"' && s[18] == '}';
    SmallMemberParses(s, 1);
    SmallMemberParses(s, 10);
    RepeatedLoads(s);
  }

  // ---------- Rows with their spans ----------

  /** `span` is, byte for byte, how some source writes `row`: it starts and ends with the braces
      of the object, and decodes to it. */
  ghost predicate Writes(span: string, row: Value) {
    && row.Object? && 2 <= |span| && span[0] == '{' && span[|span| - 1] == '}'
    && ParseValue(span, 0) == Done(row, |span|)
  }

  lemma {:induction false} MembersEnd(s: string, i: nat)
    requires ParseMembers(s, i).Done?
    ensures s[ParseMembers(s, i).end - 1] == '}'
    decreases |s| - i
  {
    hide ParseMembers, ParseMember, SkipWs;
    MembersEquation(s, i);
    var next := SkipWs(s, ParseMember(s, i).end);
    if At(s, next, ',') {
      MembersEnd(s, SkipWs(s, next + 1));
    }
  }

  lemma ObjectEnds(s: string, i: nat)
    requires ParseValue(s, i).Done? && ParseValue(s, i).value.Object?
    ensures s[i] == '{' && s[ParseValue(s, i).end - 1] == '}' && i + 2 <= ParseValue(s, i).end
  {
    hide ParseValue, ParseMembers;
    ValueStart(s, i);
    ObjectStarts(s, i);
    var first := SkipWs(s, i + 1);
    if !At(s, first, '}') {
      MembersEnd(s, first);
    }
  }

  lemma SliceWrites(source: string, span: Span)
    requires Exact(source, span) && span.value.Object?
    ensures span.start < span.end <= |source| && Writes(source[span.start..span.end], span.value)
  {
    hide ParseValue;
    var t := source[span.start..span.end];
    var d: int := 0 - (span.start as int);
    ObjectEnds(source, span.start);
    assert Same(source, t, d, span.start, span.end);
    ParseValueShift(source, t, d, span.start, span.end, span.start);
  }

  /** The extracted rows paired with their source text. Fails just as the extractor does, and
      otherwise only on a text made ambiguous by a repeated name. */
  method RowSpans(text: string) returns (r: Result<seq<(Value, string)>, FilterError>, ghost spans: seq<Span>)
    ensures ExtractRows(text).Err? ==> r == Err(ExtractRows(text).error)
    ensures ExtractRows(text).Ok? ==> (r.Ok? <==> !Ambiguous(text))
    ensures r.Ok? ==>
              var rows := ExtractRows(text).value;
              && |r.value| == |rows| == |spans| && AllExact(text, spans)
              && forall i :: 0 <= i < |rows| ==>
                   && r.value[i].0 == rows[i]
                   && spans[i].start < spans[i].end <= |text|
                   && r.value[i].1 == text[spans[i].start..spans[i].end]
                   && Writes(r.value[i].1, rows[i])
  {
    hide ParseValue, Loads, Dominants, DictItems, DominantItems;
    spans := [];
    var rows := ExtractRows(text);
    if rows.Err? {
      return Err(rows.error), spans;
    }
    var found := ArrayElementSpans(text);
    ExtractedAgree(text);
    if found.None? || |found.value| != |rows.value| {
      return Err(SpansUnmapped), spans;
    }
    spans := found.value;
    var pairs: seq<(Value, string)> := [];
    for i := 0 to |found.value|
      invariant |pairs| == i
      invariant forall k :: 0 <= k < i ==>
                  && pairs[k].0 == rows.value[k]
                  && spans[k].start < spans[k].end <= |text|
                  && pairs[k].1 == text[spans[k].start..spans[k].end]
                  && Writes(pairs[k].1, rows.value[k])
    {
      assert ValuesOf(found.value)[i] == rows.value[i];
      SliceWrites(text, found.value[i]);
      pairs := pairs + [(rows.value[i], text[found.value[i].start..found.value[i].end])];
    }
    return Ok(pairs), spans;
  }

  /** The scanner's one dominant occurrence is the extractor's one dominant value. */
  lemma ExtractedAgree(text: string)
    requires ExtractRows(text).Ok?
    ensures Loads(text).Done?
    ensures forall i :: 0 <= i < |ExtractRows(text).value| ==> ExtractRows(text).value[i].Object?
    ensures var v, rows := Loads(text).value, ExtractRows(text).value;
            || (v.Array? && v.items == rows)
            || (v.Object? && (|Dominants(v.members)| == 1 ==> Dominants(v.members)[0].items == rows))
  {
    hide Loads, DictItems, DominantItems, Dominants;
    var v := Loads(text).value;
    if v.Object? {
      var found := DominantItems(DictItems(v.members));
      assert found[0] in found;
      DominantItemsWereWritten(v.members, found[0]);
    }
  }
}
