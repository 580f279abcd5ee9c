/** Row selects, plain and raw: which rows are kept, and what the output holds. */
module RetrieveSelect {
  import opened Wrappers
  import opened Texts
  import opened Sequences
  import opened Json
  import opened RetrieveRows
  import opened RawRendering

  /** A validated select. `keep` judges the value of a present field: an equality or a range. */
  datatype Filters = Filters(field: Text, keep: Value -> bool, fields: Option<seq<Text>>, limit: nat, raw: bool)

  datatype Content =
    | Rendered(shown: seq<Value>)
    | RawText(text: string)

  datatype Selected = Selected(content: Content, matchedCount: nat, totalCount: nat, fieldAbsent: bool)

  /** A row is kept when its field is present and accepted: an absent field matches nothing. */
  predicate Keeps(row: Value, f: Filters) {
    row.Object? &&
    match Get(DictItems(row.members), f.field)
    case Missing => false
    case Found(v) => f.keep(v)
  }

  predicate HasField(row: Value, field: Text) {
    row.Object? && Get(DictItems(row.members), field).Found?
  }

  /** The kept indices below `n`, ascending. */
  function Kept(rows: seq<Value>, f: Filters, n: nat): (r: seq<nat>)
    requires n <= |rows|
    ensures forall i :: 0 <= i < |r| ==> r[i] < n
  {
    if n == 0 then [] else Kept(rows, f, n - 1) + (if Keeps(rows[n - 1], f) then [n - 1] else [])
  }

  lemma {:induction false} KeptExact(rows: seq<Value>, f: Filters, n: nat)
    requires n <= |rows|
    ensures forall i: nat :: i in Kept(rows, f, n) <==> i < n && Keeps(rows[i], f)
    ensures forall i, j :: 0 <= i < j < |Kept(rows, f, n)| ==> Kept(rows, f, n)[i] < Kept(rows, f, n)[j]
  {
    if n > 0 {
      KeptExact(rows, f, n - 1);
      var front, all := Kept(rows, f, n - 1), Kept(rows, f, n);
      assert all == front + (if Keeps(rows[n - 1], f) then [n - 1] else []);
      forall i, j | 0 <= i < j < |all| ensures all[i] < all[j] {
        assert all[i] == front[i];
        if j < |front| {
          assert all[j] == front[j];
        }
      }
    }
  }

  /** The row reduced to the requested fields it has, in the order requested. */
  function ProjectRow(row: Value, fields: seq<Text>): Value {
    Object(Projected(if row.Object? then DictItems(row.members) else [], fields))
  }

  function Projected(items: seq<Member>, fields: seq<Text>): seq<Member> {
    if fields == [] then [] else
      var front, last := Projected(items, fields[..|fields| - 1]), fields[|fields| - 1];
      match Get(items, last)
      case Missing => front
      case Found(v) => SetItem(front, Member(last, v))
  }

  lemma {:induction false} ProjectedExact(items: seq<Member>, fields: seq<Text>, key: Text)
    ensures DistinctKeys(Projected(items, fields))
    ensures Get(Projected(items, fields), key) == if key in fields then Get(items, key) else Missing
  {
    if fields != [] {
      var front, last := fields[..|fields| - 1], fields[|fields| - 1];
      ProjectedExact(items, front, key);
      assert fields == front + [last];
      assert key in fields <==> key in front || key == last;
      if Get(items, last).Found? {
        SetItemWorks(Projected(items, front), Member(last, Get(items, last).value), key);
      }
    }
  }

  function Keys(items: seq<Member>): seq<Text> {
    seq(|items|, i requires 0 <= i < |items| => items[i].key)
  }

  lemma {:induction false} SetItemKeys(items: seq<Member>, m: Member)
    ensures Keys(SetItem(items, m)) == if m.key in Keys(items) then Keys(items) else Keys(items) + [m.key]
  {
    if items != [] {
      assert Keys(items) == [items[0].key] + Keys(items[1..]);
      if items[0].key != m.key {
        SetItemKeys(items[1..], m);
        assert Keys(SetItem(items, m)) == [items[0].key] + Keys(SetItem(items[1..], m));
      }
    }
  }

  /** And in the order in which the fields were requested. */
  lemma {:induction false} ProjectedInOrder(items: seq<Member>, fields: seq<Text>)
    ensures InFirstOrder(Keys(Projected(items, fields)), fields)
    ensures forall k :: k in Keys(Projected(items, fields)) <==> k in fields && Get(items, k).Found?
  {
    hide InFirstOrder;
    if fields == [] {
      InFirstOrderNone(fields);
    } else {
      var front, last := fields[..|fields| - 1], fields[|fields| - 1];
      ProjectedInOrder(items, front);
      assert fields == front + [last];
      InFirstOrderMore(Keys(Projected(items, front)), front, last);
      if Get(items, last).Found? {
        SetItemKeys(Projected(items, front), Member(last, Get(items, last).value));
      }
    }
  }

  function Shape(row: Value, f: Filters): Value {
    if f.fields.Some? then ProjectRow(row, f.fields.value) else row
  }

  function Picked(rows: seq<Value>, kept: seq<nat>, f: Filters): (r: seq<Value>)
    requires forall i :: 0 <= i < |kept| ==> kept[i] < |rows|
    ensures |r| == |kept| && forall i :: 0 <= i < |kept| ==> r[i] == Shape(rows[kept[i]], f)
  {
    seq(|kept|, i requires 0 <= i < |kept| => Shape(rows[kept[i]], f))
  }

  /** What a kept row is shown as: whole, or only the requested fields it has, as it has them and in
      the order requested. */
  ghost predicate ShownAs(shown: Value, row: Value, fields: Option<seq<Text>>) {
    match fields
    case None => shown == row
    case Some(names) =>
      && row.Object? && shown.Object? && DistinctKeys(shown.members)
      && InFirstOrder(Keys(shown.members), names)
      && forall key :: Get(shown.members, key) == if key in names then LastValue(row.members, key) else Missing
  }

  lemma ShapeIsShown(row: Value, f: Filters)
    requires row.Object?
    ensures ShownAs(Shape(row, f), row, f.fields)
  {
    hide InFirstOrder, DictItems, Projected;
    if f.fields.Some? {
      var items := DictItems(row.members);
      ProjectedInOrder(items, f.fields.value);
      ProjectedExact(items, f.fields.value, []);
      forall key ensures Get(Projected(items, f.fields.value), key) ==
                           if key in f.fields.value then LastValue(row.members, key) else Missing {
        ProjectedExact(items, f.fields.value, key);
        DictKeepsLast(row.members, key);
      }
    }
  }

  /** Exactly the rows whose field is present with an accepted value, in their order. */
  ghost predicate Chosen(kept: seq<nat>, rows: seq<Value>, f: Filters) {
    && (forall i, j :: 0 <= i < j < |kept| ==> kept[i] < kept[j])
    && (forall i: nat :: i in kept <==>
          && i < |rows| && rows[i].Object? && LastValue(rows[i].members, f.field).Found?
          && f.keep(LastValue(rows[i].members, f.field).value))
  }

  lemma KeptIsChosen(rows: seq<Value>, f: Filters)
    ensures Chosen(Kept(rows, f, |rows|), rows, f)
    ensures forall i :: 0 <= i < |rows| ==>
              (HasField(rows[i], f.field) <==> rows[i].Object? && LastValue(rows[i].members, f.field).Found?)
    ensures forall i :: i in Kept(rows, f, |rows|) ==> i < |rows| && ShownAs(Shape(rows[i], f), rows[i], f.fields)
  {
    hide Kept, ShownAs, Shape, DictItems, LastValue;
    KeptExact(rows, f, |rows|);
    forall i | 0 <= i < |rows| && rows[i].Object?
      ensures Get(DictItems(rows[i].members), f.field) == LastValue(rows[i].members, f.field)
      ensures ShownAs(Shape(rows[i], f), rows[i], f.fields)
    {
      DictKeepsLast(rows[i].members, f.field);
      ShapeIsShown(rows[i], f);
    }
  }

  /** Both markers tell how many rows are shown, and of how many. */
  lemma MarkersTell()
    ensures PlainMarker(2, 13) ==
              Object([Member(Codes("_truncated"), Str(Codes("showing " + "2" + " of " + "13" + " matched rows; raise 'limit' or narrow the filter")))])
    ensures Marker(2, 13) ==
              Object([Member(Codes("__ccr_truncated__"),
                             Str(Codes("synthetic marker, not a source row: showing " + "2" + " of " + "13" + " matched rows; raise 'limit' for the rest")))])
  {
    assert Decimal(2) == "2" && Decimal(13) == Decimal(1) + "3" == "13";
  }

  /** The rows a select shows: the first `limit` kept ones, then one marker exactly when there
      were more. */
  function Shown(matched: seq<Value>, limit: nat, marker: Value): seq<Value> {
    if |matched| <= limit then matched else matched[..limit] + [marker]
  }

  /** The trailing row of a capped plain output. */
  function PlainMarker(limit: nat, matched: nat): Value {
    var message := "showing " + Decimal(limit) + " of " + Decimal(matched) + " matched rows; raise 'limit' or narrow the filter";
    Object([Member(Codes("_truncated"), Str(Codes(message)))])
  }

  /** Plain and raw selects keep the same rows of the same extracted rows, in order. The raw text
      decodes to what it shows: the first `limit` kept source rows and, exactly when more
      matched, one marker. A raw select fails where the extractor fails, and otherwise only on a
      text made ambiguous by a repeated name. */
  method SelectRows(text: string, f: Filters)
    returns (r: Result<Selected, FilterError>, ghost kept: seq<nat>, ghost shown: seq<Value>)
    requires f.raw ==> f.fields.None?
    ensures ExtractRows(text).Err? ==> r == Err(ExtractRows(text).error)
    ensures ExtractRows(text).Ok? ==> (r.Ok? <==> !f.raw || !Ambiguous(text))
    ensures r.Ok? ==>
              var rows := ExtractRows(text).value;
              && Chosen(kept, rows, f) && r.value.matchedCount == |kept| && r.value.totalCount == |rows|
              && (r.value.fieldAbsent <==>
                    forall i :: 0 <= i < |rows| ==> !(rows[i].Object? && LastValue(rows[i].members, f.field).Found?))
              && |shown| == (if |kept| <= f.limit then |kept| else f.limit + 1)
              && (forall i :: 0 <= i < |kept| && i < f.limit ==> kept[i] < |rows| && ShownAs(shown[i], rows[kept[i]], f.fields))
              && (|kept| > f.limit ==>
                    shown[f.limit] == if f.raw then Marker(f.limit, |kept|) else PlainMarker(f.limit, |kept|))
              && (match r.value.content
                  case Rendered(rendered) => !f.raw && rendered == shown
                  case RawText(out) => f.raw && Loads(out) == Done(Array(shown), |out|))
  {
    hide Kept, Chosen, ShownAs, Shape, HasField, Marker, PlainMarker;
    kept, shown := [], [];
    var paired: seq<(Value, string)> := [];
    var extracted := ExtractRows(text);
    if extracted.Err? {
      return Err(extracted.error), kept, shown;
    }
    var rows := extracted.value;
    if f.raw {
      var spans;
      ghost var places;
      spans, places := RowSpans(text);
      if spans.Err? {
        return Err(spans.error), kept, shown;
      }
      paired := spans.value;
    } else {
      paired := seq(|rows|, i requires 0 <= i < |rows| => (rows[i], ""));
    }
    var matched, matchedSpans, seenField := MatchRows(paired, rows, f);
    var count := |matched|;
    kept := Kept(rows, f, |rows|);
    shown := Shown(matched, f.limit, if f.raw then Marker(f.limit, count) else PlainMarker(f.limit, count));
    KeptIsChosen(rows, f);
    if f.raw {
      RawReparses(matchedSpans, matched, f.limit);
      r := Ok(Selected(RawText(RenderRaw(matchedSpans, f.limit, count)), count, |rows|, count == 0 && !seenField));
    } else {
      r := Ok(Selected(Rendered(Shown(matched, f.limit, PlainMarker(f.limit, count))), count, |rows|, count == 0 && !seenField));
    }
  }

  /** The selection loop. */
  method MatchRows(paired: seq<(Value, string)>, ghost rows: seq<Value>, f: Filters)
    returns (matched: seq<Value>, spans: seq<string>, seenField: bool)
    requires |paired| == |rows| && forall i :: 0 <= i < |rows| ==> paired[i].0 == rows[i]
    requires f.raw ==> f.fields.None? && forall i :: 0 <= i < |rows| ==> Writes(paired[i].1, rows[i])
    ensures matched == Picked(rows, Kept(rows, f, |rows|), f)
    ensures f.raw ==> AllWrite(spans, matched)
    ensures seenField <==> exists i :: 0 <= i < |rows| && HasField(rows[i], f.field)
    ensures !seenField ==> matched == []
  {
    hide Writes, Keeps, HasField, Shape, Kept, Picked, AllWrite;
    NothingMatched(rows, f);
    matched, spans, seenField := [], [], false;
    for i := 0 to |paired|
      invariant matched == Picked(rows, Kept(rows, f, i), f)
      invariant f.raw ==> AllWrite(spans, matched)
      invariant seenField <==> exists k :: 0 <= k < i && HasField(rows[k], f.field)
      invariant !seenField ==> matched == []
    {
      var row := paired[i].0;
      KeepsNeedsField(row, f);
      OneMoreRow(rows, f, i, matched, spans, paired[i].1);
      if Keeps(row, f) {
        matched := matched + [Shape(row, f)];
        spans := spans + [paired[i].1];
      }
      seenField := seenField || HasField(row, f.field);
    }
  }

  lemma NothingMatched(rows: seq<Value>, f: Filters)
    ensures [] == Picked(rows, Kept(rows, f, 0), f) && AllWrite([], [])
  {
  }

  lemma OneMoreRow(rows: seq<Value>, f: Filters, i: nat, matched: seq<Value>, spans: seq<string>, span: string)
    requires i < |rows| && matched == Picked(rows, Kept(rows, f, i), f)
    ensures Picked(rows, Kept(rows, f, i + 1), f) == if Keeps(rows[i], f) then matched + [Shape(rows[i], f)] else matched
    ensures f.raw && f.fields.None? && AllWrite(spans, matched) && Writes(span, rows[i]) ==>
              AllWrite(spans + [span], matched + [Shape(rows[i], f)])
  {
    hide Keeps, Writes;
  }

  lemma KeepsNeedsField(row: Value, f: Filters)
    ensures Keeps(row, f) ==> HasField(row, f.field)
  {
  }
}
