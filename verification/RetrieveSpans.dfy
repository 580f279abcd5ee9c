/** Byte-exact source spans for the rows of a stored JSON array: a scanner that walks the text
    itself, proved against what the decoder makes of the same text. */
module RetrieveSpans {
  import opened Wrappers
  import opened Json

  /** One element: its value, and where in the source it is written. */
  datatype Span = Span(value: Value, start: nat, end: nat)

  ghost predicate Exact(source: string, span: Span) {
    ParseValue(source, span.start) == Done(span.value, span.end)
  }

  /** Each span is one value of the source, and they stand in source order. */
  ghost predicate AllExact(source: string, spans: seq<Span>) {
    && (forall i :: 0 <= i < |spans| ==> Exact(source, spans[i]))
    && (forall i, j :: 0 <= i < j < |spans| ==> spans[i].end <= spans[j].start)
  }

  function ValuesOf(spans: seq<Span>): (vs: seq<Value>)
    ensures |vs| == |spans| && forall i :: 0 <= i < |spans| ==> vs[i] == spans[i].value
  {
    seq(|spans|, i requires 0 <= i < |spans| => spans[i].value)
  }

  /** A non-empty array of objects. */
  predicate Dominant(v: Value) {
    v.Array? && v.items != [] && forall i :: 0 <= i < |v.items| ==> v.items[i].Object?
  }

  /** The dominant values among the members as written, duplicates included. */
  function Dominants(ms: seq<Member>): (vs: seq<Value>)
    ensures forall i :: 0 <= i < |vs| ==> Dominant(vs[i])
  {
    if ms == [] then [] else
      var last := ms[|ms| - 1].value;
      Dominants(ms[..|ms| - 1]) + (if Dominant(last) then [last] else [])
  }

  lemma DominantsStep(processed: seq<Member>, m: Member)
    ensures Dominants(processed + [m]) == Dominants(processed) + (if Dominant(m.value) then [m.value] else [])
  {
    assert (processed + [m])[..|processed|] == processed;
  }

  // ---------- What the decoder reads, one step at a time ----------

  lemma ArrayStarts(s: string, start: nat)
    requires At(s, start, '[') && ParseValue(s, start).Done?
    ensures var v, first := ParseValue(s, start).value, SkipWs(s, start + 1);
            v.Array? && (if At(s, first, ']') then v.items == []
                         else ParseElements(s, first).Done? && ParseElements(s, first).value == v.items)
  {
  }

  lemma ElementsContinue(s: string, i: nat)
    requires ParseElements(s, i).Done?
    ensures ParseValue(s, i).Done?
    ensures var v, next := ParseValue(s, i), SkipWs(s, ParseValue(s, i).end);
            var after := ParseElements(s, SkipWs(s, next + 1));
            if At(s, next, ',') then after.Done? && ParseElements(s, i).value == [v.value] + after.value
            else ParseElements(s, i).value == [v.value]
  {
  }

  lemma ObjectStarts(s: string, start: nat)
    requires At(s, start, '{') && ParseValue(s, start).Done?
    ensures var v, first := ParseValue(s, start).value, SkipWs(s, start + 1);
            v.Object? && (if At(s, first, '}') then v.members == [] && ParseValue(s, start).end == first + 1
                          else ParseMembers(s, first) == Done(v.members, ParseValue(s, start).end))
  {
  }

  lemma MembersStart(s: string, i: nat)
    ensures ParseMembers(s, i).Done? ==> At(s, i, '\"')
  {
    assert ParseMembers(s, i).Done? ==> ParseMember(s, i).Done?;
  }

  lemma MembersContinue(s: string, i: nat)
    requires ParseMembers(s, i).Done?
    ensures ParseMember(s, i).Done?
    ensures var m, next := ParseMember(s, i), SkipWs(s, ParseMember(s, i).end);
            var after := ParseMembers(s, SkipWs(s, next + 1));
            if At(s, next, ',') then after.Done? && ParseMembers(s, i).value == [m.value] + after.value
            else ParseMembers(s, i).value == [m.value] && At(s, next, '}')
  {
  }

  lemma MemberReads(s: string, i: nat)
    requires ParseMember(s, i).Done?
    ensures ParseValue(s, i).Done?
    ensures var v := ParseValue(s, SkipWs(s, SkipWs(s, ParseValue(s, i).end) + 1));
            v.Done? && ParseMember(s, i).value.value == v.value && ParseMember(s, i).end == v.end
  {
  }

  method SkipWhitespace(source: string, index: nat) returns (j: nat)
    ensures j == SkipWs(source, index)
  {
    j := index;
    while j < |source| && IsWs(source[j])
      invariant SkipWs(source, index) == SkipWs(source, j)
    {
      j := j + 1;
    }
  }

  /** The elements of the array whose `[` is at `start`. `None` where the decoder raises. */
  method ArraySpans(source: string, start: nat) returns (r: Option<seq<Span>>)
    requires At(source, start, '[')
    ensures r.Some? ==> AllExact(source, r.value)
    ensures ParseValue(source, start).Done? ==>
              r.Some? && ValuesOf(r.value) == ParseValue(source, start).value.items
  {
    hide ParseValue, ParseElements, SkipWs;
    ghost var whole := ParseValue(source, start);
    if whole.Done? {
      ArrayStarts(source, start);
    }
    var spans := [];
    var index := SkipWhitespace(source, start + 1);
    if index < |source| && source[index] == ']' {
      return Some(spans);
    }
    while true
      invariant AllExact(source, spans) && forall i :: 0 <= i < |spans| ==> spans[i].end <= index
      invariant whole.Done? ==> ParseElements(source, index).Done?
                                && ValuesOf(spans) + ParseElements(source, index).value == whole.value.items
      decreases |source| - index
    {
      if whole.Done? {
        ElementsContinue(source, index);
      }
      var v := ParseValue(source, index);
      if v.Fail? {
        return None;
      }
      ghost var before := ValuesOf(spans);
      spans := spans + [Span(v.value, index, v.end)];
      assert ValuesOf(spans) == before + [v.value];
      index := SkipWhitespace(source, v.end);
      if index >= |source| || source[index] != ',' {
        break;
      }
      index := SkipWhitespace(source, index + 1);
    }
    return Some(spans);
  }

  ghost predicate StartsOf(source: string, starts: seq<nat>, values: seq<Value>) {
    && |starts| == |values|
    && forall i :: 0 <= i < |starts| ==> ParseValue(source, starts[i]).Done? && ParseValue(source, starts[i]).value == values[i]
  }

  /** Past the key at `index` and the one character after it, to the value and through it. `Fail`
      where the decoder raises. */
  method ReadMember(source: string, index: nat) returns (valueStart: nat, v: Parse<Value>)
    ensures v.Done? ==> index < valueStart < v.end <= |source| && v == ParseValue(source, valueStart)
    ensures ParseMember(source, index).Done? ==>
              v.Done? && v.value == ParseMember(source, index).value.value && v.end == ParseMember(source, index).end
  {
    hide ParseValue, ParseMember, SkipWs;
    if ParseMember(source, index).Done? {
      MemberReads(source, index);
    }
    var key := ParseValue(source, index);
    if key.Fail? {
      return index, Fail;
    }
    valueStart := SkipWhitespace(source, key.end);
    valueStart := SkipWhitespace(source, valueStart + 1);
    v := ParseValue(source, valueStart);
  }

  /** Where the dominant values of the object whose `{` is at `start` begin. */
  method DominantValueStarts(source: string, start: nat) returns (r: Option<seq<nat>>)
    requires At(source, start, '{')
    ensures r.Some? ==> forall i :: 0 <= i < |r.value| ==> At(source, r.value[i], '[')
    ensures ParseValue(source, start).Done? ==>
              r.Some? && StartsOf(source, r.value, Dominants(ParseValue(source, start).value.members))
  {
    hide ParseValue, ParseMembers, ParseMember, SkipWs, Dominant, Dominants;
    ghost var whole := ParseValue(source, start);
    ghost var processed, rest := [], [];
    if whole.Done? {
      ObjectStarts(source, start);
      rest := whole.value.members;
    }
    NoDominants();
    var starts: seq<nat> := [];
    var index := SkipWhitespace(source, start + 1);
    while index < |source| && source[index] != '}'
      invariant StartsOf(source, starts, Dominants(processed))
      invariant forall i :: 0 <= i < |starts| ==> At(source, starts[i], '[')
      invariant whole.Done? ==> processed + rest == whole.value.members
      invariant whole.Done? && rest != [] ==> ParseMembers(source, index).Done? && ParseMembers(source, index).value == rest
      invariant whole.Done? && rest == [] ==> At(source, index, '}')
      decreases |source| - index
    {
      ghost var m := Member([], Null);
      if whole.Done? {
        MembersContinue(source, index);
        m := ParseMember(source, index).value;
      }
      var valueStart, v := ReadMember(source, index);
      if v.Fail? {
        return None;
      }
      m := if whole.Done? then m else Member([], v.value);
      DominantsStep(processed, m);
      if Dominant(v.value) {
        DominantStart(source, valueStart, v.value);
        starts := starts + [valueStart];
      }
      processed := processed + [m];
      rest := if whole.Done? then rest[1..] else rest;
      index := SkipWhitespace(source, v.end);
      if index >= |source| || source[index] != ',' {
        break;
      }
      index := SkipWhitespace(source, index + 1);
    }
    MembersStart(source, index);
    if whole.Done? {
      assert rest == [];
      assert processed + [] == processed;
    }
    return Some(starts);
  }

  /** The elements of the one member, among those of the object whose `{` is at `start`, that is
      a non-empty array of objects. `None` when no member or several are, counting every
      occurrence of a repeated name, and where the decoder raises. */
  method DominantArraySpans(source: string, start: nat) returns (r: Option<seq<Span>>)
    requires At(source, start, '{')
    ensures r.Some? ==> AllExact(source, r.value)
    ensures ParseValue(source, start).Done? ==>
              var dominants := Dominants(ParseValue(source, start).value.members);
              (r.Some? <==> |dominants| == 1) && (r.Some? ==> ValuesOf(r.value) == dominants[0].items)
  {
    hide ParseValue, Dominants;
    if ParseValue(source, start).Done? {
      ObjectStarts(source, start);
    }
    var starts := DominantValueStarts(source, start);
    if starts.None? || |starts.value| != 1 {
      return None;
    }
    r := ArraySpans(source, starts.value[0]);
  }

  lemma NoDominants()
    ensures Dominants([]) == []
  {
  }

  /** A dominant value is an array, so it is written with a bracket. */
  lemma DominantStart(s: string, i: nat, v: Value)
    requires ParseValue(s, i).Done? && ParseValue(s, i).value == v && Dominant(v)
    ensures At(s, i, '[') && v.Array?
  {
  }

  lemma LoadsFrom(source: string)
    ensures Loads(source).Done? ==>
              var index := SkipWs(source, 0);
              && index < |source| && ParseValue(source, index).Done? && Loads(source).value == ParseValue(source, index).value
              && (source[index] == '[' <==> Loads(source).value.Array?)
              && (source[index] == '{' <==> Loads(source).value.Object?)
  {
    hide ParseValue, SkipWs;
    if Loads(source).Done? {
      ValueStart(source, SkipWs(source, 0));
    }
  }

  /** The first character of a value tells an array and an object from the rest. */
  lemma ValueStart(s: string, i: nat)
    requires ParseValue(s, i).Done?
    ensures i < |s|
    ensures (s[i] == '[' <==> ParseValue(s, i).value.Array?) && (s[i] == '{' <==> ParseValue(s, i).value.Object?)
  {
    hide ParseMembers, ParseElements, ScanString, SkipWs, ParseToken;
    TokenIsPlain(s, i);
  }

  lemma TokenIsPlain(s: string, i: nat)
    ensures ParseToken(s, i).Done? ==> !ParseToken(s, i).value.Array? && !ParseToken(s, i).value.Object?
  {
  }

  /** The rows of a text that is an array, or an object with one dominant member. */
  method ArrayElementSpans(source: string) returns (r: Option<seq<Span>>)
    ensures r.Some? ==> AllExact(source, r.value)
    ensures Loads(source).Done? ==>
              match Loads(source).value
              case Array(items) => r.Some? && ValuesOf(r.value) == items
              case Object(ms) => (r.Some? <==> |Dominants(ms)| == 1) && (r.Some? ==> ValuesOf(r.value) == Dominants(ms)[0].items)
              case _ => r.None?
  {
    hide Loads, ParseValue, Dominants, SkipWs, AllExact, ValuesOf;
    var index := SkipWhitespace(source, 0);
    LoadsFrom(source);
    if index >= |source| {
      return None;
    }
    if source[index] == '[' {
      r := ArraySpans(source, index);
    } else if source[index] == '{' {
      r := DominantArraySpans(source, index);
    } else {
      r := None;
    }
  }
}
