/** Resolving the double-angle markers of a text: on a text that is plain stretches with
    well-formed markers between them, exactly the markers are replaced. */
module MarkerResolution {
  import opened Wrappers
  import opened MarkerGrammar

  /** A marker as producers write it: `<<ccr:HASH>>`, or with a tail after a delimiter. */
  datatype Marker = Marker(hash: string, tail: string)

  /** A stretch of text free of the marker prefix. */
  predicate Free(t: string) {
    forall i :: 0 <= i <= |t| ==> !(PREFIX <= t[i..])
  }

  predicate WellFormed(m: Marker) {
    && (|m.hash| == 24 || |m.hash| == 12) && HexRun(m.hash, |m.hash|)
    && |m.tail| <= TAIL_LIMIT && '>' !in m.tail && Free(m.tail)
    && (m.tail != "" ==> m.tail[0] == ' ' || m.tail[0] == ',' || m.tail[0] == '#')
  }

  function Written(m: Marker): string {
    "<<ccr:" + m.hash + m.tail + ">>"
  }

  /** A marker and the stretch that follows it. */
  datatype Piece = Piece(marker: Marker, text: string)

  predicate Laid(first: string, rest: seq<Piece>) {
    Free(first) && forall i :: 0 <= i < |rest| ==> WellFormed(rest[i].marker) && Free(rest[i].text)
  }

  function Text(first: string, rest: seq<Piece>): string
    decreases |rest|
  {
    if rest == [] then first else first + (Written(rest[0].marker) + Text(rest[0].text, rest[1..]))
  }

  /** What resolution should make of it. */
  function Expanded(first: string, rest: seq<Piece>, lookup: string -> Option<string>): string
    decreases |rest|
  {
    if rest == [] then first
    else first + (match lookup(rest[0].marker.hash) case Some(original) => original case None => Written(rest[0].marker))
         + Expanded(rest[0].text, rest[1..], lookup)
  }

  /** The stretches with one string each in the places of the markers. */
  function Interleaved(first: string, rest: seq<Piece>, fills: seq<string>): string
    requires |fills| == |rest|
    decreases |rest|
  {
    if rest == [] then first else first + fills[0] + Interleaved(rest[0].text, rest[1..], fills[1..])
  }

  lemma {:induction false} ExpandedFills(first: string, rest: seq<Piece>, lookup: string -> Option<string>, fills: seq<string>)
    requires |fills| == |rest|
    requires forall i :: 0 <= i < |rest| ==>
               fills[i] == match lookup(rest[i].marker.hash) case Some(o) => o case None => Written(rest[i].marker)
    ensures Expanded(first, rest, lookup) == Interleaved(first, rest, fills)
    decreases |rest|
  {
    hide Written;
    if rest != [] {
      ExpandedFills(rest[0].text, rest[1..], lookup, fills[1..]);
    }
  }

  lemma {:induction false} WrittenFills(first: string, rest: seq<Piece>, fills: seq<string>)
    requires |fills| == |rest| && forall i :: 0 <= i < |rest| ==> fills[i] == Written(rest[i].marker)
    ensures Interleaved(first, rest, fills) == Text(first, rest)
    decreases |rest|
  {
    hide Written;
    if rest != [] {
      WrittenFills(rest[0].text, rest[1..], fills[1..]);
      assert Interleaved(first, rest, fills) == first + Written(rest[0].marker) + Interleaved(rest[0].text, rest[1..], fills[1..]);
    }
  }

  /** The hashes of the markers, in order. */
  function Hashes(rest: seq<Piece>): seq<string> {
    seq(|rest|, i requires 0 <= i < |rest| => rest[i].marker.hash)
  }

  // ---------- Where the prefix can and cannot start ----------

  predicate Clear(s: string, n: nat)
    requires n <= |s|
  {
    forall i :: 0 <= i < n ==> !(PREFIX <= s[i..])
  }

  /** One differing character rules the prefix out. */
  lemma NotHere(s: string, i: nat, k: nat)
    requires i <= |s| && k < |PREFIX| && (i + k < |s| ==> s[i + k] != PREFIX[k])
    ensures !(PREFIX <= s[i..])
  {
    assert i + k < |s| ==> s[i..][k] == s[i + k];
  }

  lemma WithinFirst(t: string, next: string, i: nat)
    requires i + |PREFIX| <= |t| && !(PREFIX <= t[i..])
    ensures !(PREFIX <= (t + next)[i..])
  {
    assert (t + next)[i..] == t[i..] + next;
    assert (t[i..] + next)[..|PREFIX|] == t[i..][..|PREFIX|];
  }

  /** The prefix has no border, so it cannot start in a free stretch and end in the next marker. */
  lemma FreeThenMarker(t: string, next: string)
    requires Free(t) && (next == "" || PREFIX <= next)
    ensures Clear(t + next, |t|)
  {
    var s := t + next;
    forall i | 0 <= i < |t| ensures !(PREFIX <= s[i..]) {
      var taken := |t| - i;
      if |PREFIX| <= taken {
        WithinFirst(t, next, i);
      } else if next == "" {
        NotHere(s, i, taken);
      } else {
        var j := if taken == 1 then 1 else 0;
        assert s[|t| + j] == next[j] == PREFIX[j] != PREFIX[taken + j];
        NotHere(s, i, taken + j);
      }
    }
  }

  /** Nor can it start inside what the extraction pattern leaves of a marker. */
  lemma TailIsClear(tail: string, next: string)
    requires '>' !in tail && Free(tail)
    ensures Clear(tail + ">>" + next, |tail| + 2)
  {
    var s := tail + ">>" + next;
    assert s == tail + (">>" + next);
    forall i | 0 <= i < |tail| + 2 ensures !(PREFIX <= s[i..]) {
      if i + |PREFIX| <= |tail| {
        WithinFirst(tail, ">>" + next, i);
      } else {
        var at := if i <= |tail| then |tail| else i;
        assert s[at] == '>' != PREFIX[at - i];
        NotHere(s, i, at - i);
      }
    }
  }

  lemma {:induction false} SkipClear(p: Pattern, s: string, n: nat, at: nat)
    requires n <= |s| && Clear(s, n)
    ensures FindAll(p, s, at) == FindAll(p, s[n..], at + n)
    decreases n
  {
    if n > 0 {
      assert !(PREFIX <= s[0..]) && s[0..] == s;
      forall i | 0 <= i < n - 1 ensures !(PREFIX <= s[1..][i..]) {
        assert s[1..][i..] == s[i + 1..];
      }
      SkipClear(p, s[1..], n - 1, at + 1);
      assert s[1..][n - 1..] == s[n..];
    }
  }

  // ---------- What the patterns match at a marker ----------

  lemma {:induction false} TailOfMarker(tail: string, next: string, limit: nat)
    requires '>' !in tail && |tail| <= limit
    ensures Tail(tail + ">>" + next, limit) == Some(|tail|)
  {
    var s := tail + ">>" + next;
    if tail != "" {
      assert s[0] == tail[0] && tail[0] in tail;
      assert s[1..] == tail[1..] + ">>" + next;
      TailOfMarker(tail[1..], next, limit - 1);
    }
  }

  /** How much of a marker a pattern's match takes. */
  function Taken(p: Pattern, m: Marker): nat {
    if p.DoubleAngle? then |PREFIX| + |m.hash| + 1 else |Written(m)|
  }

  lemma TakesWithin(p: Pattern, m: Marker)
    ensures Taken(p, m) <= |Written(m)|
  {
  }

  lemma MarkerMatches(p: Pattern, m: Marker, next: string)
    requires WellFormed(m)
    ensures MatchHere(p, Written(m) + next) == Some((Taken(p, m), m.hash))
  {
    hide Free, Tail;
    var s := Written(m) + next;
    var after := m.tail + ">>" + next;
    assert s == PREFIX + (m.hash + after);
    var rest := s[|PREFIX|..];
    assert rest == m.hash + after;
    assert rest[..|m.hash|] == m.hash && rest[|m.hash|..] == after;
    TailOfMarker(m.tail, next, TAIL_LIMIT);
    assert !IsHex(after[0]) && IsDelimiter(after[0]);
    if |m.hash| == 12 {
      assert !HexRun(rest, 24) by {
        assert |rest| >= 24 ==> rest[12] == after[0];
      }
    }
  }

  // ---------- The scans over a laid-out text ----------

  /** The spans of the whole markers. */
  function Spans(first: string, rest: seq<Piece>, at: nat): seq<Match>
    decreases |rest|
  {
    if rest == [] then []
    else
      var start := at + |first|;
      var end := start + |Written(rest[0].marker)|;
      [Match(start, end, rest[0].marker.hash)] + Spans(rest[0].text, rest[1..], end)
  }

  lemma LaidTail(first: string, rest: seq<Piece>)
    requires Laid(first, rest) && rest != []
    ensures Laid(rest[0].text, rest[1..]) && WellFormed(rest[0].marker)
  {
  }

  lemma NothingFound(p: Pattern, first: string, at: nat)
    requires Free(first)
    ensures FindAll(p, first, at) == []
  {
    FreeThenMarker(first, "");
    assert first + "" == first;
    SkipClear(p, first, |first|, at);
  }

  lemma FoundHere(p: Pattern, s: string, at: nat)
    requires MatchHere(p, s).Some?
    ensures var (length, hash) := MatchHere(p, s).value;
            FindAll(p, s, at) == [Match(at, at + length, hash)] + FindAll(p, s[length..], at + length)
  {
    hide MatchHere;
  }

  /** The scan comes to the next marker and takes from it what its pattern takes. */
  lemma FindsNext(p: Pattern, first: string, m: Marker, next: string, at: nat)
    requires Free(first) && WellFormed(m)
    ensures Taken(p, m) <= |Written(m)|
    ensures var start := at + |first|;
            FindAll(p, first + (Written(m) + next), at) ==
              [Match(start, start + Taken(p, m), m.hash)] + FindAll(p, (Written(m) + next)[Taken(p, m)..], start + Taken(p, m))
  {
    hide MatchHere, Free, WellFormed, FindAll;
    var here := Written(m) + next;
    assert PREFIX <= here;
    hide Written, Taken, Clear;
    FreeThenMarker(first, here);
    SkipClear(p, first + here, |first|, at);
    assert (first + here)[|first|..] == here;
    MarkerMatches(p, m, next);
    TakesWithin(p, m);
    FoundHere(p, here, at + |first|);
  }

  /** The substitution pattern's matches are exactly the whole markers. */
  lemma {:induction false} FindsWholeMarkers(first: string, rest: seq<Piece>, at: nat)
    requires Laid(first, rest)
    ensures FindAll(DoubleAngleFull, Text(first, rest), at) == Spans(first, rest, at)
    decreases |rest|
  {
    hide FindAll, MatchHere, Free, WellFormed;
    if rest == [] {
      NothingFound(DoubleAngleFull, first, at);
    } else {
      var m, next := rest[0].marker, Text(rest[0].text, rest[1..]);
      LaidTail(first, rest);
      FindsNext(DoubleAngleFull, first, m, next, at);
      assert (Written(m) + next)[|Written(m)|..] == next;
      FindsWholeMarkers(rest[0].text, rest[1..], at + |first| + |Written(m)|);
    }
  }

  lemma SkipsTheRest(m: Marker, next: string, at: nat)
    requires WellFormed(m)
    ensures Taken(DoubleAngle, m) <= |Written(m)|
    ensures FindAll(DoubleAngle, (Written(m) + next)[Taken(DoubleAngle, m)..], at)
            == FindAll(DoubleAngle, next, at + (|Written(m)| - Taken(DoubleAngle, m)))
  {
    hide FindAll;
    var left := (Written(m) + next)[Taken(DoubleAngle, m)..];
    var closing := m.tail + ">>";
    assert left == closing[1..] + next;
    TailIsClear(m.tail, next);
    forall i | 0 <= i < |closing| - 1 ensures !(PREFIX <= left[i..]) {
      assert left[i..] == (closing + next)[i + 1..];
    }
    SkipClear(DoubleAngle, left, |closing| - 1, at);
    assert left[|closing| - 1..] == next;
  }

  /** The extraction pattern finds the same hashes in the same order, though its matches stop
      right after each hash. */
  lemma {:induction false} FindsSameHashes(first: string, rest: seq<Piece>, at: nat)
    requires Laid(first, rest)
    ensures HashesOf(FindAll(DoubleAngle, Text(first, rest), at)) == Hashes(rest)
    ensures HashesOf(Spans(first, rest, at)) == Hashes(rest)
    decreases |rest|
  {
    hide FindAll, MatchHere, Free, WellFormed, Written, Taken;
    if rest == [] {
      NothingFound(DoubleAngle, first, at);
    } else {
      var m, next := rest[0].marker, Text(rest[0].text, rest[1..]);
      LaidTail(first, rest);
      FindsNext(DoubleAngle, first, m, next, at);
      SkipsTheRest(m, next, at + |first| + Taken(DoubleAngle, m));
      FindsSameHashes(rest[0].text, rest[1..], at + |first| + |Written(m)|);
      assert Hashes(rest) == [m.hash] + Hashes(rest[1..]);
    }
  }

  lemma ThreeParts(whole: string, at: nat, a: string, b: string, c: string)
    requires at <= |whole| && whole[at..] == a + (b + c)
    ensures at + |a| + |b| <= |whole|
    ensures whole[at..at + |a|] == a && whole[at + |a|..at + |a| + |b|] == b && whole[at + |a| + |b|..] == c
  {
    var t := a + (b + c);
    assert |whole| == at + |a| + |b| + |c|;
    assert whole[at..][..|a|] == t[..|a|] == a;
    assert whole[at..][|a|..] == t[|a|..] == b + c;
    assert whole[at + |a|..] == b + c;
    assert (b + c)[..|b|] == b && (b + c)[|b|..] == c;
  }

  /** Where the first marker of a laid-out rest stands. */
  lemma MarkerStands(whole: string, first: string, rest: seq<Piece>, at: nat, written: string, next: string)
    requires rest != [] && at <= |whole| && whole[at..] == Text(first, rest)
    requires written == Written(rest[0].marker) && next == Text(rest[0].text, rest[1..])
    ensures at + |first| + |written| <= |whole|
    ensures whole[at..at + |first|] == first && whole[at + |first|..at + |first| + |written|] == written
    ensures whole[at + |first| + |written|..] == next
  {
    hide *;
    TextNext(first, rest);
    assert whole[at..] == first + (written + next);
    ThreeParts(whole, at, first, written, next);
  }

  lemma TextNext(first: string, rest: seq<Piece>)
    requires rest != []
    ensures Text(first, rest) == first + (Written(rest[0].marker) + Text(rest[0].text, rest[1..]))
  {
  }

  lemma SpansNext(first: string, rest: seq<Piece>, at: nat)
    requires rest != []
    ensures var start := at + |first|;
            var end := start + |Written(rest[0].marker)|;
            var spans := Spans(first, rest, at);
            spans != [] && spans[0] == Match(start, end, rest[0].marker.hash) && spans[1..] == Spans(rest[0].text, rest[1..], end)
  {
    hide Written;
  }

  lemma InOrderNext(matches: seq<Match>, last: nat, length: nat)
    requires matches != [] && last <= matches[0].start <= matches[0].end <= length
    requires InOrder(matches[1..], matches[0].end, length)
    ensures InOrder(matches, last, length)
  {
  }

  lemma ExpandedNext(first: string, rest: seq<Piece>, lookup: string -> Option<string>)
    requires rest != []
    ensures Expanded(first, rest, lookup) ==
              first
              + (match lookup(rest[0].marker.hash) case Some(original) => original case None => Written(rest[0].marker))
              + Expanded(rest[0].text, rest[1..], lookup)
  {
    hide Written;
  }

  /** What one step of the splicing makes of a laid-out text. */
  lemma SplicesNext(whole: string, first: string, rest: seq<Piece>, at: nat, lookup: string -> Option<string>)
    requires rest != [] && at <= |whole| && whole[at..] == Text(first, rest)
    ensures var end := at + |first| + |Written(rest[0].marker)|;
            && end <= |whole| && whole[end..] == Text(rest[0].text, rest[1..])
            && (InOrder(Spans(rest[0].text, rest[1..], end), end, |whole|) ==>
                  && InOrder(Spans(first, rest, at), at, |whole|)
                  && Spliced(whole, Spans(first, rest, at), lookup, at) ==
                       first
                       + (match lookup(rest[0].marker.hash) case Some(original) => original case None => Written(rest[0].marker))
                       + Spliced(whole, Spans(rest[0].text, rest[1..], end), lookup, end))
  {
    hide *;
    var end := at + |first| + |Written(rest[0].marker)|;
    var spans := Spans(first, rest, at);
    MarkerStands(whole, first, rest, at, Written(rest[0].marker), Text(rest[0].text, rest[1..]));
    SpansNext(first, rest, at);
    if InOrder(Spans(rest[0].text, rest[1..], end), end, |whole|) {
      InOrderNext(spans, at, |whole|);
      SplicedNext(whole, spans, lookup, at);
    }
  }

  lemma {:induction false} SplicesLaid(whole: string, first: string, rest: seq<Piece>, at: nat, lookup: string -> Option<string>)
    requires at <= |whole| && whole[at..] == Text(first, rest)
    ensures InOrder(Spans(first, rest, at), at, |whole|)
    ensures Spliced(whole, Spans(first, rest, at), lookup, at) == Expanded(first, rest, lookup)
    decreases |rest|
  {
    if rest != [] {
      hide *;
      SplicesNext(whole, first, rest, at, lookup);
      SplicesLaid(whole, rest[0].text, rest[1..], at + |first| + |Written(rest[0].marker)|, lookup);
      ExpandedNext(first, rest, lookup);
    }
  }

  /** Resolution replaces each whole marker by its stored original, or leaves it on a miss, and
      keeps all other text; and the hashes it looks up are those extraction reports. */
  lemma ResolvesExactly(first: string, rest: seq<Piece>, lookup: string -> Option<string>)
    requires Laid(first, rest)
    ensures var text := Text(first, rest);
            var matches := FindAll(DoubleAngleFull, text, 0);
            && InOrder(matches, 0, |text|)
            && Spliced(text, matches, lookup, 0) == Expanded(first, rest, lookup)
            && HashesOf(matches) == HashesOf(FindAll(DoubleAngle, text, 0)) == Hashes(rest)
  {
    hide FindAll;
    FindsWholeMarkers(first, rest, 0);
    FindsSameHashes(first, rest, 0);
    assert Text(first, rest)[0..] == Text(first, rest);
    SplicesLaid(Text(first, rest), first, rest, 0, lookup);
  }

  /** Where every hash is stored, the output is the stretches with the originals between them; where
      none is, it is the text. */
  lemma ResolvesAllOrNothing(first: string, rest: seq<Piece>, lookup: string -> Option<string>)
    requires Laid(first, rest)
    ensures InOrder(FindAll(DoubleAngleFull, Text(first, rest), 0), 0, |Text(first, rest)|)
    ensures (forall p :: p in rest ==> lookup(p.marker.hash).None?) ==>
              Spliced(Text(first, rest), FindAll(DoubleAngleFull, Text(first, rest), 0), lookup, 0) == Text(first, rest)
    ensures forall originals: seq<string> ::
              |originals| == |rest| && (forall i :: 0 <= i < |rest| ==> lookup(rest[i].marker.hash) == Some(originals[i])) ==>
                Spliced(Text(first, rest), FindAll(DoubleAngleFull, Text(first, rest), 0), lookup, 0) ==
                  Interleaved(first, rest, originals)
  {
    hide *;
    ResolvesExactly(first, rest, lookup);
    if forall p :: p in rest ==> lookup(p.marker.hash).None? {
      var fills := seq(|rest|, i requires 0 <= i < |rest| => Written(rest[i].marker));
      ExpandedFills(first, rest, lookup, fills);
      WrittenFills(first, rest, fills);
    }
    forall originals: seq<string> |
      |originals| == |rest| && (forall i :: 0 <= i < |rest| ==> lookup(rest[i].marker.hash) == Some(originals[i]))
      ensures Expanded(first, rest, lookup) == Interleaved(first, rest, originals)
    {
      ExpandedFills(first, rest, lookup, originals);
    }
  }

  // ---------- Any text after the prefix ----------

  /** The number of lowercase hex digits `s` begins with. */
  function HexDigits(s: string): (n: nat)
    ensures n <= |s| && HexRun(s, n) && (n < |s| ==> !IsHex(s[n]))
  {
    if s != "" && IsHex(s[0]) then HexDigits(s[1..]) + 1 else 0
  }

  /** The first `>` of `s` is at `g`, and another one follows. */
  predicate Closes(s: string, g: nat) {
    g + 1 < |s| && s[g] == '>' && s[g + 1] == '>' && forall i :: 0 <= i < g ==> s[i] != '>'
  }

  ghost predicate ClosesWithin(s: string, limit: nat) {
    exists g: nat :: g <= limit && Closes(s, g)
  }

  lemma {:induction false} TailCloses(s: string, limit: nat)
    ensures Tail(s, limit).Some? ==> Tail(s, limit).value <= limit && Closes(s, Tail(s, limit).value)
    ensures forall g: nat :: g <= limit && Closes(s, g) ==> Tail(s, limit) == Some(g)
  {
    if s != "" && s[0] != '>' && limit > 0 {
      TailCloses(s[1..], limit - 1);
      forall g: nat | g <= limit && Closes(s, g) ensures Tail(s, limit) == Some(g) {
        assert g > 0 && Closes(s[1..], g - 1);
      }
    }
  }

  lemma TailAfter(s: string, n: nat, limit: nat)
    requires n <= |s| && forall i :: 0 <= i < n ==> s[i] != '>'
    ensures Tail(s[n..], limit).Some? <==> ClosesWithin(s, n + limit)
    ensures Tail(s[n..], limit).Some? ==> Closes(s, n + Tail(s[n..], limit).value)
  {
    TailCloses(s[n..], limit);
    if Tail(s[n..], limit).Some? {
      assert Closes(s, n + Tail(s[n..], limit).value);
    }
    if ClosesWithin(s, n + limit) {
      var g: nat :| g <= n + limit && Closes(s, g);
      assert Closes(s[n..], g - n);
    }
  }

  /** Extraction accepts exactly a run of 12 or 24 digits with a delimiter right after it. */
  predicate Extracts(rest: string) {
    var n := HexDigits(rest);
    (n == 12 || n == 24) && n < |rest| && IsDelimiter(rest[n])
  }

  /** Substitution accepts twelve digits or more, of any width and with anything after them, when
      the first `>` comes doubled and soon enough. */
  ghost predicate Substitutes(rest: string) {
    var n := HexDigits(rest);
    n >= 12 && ClosesWithin(rest, TAIL_LIMIT + if n >= 24 then 24 else 12)
  }

  lemma ExtractsExactly(rest: string)
    ensures MatchHere(DoubleAngle, PREFIX + rest) ==
              if Extracts(rest) then Some((|PREFIX| + HexDigits(rest) + 1, rest[..HexDigits(rest)])) else None
  {
    assert (PREFIX + rest)[|PREFIX|..] == rest;
  }

  lemma NoCloserDigits(rest: string, n: nat)
    requires n <= HexDigits(rest)
    ensures forall i :: 0 <= i < n ==> rest[i] != '>'
  {
  }

  lemma SubstitutesExactly(rest: string)
    ensures MatchHere(DoubleAngleFull, PREFIX + rest).Some? <==> Substitutes(rest)
    ensures Substitutes(rest) ==>
              MatchHere(DoubleAngleFull, PREFIX + rest).value.1 ==
                rest[..if HexDigits(rest) >= 24 && ClosesWithin(rest, 24 + TAIL_LIMIT) then 24 else 12]
  {
    hide ClosesWithin, Tail, HexDigits, IsDelimiter, IsHex;
    assert (PREFIX + rest)[|PREFIX|..] == rest;
    var n := HexDigits(rest);
    if n >= 12 {
      NoCloserDigits(rest, 12);
      TailAfter(rest, 12, TAIL_LIMIT);
      Sooner(rest, 12 + TAIL_LIMIT, 24 + TAIL_LIMIT);
    }
    if n >= 24 {
      NoCloserDigits(rest, 24);
      TailAfter(rest, 24, TAIL_LIMIT);
    }
  }

  lemma Sooner(s: string, limit: nat, later: nat)
    requires limit <= later
    ensures ClosesWithin(s, limit) ==> ClosesWithin(s, later)
  {
  }

  /** The two patterns agree at a prefix: both find nothing, or both find the same hash. */
  predicate Agree(rest: string) {
    var extracted, substituted := MatchHere(DoubleAngle, PREFIX + rest), MatchHere(DoubleAngleFull, PREFIX + rest);
    if extracted.Some? then substituted.Some? && extracted.value.1 == substituted.value.1 else substituted.None?
  }

  /** The patterns agree exactly when a run of 12 or 24 digits with its delimiter is also closed in
      time, or anything else is not closed in time after twelve digits. */
  lemma AgreeExactly(rest: string)
    ensures var n := HexDigits(rest);
            Agree(rest) <==>
              if Extracts(rest) then ClosesWithin(rest, n + 64)
              else !(n >= 12 && ClosesWithin(rest, 64 + if n >= 24 then 24 else 12))
  {
    hide MatchHere, HexDigits, ClosesWithin;
    ExtractsExactly(rest);
    SubstitutesExactly(rest);
  }

  /** What substitution looks up is the whole run of digits exactly when that has one of the two
      strict widths. */
  lemma StrictWidthsExactly(rest: string)
    requires Substitutes(rest)
    ensures MatchHere(DoubleAngleFull, PREFIX + rest).Some?
    ensures MatchHere(DoubleAngleFull, PREFIX + rest).value.1 == rest[..HexDigits(rest)] <==>
              HexDigits(rest) == 12 || HexDigits(rest) == 24
  {
    hide MatchHere, ClosesWithin;
    SubstitutesExactly(rest);
  }

  /** Three ways to disagree: a hash of another width, a hash followed by no delimiter, and a marker
      that is never closed. */
  lemma PatternsPart(hash: string, strict: string)
    requires HexRun(hash, |hash|) && 12 < |hash| <= 88 && |hash| != 24 && HexRun(strict, 24) && |strict| == 24
    ensures !Extracts(hash + ">>") && Substitutes(hash + ">>") && !Agree(hash + ">>")
    ensures !Extracts(strict + "x>>") && Substitutes(strict + "x>>") && !Agree(strict + "x>>")
    ensures Extracts(strict + " ") && !Substitutes(strict + " ") && !Agree(strict + " ")
  {
    hide MatchHere;
    Digits(hash, ">>");
    Digits(strict, "x>>");
    Digits(strict, " ");
    assert Closes(hash + ">>", |hash|) && Closes(strict + "x>>", 25);
    AgreeExactly(hash + ">>");
    AgreeExactly(strict + "x>>");
    AgreeExactly(strict + " ");
  }

  lemma {:induction false} Digits(hash: string, after: string)
    requires HexRun(hash, |hash|) && (after != "" ==> !IsHex(after[0]))
    ensures HexDigits(hash + after) == |hash|
  {
    if hash == "" {
      assert hash + after == after;
    } else {
      Digits(hash[1..], after);
      assert (hash + after)[1..] == hash[1..] + after;
    }
  }
}
