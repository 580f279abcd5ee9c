/** Line filtering of a stored original: a window of lines, and around each match of a pattern in
    it a few lines of context. */
module LineFilters {
  import opened Wrappers
  import opened Texts

  /** A line pattern: its source, and what searching a line with it says. */
  datatype Pattern = Pattern(source: string, search: string -> bool)

  datatype Filters = Filters(lineStart: Option<int>, lineEnd: Option<int>, pattern: Option<Pattern>, contextLines: nat)

  datatype Numbered = Numbered(number: nat, text: string)

  datatype Filtered = Filtered(content: string, matchedCount: nat, totalCount: nat, skippedOverCap: nat)

  // ---------- One line against one pattern ----------

  const METACHARACTERS := ".*+?{}[]()|^$\\"

  predicate IsLiteral(p: Pattern) {
    forall i | 0 <= i < |p.source| :: p.source[i] !in METACHARACTERS
  }

  predicate Contains(text: string, needle: string) {
    exists i | 0 <= i <= |text| :: needle <= text[i..]
  }

  predicate LineMatches(p: Pattern, text: string) {
    if |text| <= MAX_REGEX_LINE_CHARS then p.search(text)
    else IsLiteral(p) && Contains(text, p.source)
  }

  // ---------- What a filter selects ----------

  /** The clamped window, as 1-based bounds. */
  function WindowStart(f: Filters): nat {
    match f.lineStart
    case Some(n) => if n > 1 then n else 1
    case None => 1
  }

  function WindowEnd(f: Filters, total: nat): nat {
    match f.lineEnd
    case Some(n) => if 0 <= n < total then n else if n < 0 then 0 else total
    case None => total
  }

  predicate InWindow(n: nat, f: Filters, total: nat) {
    WindowStart(f) <= n <= WindowEnd(f, total)
  }

  /** The window holds the lines that exist, from the first asked for to the last. */
  lemma WindowExactly(n: int, f: Filters, total: nat)
    ensures 0 <= n && InWindow(n, f, total) <==>
              && 1 <= n <= total
              && (f.lineStart.Some? ==> f.lineStart.value <= n) && (f.lineEnd.Some? ==> n <= f.lineEnd.value)
  {
  }

  lemma ContainsExactly(text: string, needle: string)
    ensures Contains(text, needle) <==> exists before, after :: text == before + needle + after
  {
    if before, after :| text == before + needle + after {
      assert text[|before|..] == needle + after;
    }
    if i :| 0 <= i <= |text| && needle <= text[i..] {
      assert text == text[..i] + needle + text[i + |needle|..];
    }
  }

  /** A line no longer than the cap is searched; a longer one is not, and matches only a pattern free
      of metacharacters that occurs in it. */
  lemma LineMatchesExactly(p: Pattern, text: string)
    ensures |text| <= 10000 ==> (LineMatches(p, text) <==> p.search(text))
    ensures |text| > 10000 ==>
              (LineMatches(p, text) <==>
                 && (forall c :: c in p.source ==> c !in ".*+?{}[]()|^$\\")
                 && exists before, after :: text == before + p.source + after)
  {
    hide Contains;
    ContainsExactly(text, p.source);
  }

  /** Line `n` is shown: it lies in the window, within reach of a matching line of the window. */
  ghost predicate Shown(n: nat, lines: seq<string>, f: Filters) {
    && InWindow(n, f, |lines|)
    && (f.pattern.Some? ==>
          exists m: nat :: InWindow(m, f, |lines|) && m - f.contextLines <= n <= m + f.contextLines
                           && LineMatches(f.pattern.value, lines[m - 1]))
  }

  ghost predicate Ascending(shown: seq<Numbered>) {
    forall i, j :: 0 <= i < j < |shown| ==> shown[i].number < shown[j].number
  }

  /** Exactly the shown lines, once each, in order, with their own numbers. */
  ghost predicate Selects(shown: seq<Numbered>, lines: seq<string>, f: Filters) {
    && Ascending(shown)
    && (forall s :: s in shown ==> 1 <= s.number <= |lines| && s.text == lines[s.number - 1])
    && (forall n: nat :: (exists s :: s in shown && s.number == n) <==> Shown(n, lines, f))
  }

  /** The indices within reach of a matching index. */
  ghost predicate NearMatch(i: int, windowed: seq<Numbered>, p: Pattern, context: nat) {
    exists k :: 0 <= k < |windowed| && k - context <= i <= k + context && LineMatches(p, windowed[k].text)
  }

  function Range(low: nat, high: nat): (r: set<nat>)
    ensures forall i: nat :: i in r <==> low <= i <= high
    decreases high + 1 - low
  {
    if low > high then {} else {low} + Range(low + 1, high)
  }

  /** The lines of the window that match, with context; the window's edges stop the context. */
  method SelectMatchingWithContext(windowed: seq<Numbered>, p: Pattern, context: nat) returns (shown: seq<Numbered>, ghost at: seq<nat>)
    ensures forall s :: s in shown <==> exists i :: 0 <= i < |windowed| && windowed[i] == s && NearMatch(i, windowed, p, context)
    ensures |at| == |shown| && forall i :: 0 <= i < |shown| ==> at[i] < |windowed| && shown[i] == windowed[at[i]]
    ensures forall i, j :: 0 <= i < j < |at| ==> at[i] < at[j]
    ensures forall i: nat :: i in at <==> i < |windowed| && NearMatch(i, windowed, p, context)
  {
    hide LineMatches;
    var keep: set<nat> := {};
    for idx := 0 to |windowed|
      invariant forall i: nat :: i in keep <==> i < |windowed| && NearMatch(i, windowed[..idx], p, context)
    {
      NearMatchGrows(windowed, idx, p, context);
      if LineMatches(p, windowed[idx].text) {
        var low := if idx < context then 0 else idx - context;
        var high := if idx + context < |windowed| then idx + context else |windowed| - 1;
        keep := keep + Range(low, high);
      }
    }
    assert windowed[..|windowed|] == windowed;
    shown, at := [], [];
    for i: nat := 0 to |windowed|
      invariant |at| == |shown| && forall j :: 0 <= j < |at| ==> at[j] < i && shown[j] == windowed[at[j]]
      invariant forall j, k :: 0 <= j < k < |at| ==> at[j] < at[k]
      invariant forall j: nat :: j in at <==> j < i && j in keep
    {
      if i in keep {
        shown, at := shown + [windowed[i]], at + [i];
      }
    }
    ShownAt(windowed, shown, at, p, context);
  }

  lemma ShownAt(windowed: seq<Numbered>, shown: seq<Numbered>, at: seq<nat>, p: Pattern, context: nat)
    requires |at| == |shown| && forall i :: 0 <= i < |shown| ==> at[i] < |windowed| && shown[i] == windowed[at[i]]
    requires forall i: nat :: i in at <==> i < |windowed| && NearMatch(i, windowed, p, context)
    ensures forall s :: s in shown <==> exists i :: 0 <= i < |windowed| && windowed[i] == s && NearMatch(i, windowed, p, context)
  {
    hide NearMatch;
    forall s | s in shown ensures exists i :: 0 <= i < |windowed| && windowed[i] == s && NearMatch(i, windowed, p, context) {
      var j :| 0 <= j < |shown| && shown[j] == s;
      assert at[j] in at;
    }
    forall i: nat | i < |windowed| && NearMatch(i, windowed, p, context) ensures windowed[i] in shown {
      assert i in at;
    }
  }

  lemma NearMatchGrows(windowed: seq<Numbered>, idx: nat, p: Pattern, context: nat)
    requires idx < |windowed|
    ensures forall i: int :: NearMatch(i, windowed[..idx + 1], p, context) <==>
              NearMatch(i, windowed[..idx], p, context)
              || (idx - context <= i <= idx + context && LineMatches(p, windowed[idx].text))
  {
    hide LineMatches;
    var before, after := windowed[..idx], windowed[..idx + 1];
    forall i: int
      ensures NearMatch(i, after, p, context) <==>
                NearMatch(i, before, p, context)
                || (idx - context <= i <= idx + context && LineMatches(p, windowed[idx].text))
    {
      if NearMatch(i, before, p, context) {
        var k :| 0 <= k < |before| && k - context <= i <= k + context && LineMatches(p, before[k].text);
        assert after[k] == before[k];
      }
      if NearMatch(i, after, p, context) {
        var k :| 0 <= k < |after| && k - context <= i <= k + context && LineMatches(p, after[k].text);
        assert k < idx ==> after[k] == before[k];
      }
      assert after[idx] == windowed[idx];
    }
  }

  // ---------- Rendering ----------

  function Line(s: Numbered): string {
    Decimal(s.number) + ":" + s.text
  }

  function Render(shown: seq<Numbered>): string {
    if shown == [] then "" else Join(LinesOf(shown), '\n')
  }

  function LinesOf(shown: seq<Numbered>): seq<string> {
    seq(|shown|, i requires 0 <= i < |shown| => Line(shown[i]))
  }

  /** A rendered line is its number, up to the first colon, and its text. */
  lemma LineReadsBack(s: Numbered)
    ensures var number, text := Line(s)[..|Line(s)| - |s.text| - 1], Line(s)[|Line(s)| - |s.text|..];
            && (forall i :: 0 <= i < |number| ==> '0' <= number[i] <= '9')
            && Line(s) == number + ":" + text && ReadDecimal(number) == s.number && text == s.text
  {
    DecimalReadsBack(s.number);
    assert Line(s)[..|Line(s)| - |s.text| - 1] == Decimal(s.number);
  }

  /** The rendered view splits back into one line for each line shown. */
  lemma RenderSplits(shown: seq<Numbered>)
    requires shown != [] && forall s :: s in shown ==> '\n' !in s.text
    ensures Split(Render(shown), '\n') == LinesOf(shown)
  {
    forall i | 0 <= i < |shown| ensures '\n' !in LinesOf(shown)[i] {
      assert shown[i] in shown;
    }
    SplitJoin(LinesOf(shown), '\n');
  }

  function LongLines(windowed: seq<Numbered>): nat {
    if windowed == [] then 0
    else
      var last := |windowed| - 1;
      LongLines(windowed[..last]) + if |windowed[last].text| > MAX_REGEX_LINE_CHARS then 1 else 0
  }

  /** That many lines of the window are longer than the cap. */
  lemma {:induction false} LongLinesCount(windowed: seq<Numbered>)
    ensures LongLines(windowed) == |set i | 0 <= i < |windowed| && |windowed[i].text| > 10000|
  {
    var long := set i | 0 <= i < |windowed| && |windowed[i].text| > 10000;
    if windowed == [] {
      assert long == {};
    } else {
      var last := |windowed| - 1;
      var before := set i | 0 <= i < last && |windowed[..last][i].text| > 10000;
      LongLinesCount(windowed[..last]);
      assert long == before + if |windowed[last].text| > 10000 then {last} else {};
    }
  }

  /** The numbered lines of the window. */
  function Windowed(lines: seq<string>, f: Filters): (w: seq<Numbered>)
    ensures |w| == if WindowStart(f) <= WindowEnd(f, |lines|) then WindowEnd(f, |lines|) - WindowStart(f) + 1 else 0
    ensures forall i :: 0 <= i < |w| ==>
              w[i].number == WindowStart(f) + i <= |lines| && w[i].text == lines[w[i].number - 1]
  {
    var start, end := WindowStart(f), WindowEnd(f, |lines|);
    if start > end then []
    else seq(end - start + 1, i requires 0 <= i < end - start + 1 => Numbered(start + i, lines[start + i - 1]))
  }

  /** The line filter: window, pattern with context, and a count of the lines its pattern was not
      run on. */
  method FilterLines(content: string, f: Filters) returns (r: Filtered, ghost shown: seq<Numbered>)
    ensures Selects(shown, Split(content, '\n'), f)
    ensures r.content == Render(shown) && r.matchedCount == |shown| && r.totalCount == |Split(content, '\n')|
    ensures shown != [] ==> Split(r.content, '\n') == LinesOf(shown)
    ensures r.skippedOverCap == if f.pattern.Some? && !IsLiteral(f.pattern.value)
                                then LongLines(Windowed(Split(content, '\n'), f)) else 0
  {
    hide LineMatches, LongLines, Render, IsLiteral, Shown, Split;
    var lines := Split(content, '\n');
    LinesAreFree(content);
    var windowed := Windowed(lines, f);
    var selected, skipped := windowed, 0;
    if f.pattern.None? {
      WindowSelects(lines, f);
    } else {
      ghost var at;
      selected, at := SelectMatchingWithContext(windowed, f.pattern.value, f.contextLines);
      MatchesSelect(lines, f, selected, at);
      if !IsLiteral(f.pattern.value) {
        skipped := LongLines(windowed);
      }
    }
    shown := selected;
    if shown != [] {
      RenderSplits(shown);
    }
    r := Filtered(Render(selected), |selected|, |lines|, skipped);
  }

  lemma WindowSelects(lines: seq<string>, f: Filters)
    requires f.pattern.None?
    ensures Selects(Windowed(lines, f), lines, f)
  {
    var w := Windowed(lines, f);
    forall n: nat ensures (exists s :: s in w && s.number == n) <==> Shown(n, lines, f) {
      if Shown(n, lines, f) {
        assert w[n - WindowStart(f)] in w;
      }
    }
  }

  lemma MatchesSelect(lines: seq<string>, f: Filters, shown: seq<Numbered>, at: seq<nat>)
    requires f.pattern.Some?
    requires var w := Windowed(lines, f);
             && |at| == |shown| && (forall i :: 0 <= i < |shown| ==> at[i] < |w| && shown[i] == w[at[i]])
             && (forall i: nat :: i in at <==> i < |w| && NearMatch(i, w, f.pattern.value, f.contextLines))
    requires forall i, j :: 0 <= i < j < |at| ==> at[i] < at[j]
    ensures Selects(shown, lines, f)
  {
    hide LineMatches;
    var w, start := Windowed(lines, f), WindowStart(f);
    forall n: nat ensures (exists s :: s in shown && s.number == n) <==> Shown(n, lines, f) {
      NearMatchIsShown(lines, f, n);
      if exists s :: s in shown && s.number == n {
        var i :| 0 <= i < |shown| && shown[i].number == n;
        assert at[i] in at && at[i] == n - start;
      }
      if Shown(n, lines, f) {
        assert n - start in at;
        var i :| 0 <= i < |at| && at[i] == n - start;
        assert shown[i] in shown && shown[i].number == n;
      }
    }
  }

  /** Being near a match in the window, by index, is being shown, by line number. */
  lemma NearMatchIsShown(lines: seq<string>, f: Filters, n: nat)
    requires f.pattern.Some?
    ensures var w, i := Windowed(lines, f), n - WindowStart(f);
            Shown(n, lines, f) <==> 0 <= i < |w| && NearMatch(i, w, f.pattern.value, f.contextLines)
  {
    hide LineMatches;
    var w, start := Windowed(lines, f), WindowStart(f);
    var p := f.pattern.value;
    if Shown(n, lines, f) {
      var m: nat :| InWindow(m, f, |lines|) && m - f.contextLines <= n <= m + f.contextLines && LineMatches(p, lines[m - 1]);
      assert w[m - start].text == lines[m - 1];
    }
    if 0 <= n - start < |w| && NearMatch(n - start, w, p, f.contextLines) {
      var k :| 0 <= k < |w| && k - f.contextLines <= n - start <= k + f.contextLines && LineMatches(p, w[k].text);
      assert InWindow(start + k, f, |lines|);
    }
  }
}
