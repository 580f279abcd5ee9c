/** Splitting content into runs of lines that may be compressed and runs that are protected. */
module ContentSections {
  import opened Texts

  type Matcher = string -> bool

  datatype SectionPatterns = SectionPatterns(include_: seq<Matcher>, exclude: seq<Matcher>)

  datatype LineRun = LineRun(eligible: bool, text: string)

  predicate AnyMatches(matchers: seq<Matcher>, line: string) {
    exists i | 0 <= i < |matchers| :: matchers[i](line)
  }

  predicate LineIsEligible(line: string, patterns: SectionPatterns) {
    if |line| > MAX_REGEX_LINE_CHARS then false
    else if AnyMatches(patterns.exclude, line) then false
    else if patterns.include_ != [] then AnyMatches(patterns.include_, line)
    else true
  }

  /** A line may be compressed exactly when it is not too long, no exclusion matches it and, if
      there are inclusions, one of them does. */
  lemma EligibleExactly(line: string, patterns: SectionPatterns)
    ensures LineIsEligible(line, patterns) <==>
              && |line| <= 10000
              && (forall m :: m in patterns.exclude ==> !m(line))
              && (patterns.include_ == [] || exists m :: m in patterns.include_ && m(line))
  {
    forall m | m in patterns.exclude && m(line) ensures AnyMatches(patterns.exclude, line) {
    }
    forall m | m in patterns.include_ && m(line) ensures AnyMatches(patterns.include_, line) {
    }
  }

  function RunTexts(runs: seq<LineRun>): seq<string> {
    seq(|runs|, i requires 0 <= i < |runs| => runs[i].text)
  }

  /** The runs of `content`: each holds lines of its own kind only, neighbours differ in kind, and
      joined with newlines they are the content. */
  ghost predicate Partitions(runs: seq<LineRun>, content: string, patterns: SectionPatterns) {
    && runs != []
    && Join(RunTexts(runs), '\n') == content
    && (forall i :: 0 <= i < |runs| ==> Uniform(runs[i], patterns))
    && (forall i :: 0 < i < |runs| ==> runs[i].eligible != runs[i - 1].eligible)
  }

  ghost predicate Uniform(run: LineRun, patterns: SectionPatterns) {
    forall line :: line in Split(run.text, '\n') ==> LineIsEligible(line, patterns) == run.eligible
  }

  /** Content is partitioned line by line, each line judged once. */
  method PartitionContent(content: string, patterns: SectionPatterns) returns (runs: seq<LineRun>)
    ensures Partitions(runs, content, patterns)
  {
    hide *;
    var lines := Split(content, '\n');
    LinesAreFree(content);
    runs := [];
    ghost var done: seq<string> := [];
    var i := 0;
    while i < |lines|
      invariant i <= |lines| && (i == 0 <==> runs == [])
      invariant i > 0 ==> Partitions(runs, Join(lines[..i], '\n'), patterns)
      invariant 0 < i < |lines| ==> runs[|runs| - 1].eligible != LineIsEligible(lines[i], patterns)
    {
      var eligible := LineIsEligible(lines[i], patterns);
      var start := i;
      i := i + 1;
      while i < |lines| && LineIsEligible(lines[i], patterns) == eligible
        invariant start < i <= |lines|
        invariant forall j :: start <= j < i ==> LineIsEligible(lines[j], patterns) == eligible
      {
        i := i + 1;
      }
      var run := LineRun(eligible, Join(lines[start..i], '\n'));
      RunIsUniform(lines[start..i], eligible, patterns);
      AppendRun(runs, run, lines, start, i, patterns);
      runs := runs + [run];
    }
    assert lines[..|lines|] == lines;
    JoinSplit(content, '\n');
  }

  lemma RunIsUniform(lines: seq<string>, eligible: bool, patterns: SectionPatterns)
    requires lines != [] && forall i :: 0 <= i < |lines| ==> '\n' !in lines[i] && LineIsEligible(lines[i], patterns) == eligible
    ensures Uniform(LineRun(eligible, Join(lines, '\n')), patterns)
  {
    hide LineIsEligible;
    SplitJoin(lines, '\n');
  }

  lemma AppendRun(runs: seq<LineRun>, run: LineRun, lines: seq<string>, start: nat, end: nat, patterns: SectionPatterns)
    requires start < end <= |lines| && (start == 0 <==> runs == [])
    requires start > 0 ==> Partitions(runs, Join(lines[..start], '\n'), patterns) && runs[|runs| - 1].eligible != run.eligible
    requires Uniform(run, patterns) && run.text == Join(lines[start..end], '\n')
    ensures Partitions(runs + [run], Join(lines[..end], '\n'), patterns)
  {
    hide Uniform, Join;
    assert lines[..end] == lines[..start] + lines[start..end];
    if start == 0 {
      assert lines[..end] == lines[start..end];
      JoinOne(run.text);
      assert RunTexts([run]) == [run.text] && runs + [run] == [run];
    } else {
      JoinAppend(lines[..start], lines[start..end], '\n');
      JoinOne(run.text);
      JoinAppend(RunTexts(runs), [run.text], '\n');
      assert RunTexts(runs + [run]) == RunTexts(runs) + [run.text];
    }
  }

  lemma JoinOne(text: string)
    ensures Join([text], '\n') == text
  {
  }

  // ---------- There is only one such partition ----------

  lemma {:induction false} SplitAppend(a: string, b: string, c: char)
    ensures Split(a + [c] + b, c) == Split(a, c) + Split(b, c)
  {
    var pieces := Split(a, c) + Split(b, c);
    JoinAppend(Split(a, c), Split(b, c), c);
    JoinSplit(a, c);
    JoinSplit(b, c);
    SplitJoin(pieces, c);
  }

  /** The first run is the longest stretch of lines of the first line's kind. */
  lemma FirstRun(runs: seq<LineRun>, content: string, patterns: SectionPatterns)
    requires Partitions(runs, content, patterns)
    ensures var first, all := Split(runs[0].text, '\n'), Split(content, '\n');
            && 0 < |first| <= |all| && first == all[..|first|]
            && runs[0].eligible == LineIsEligible(all[0], patterns)
            && (forall j :: 0 <= j < |first| ==> LineIsEligible(all[j], patterns) == runs[0].eligible)
            && (|first| == |all| <==> |runs| == 1)
            && (|first| < |all| ==> LineIsEligible(all[|first|], patterns) != runs[0].eligible)
  {
    hide LineIsEligible, Split;
    var texts := RunTexts(runs);
    var first, all := Split(runs[0].text, '\n'), Split(content, '\n');
    assert texts[0] == runs[0].text;
    if |runs| > 1 {
      var rest := Join(texts[1..], '\n');
      SplitAppend(runs[0].text, rest, '\n');
      assert texts == [texts[0]] + texts[1..];
      JoinAppend([texts[0]], texts[1..], '\n');
      JoinOne(texts[0]);
      var second := Split(texts[1], '\n');
      assert second[0] in second;
      StartsWith(texts[1..]);
      assert Split(rest, '\n')[0] == second[0];
    } else {
      assert texts == [texts[0]];
      JoinOne(texts[0]);
    }
    forall j | 0 <= j < |first| ensures LineIsEligible(all[j], patterns) == runs[0].eligible {
      assert all[j] == first[j] && first[j] in first;
    }
  }

  lemma StartsWith(texts: seq<string>)
    requires texts != []
    ensures Split(Join(texts, '\n'), '\n')[0] == Split(texts[0], '\n')[0]
  {
    hide Split;
    if |texts| > 1 {
      SplitAppend(texts[0], Join(texts[1..], '\n'), '\n');
    }
  }

  lemma SameLines(a: string, b: string)
    requires Split(a, '\n') == Split(b, '\n')
    ensures a == b
  {
    JoinSplit(a, '\n');
    JoinSplit(b, '\n');
  }

  lemma RestPartitions(runs: seq<LineRun>, content: string, patterns: SectionPatterns)
    requires Partitions(runs, content, patterns) && |runs| > 1
    ensures Partitions(runs[1..], Join(RunTexts(runs[1..]), '\n'), patterns)
    ensures content == runs[0].text + ['\n'] + Join(RunTexts(runs[1..]), '\n')
  {
    hide Uniform, Split;
    assert RunTexts(runs) == [runs[0].text] + RunTexts(runs[1..]);
    JoinAppend([runs[0].text], RunTexts(runs[1..]), '\n');
    JoinOne(runs[0].text);
  }

  /** Whatever the patterns, the runs are determined by the content. */
  lemma {:induction false} PartitionIsUnique(a: seq<LineRun>, b: seq<LineRun>, content: string, patterns: SectionPatterns)
    requires Partitions(a, content, patterns) && Partitions(b, content, patterns)
    ensures a == b
    decreases |a|
  {
    hide Partitions, LineIsEligible, Split, Join;
    FirstRun(a, content, patterns);
    FirstRun(b, content, patterns);
    SomeRuns(a, content, patterns);
    SomeRuns(b, content, patterns);
    SameLines(a[0].text, b[0].text);
    if |a| > 1 {
      RestPartitions(a, content, patterns);
      RestPartitions(b, content, patterns);
      var ra, rb := Join(RunTexts(a[1..]), '\n'), Join(RunTexts(b[1..]), '\n');
      assert ra == content[|a[0].text| + 1..] == rb;
      PartitionIsUnique(a[1..], b[1..], ra, patterns);
      assert a == [a[0]] + a[1..] && b == [b[0]] + b[1..];
    } else {
      assert a == [a[0]] && b == [b[0]];
    }
  }

  lemma SomeRuns(runs: seq<LineRun>, content: string, patterns: SectionPatterns)
    requires Partitions(runs, content, patterns)
    ensures runs != []
  {
  }
}
