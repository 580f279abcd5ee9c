/** The floor-drift guard: a committed floor must describe what the run measures, and may move
    in its loosening direction only in a change that touches nothing else. */
module FloorGuard {
  import opened Wrappers
  import opened SortedKeys
  import opened BenchmarkGate

  /** The three floored quantities of one results file. */
  datatype FloorSnapshot = FloorSnapshot(tokens: map<string, int>, retention: map<string, real>, regimes: map<string, real>)

  datatype Check = Drift | Direction
  datatype Scope = OfDataset | OfRegime
  datatype Quantity = Tokens | Retention | Recall | Coverage
  datatype Finding = Finding(check: Check, scope: Scope, subject: string, quantity: Quantity)

  datatype Role = FloorMain | FloorPr | Candidate

  /** What `evaluate` comes to: a report, a refusal to compare nothing, or the division by a zero
      floor that its own message for a raised floor performs. */
  datatype Outcome =
    | Evaluated(findings: seq<Finding>, datasetsCompared: nat, regimesCompared: nat, baselineOnly: bool)
    | NothingToCompare(role: Role)
    | DividedByZero(name: string)

  // ---------- Which changes are a stand-alone re-floor ----------

  const BASELINE_ARTIFACTS := {"benchmarks/baseline_results.json", "benchmarks/BASELINE.md"}

  predicate IsSpace(c: char) {
    || '\t' <= c <= '\r' || '\U{1C}' <= c <= ' ' || c == '\U{85}' || c == '\U{A0}' || c == '\U{1680}'
    || '\U{2000}' <= c <= '\U{200A}' || c == '\U{2028}' || c == '\U{2029}' || c == '\U{202F}' || c == '\U{205F}'
    || c == '\U{3000}'
  }

  /** Among the first 128 code points these are the ones `str.strip` takes off. */
  lemma AsciiSpaces(c: char)
    requires c as int < 128
    ensures IsSpace(c) <==> c as int in {9, 10, 11, 12, 13, 28, 29, 30, 31, 32}
  {
  }

  function Strip(s: string): string {
    if s != "" && IsSpace(s[0]) then Strip(s[1..])
    else if s != "" && IsSpace(s[|s| - 1]) then Strip(s[..|s| - 1])
    else s
  }

  predicate IsBaselineOnly(changed: seq<string>) {
    var files := set f | f in changed && Strip(f) != "" :: Strip(f);
    files != {} && files <= BASELINE_ARTIFACTS
  }

  /** One file besides the artifacts, wherever it is listed, ends the exemption. */
  lemma OtherFileEndsExemption(changed: seq<string>, f: string)
    requires f in changed && Strip(f) != "" && Strip(f) !in BASELINE_ARTIFACTS
    ensures !IsBaselineOnly(changed)
  {
    var files := set g | g in changed && Strip(g) != "" :: Strip(g);
    assert Strip(f) in files;
  }

  /** What stripping leaves: the middle of the text, with white space only around it and none at its
      ends. */
  lemma {:induction false} StripExactly(s: string) returns (before: string, after: string)
    ensures s == before + Strip(s) + after
    ensures (forall i :: 0 <= i < |before| ==> IsSpace(before[i])) && forall i :: 0 <= i < |after| ==> IsSpace(after[i])
    ensures Strip(s) != "" ==> !IsSpace(Strip(s)[0]) && !IsSpace(Strip(s)[|Strip(s)| - 1])
    decreases |s|
  {
    hide IsSpace;
    before, after := "", "";
    if s != "" && IsSpace(s[0]) {
      before, after := StripExactly(s[1..]);
      before := [s[0]] + before;
    } else if s != "" && IsSpace(s[|s| - 1]) {
      before, after := StripExactly(s[..|s| - 1]);
      after := after + [s[|s| - 1]];
      assert s == s[..|s| - 1] + [s[|s| - 1]];
    }
  }

  /** A change is a stand-alone re-floor exactly when it lists some file, and none but the two
      artifacts; lines of white space list nothing. */
  lemma BaselineOnlyExactly(changed: seq<string>)
    ensures IsBaselineOnly(changed) <==>
              && (exists f :: f in changed && Strip(f) != "")
              && forall f :: f in changed ==>
                   Strip(f) == "" || Strip(f) == "benchmarks/baseline_results.json" || Strip(f) == "benchmarks/BASELINE.md"
  {
    hide Strip;
    var files := set f | f in changed && Strip(f) != "" :: Strip(f);
    assert forall f :: f in changed && Strip(f) != "" ==> Strip(f) in files;
    assert forall n :: n in files ==> exists f :: f in changed && Strip(f) == n && n != "";
    assert files != {} <==> exists f :: f in changed && Strip(f) != "";
    assert BASELINE_ARTIFACTS == {"benchmarks/baseline_results.json", "benchmarks/BASELINE.md"};
  }

  /** One that is exempt: an artifact on a line of its own, and an empty line. */
  lemma ExemptChange()
    ensures IsBaselineOnly(["benchmarks/BASELINE.md\n", ""])
  {
    var line, name := "benchmarks/BASELINE.md\n", "benchmarks/BASELINE.md";
    var changed := [line, ""];
    assert line[..|line| - 1] == name;
    assert Strip(line) == Strip(name) == name;
    assert changed[0] == line && line in changed && forall f :: f in changed ==> f == line || f == "";
    BaselineOnlyExactly(changed);
  }

  // ---------- What the guard must find ----------

  predicate HigherFinding(f: Finding, scope: Scope, quantity: Quantity, floorMain: map<string, real>,
                          floorPr: map<string, real>, candidate: map<string, real>, baselineOnly: bool)
  {
    var s := f.subject;
    f.scope == scope && f.quantity == quantity
    && match f.check
       case Drift => s in candidate && s in floorPr && candidate[s] > floorPr[s] + EPS
       case Direction => !baselineOnly && s in floorPr && s in floorMain && floorPr[s] < floorMain[s] - EPS
  }

  predicate TokensDrift(s: string, floorPr: map<string, int>, candidate: map<string, int>, slack: real) {
    && s in candidate && s in floorPr && candidate[s] > 0
    && (floorPr[s] - candidate[s]) as real / candidate[s] as real > slack
  }

  predicate TokensRaised(s: string, floorMain: map<string, int>, floorPr: map<string, int>) {
    s in floorPr && s in floorMain && floorPr[s] > floorMain[s]
  }

  predicate GuardFinding(f: Finding, floorMain: FloorSnapshot, floorPr: FloorSnapshot, candidate: FloorSnapshot,
                         baselineOnly: bool, slack: real)
  {
    var s := f.subject;
    match f.quantity
    case Tokens =>
      && f.scope.OfDataset?
      && (if f.check.Drift? then TokensDrift(s, floorPr.tokens, candidate.tokens, slack)
          else !baselineOnly && TokensRaised(s, floorMain.tokens, floorPr.tokens))
    case Coverage =>
      && f.check.Direction? && !baselineOnly
      && (if f.scope.OfDataset? then s in floorMain.tokens && s !in floorPr.tokens
          else s in floorMain.regimes && s !in floorPr.regimes)
    case Recall =>
      HigherFinding(f, OfRegime, Recall, floorMain.regimes, floorPr.regimes, candidate.regimes, baselineOnly)
    case Retention =>
      HigherFinding(f, OfDataset, Retention, floorMain.retention, floorPr.retention, candidate.retention, baselineOnly)
  }

  predicate Empty(s: FloorSnapshot) {
    s.tokens == map[] || s.regimes == map[]
  }

  /** There was something to compare and nothing was found. */
  ghost predicate GuardHolds(floorMain: FloorSnapshot, floorPr: FloorSnapshot, candidate: FloorSnapshot,
                             baselineOnly: bool, slack: real)
  {
    && !Empty(floorMain) && !Empty(floorPr) && !Empty(candidate)
    && forall f :: !GuardFinding(f, floorMain, floorPr, candidate, baselineOnly, slack)
  }

  // ---------- The guard ----------

  method HigherIsBetter(scope: Scope, quantity: Quantity, floorMain: map<string, real>, floorPr: map<string, real>,
                        candidate: map<string, real>, baselineOnly: bool)
    returns (findings: seq<Finding>)
    ensures forall f :: f in findings <==> HigherFinding(f, scope, quantity, floorMain, floorPr, candidate, baselineOnly)
  {
    hide Ascending;
    findings := [];
    var measured := Sorted(candidate.Keys);
    for i := 0 to |measured|
      invariant forall f :: f in findings <==>
                  && f.check.Drift? && HigherFinding(f, scope, quantity, floorMain, floorPr, candidate, baselineOnly)
                  && f.subject in measured[..i]
    {
      var key := measured[i];
      if key in floorPr {
        if candidate[key] > floorPr[key] + EPS {
          findings := findings + [Finding(Drift, scope, key, quantity)];
        }
      }
    }
    var floored := Sorted(floorPr.Keys);
    for i := 0 to |floored|
      invariant forall f :: f in findings <==>
                  && HigherFinding(f, scope, quantity, floorMain, floorPr, candidate, baselineOnly)
                  && (f.check.Drift? || f.subject in floored[..i])
    {
      var key := floored[i];
      if key in floorMain {
        if floorPr[key] < floorMain[key] - EPS && !baselineOnly {
          findings := findings + [Finding(Direction, scope, key, quantity)];
        }
      }
    }
  }

  method TokenDrifts(floorPr: map<string, int>, candidate: map<string, int>, slack: real) returns (findings: seq<Finding>)
    ensures forall f :: f in findings <==>
              f == Finding(Drift, OfDataset, f.subject, Tokens) && TokensDrift(f.subject, floorPr, candidate, slack)
  {
    findings := [];
    var names := Sorted(candidate.Keys);
    for i := 0 to |names|
      invariant forall f :: f in findings <==>
                  && f == Finding(Drift, OfDataset, f.subject, Tokens) && TokensDrift(f.subject, floorPr, candidate, slack)
                  && f.subject in names[..i]
    {
      var name := names[i];
      if name in floorPr {
        var actual := candidate[name];
        if actual > 0 {
          var headroom := (floorPr[name] - actual) as real / actual as real;
          if headroom > slack {
            findings := findings + [Finding(Drift, OfDataset, name, Tokens)];
          }
        }
      }
    }
  }

  /** The names the change drops from the floor. */
  method Retirements(scope: Scope, floorMain: set<string>, floorPr: set<string>, baselineOnly: bool)
    returns (findings: seq<Finding>)
    ensures forall f :: f in findings <==>
              && f == Finding(Direction, scope, f.subject, Coverage) && !baselineOnly
              && f.subject in floorMain && f.subject !in floorPr
  {
    findings := [];
    var names := Sorted(floorMain - floorPr);
    for i := 0 to |names|
      invariant forall f :: f in findings <==>
                  f == Finding(Direction, scope, f.subject, Coverage) && !baselineOnly && f.subject in names[..i]
    {
      if !baselineOnly {
        findings := findings + [Finding(Direction, scope, names[i], Coverage)];
      }
    }
    assert names[..|names|] == names;
  }

  /** The token floors the change raises. The message of such a finding divides by the old floor,
      so a floor raised from zero stops the whole evaluation instead. */
  method TokenRaises(floorMain: map<string, int>, floorPr: map<string, int>, baselineOnly: bool)
    returns (findings: seq<Finding>, byZero: Option<string>)
    ensures byZero.Some? <==> !baselineOnly && exists s :: TokensRaised(s, floorMain, floorPr) && floorMain[s] == 0
    ensures byZero.Some? ==> TokensRaised(byZero.value, floorMain, floorPr) && floorMain[byZero.value] == 0
    ensures byZero.None? ==> forall f :: f in findings <==>
              && f == Finding(Direction, OfDataset, f.subject, Tokens) && !baselineOnly
              && TokensRaised(f.subject, floorMain, floorPr)
  {
    findings, byZero := [], None;
    var names := Sorted(floorPr.Keys);
    for i := 0 to |names|
      invariant !baselineOnly ==> forall s :: s in names[..i] && TokensRaised(s, floorMain, floorPr) ==> floorMain[s] != 0
      invariant forall f :: f in findings <==>
                  && f == Finding(Direction, OfDataset, f.subject, Tokens) && !baselineOnly
                  && TokensRaised(f.subject, floorMain, floorPr) && f.subject in names[..i]
    {
      var name := names[i];
      if name in floorMain {
        if floorPr[name] > floorMain[name] && !baselineOnly {
          if floorMain[name] == 0 {
            assert TokensRaised(name, floorMain, floorPr);
            return [], Some(name);
          }
          findings := findings + [Finding(Direction, OfDataset, name, Tokens)];
        }
      }
    }
  }

  method Evaluate(floorMain: FloorSnapshot, floorPr: FloorSnapshot, candidate: FloorSnapshot, changed: seq<string>, slack: real)
    returns (r: Outcome)
    ensures r.NothingToCompare? <==> Empty(floorMain) || Empty(floorPr) || Empty(candidate)
    ensures r.DividedByZero? ==> !IsBaselineOnly(changed) && TokensRaised(r.name, floorMain.tokens, floorPr.tokens)
                                 && floorMain.tokens[r.name] == 0
    ensures r.Evaluated? ==>
              && r.baselineOnly == IsBaselineOnly(changed)
              && r.datasetsCompared == |candidate.tokens| && r.regimesCompared == |candidate.regimes|
              && (forall f :: f in r.findings <==> GuardFinding(f, floorMain, floorPr, candidate, r.baselineOnly, slack))
              && !exists s :: !r.baselineOnly && TokensRaised(s, floorMain.tokens, floorPr.tokens) && floorMain.tokens[s] == 0
    ensures (r.Evaluated? && r.findings == []) <==> GuardHolds(floorMain, floorPr, candidate, IsBaselineOnly(changed), slack)
  {
    hide TokensRaised, TokensDrift, HigherFinding, IsBaselineOnly;
    if Empty(floorMain) {
      return NothingToCompare(FloorMain);
    }
    if Empty(floorPr) {
      return NothingToCompare(FloorPr);
    }
    if Empty(candidate) {
      return NothingToCompare(Candidate);
    }
    var baselineOnly := IsBaselineOnly(changed);
    var drifts := TokenDrifts(floorPr.tokens, candidate.tokens, slack);
    var retiredDatasets := Retirements(OfDataset, floorMain.tokens.Keys, floorPr.tokens.Keys, baselineOnly);
    var raises, byZero := TokenRaises(floorMain.tokens, floorPr.tokens, baselineOnly);
    if byZero.Some? {
      assert GuardFinding(Finding(Direction, OfDataset, byZero.value, Tokens), floorMain, floorPr, candidate, baselineOnly, slack);
      return DividedByZero(byZero.value);
    }
    var recall := HigherIsBetter(OfRegime, Recall, floorMain.regimes, floorPr.regimes, candidate.regimes, baselineOnly);
    var retiredRegimes := Retirements(OfRegime, floorMain.regimes.Keys, floorPr.regimes.Keys, baselineOnly);
    var retention := HigherIsBetter(OfDataset, Retention, floorMain.retention, floorPr.retention, candidate.retention, baselineOnly);
    var findings := drifts + retiredDatasets + raises + recall + retiredRegimes + retention;
    forall f ensures f in findings <==> GuardFinding(f, floorMain, floorPr, candidate, baselineOnly, slack) {
      HigherFindingKind(f, OfRegime, Recall, floorMain.regimes, floorPr.regimes, candidate.regimes, baselineOnly);
      HigherFindingKind(f, OfDataset, Retention, floorMain.retention, floorPr.retention, candidate.retention, baselineOnly);
    }
    assert findings != [] ==> findings[0] in findings;
    r := Evaluated(findings, |candidate.tokens|, |candidate.regimes|, baselineOnly);
  }

  lemma HigherFindingKind(f: Finding, scope: Scope, quantity: Quantity, floorMain: map<string, real>,
                          floorPr: map<string, real>, candidate: map<string, real>, baselineOnly: bool)
    ensures HigherFinding(f, scope, quantity, floorMain, floorPr, candidate, baselineOnly) ==>
              f.scope == scope && f.quantity == quantity
  {
  }

  // ---------- A floor raised from zero ----------

  function OneFloor(tokens: int): FloorSnapshot {
    FloorSnapshot(map["d" := tokens], map["d" := 1.0], map["r" := 1.0])
  }

  lemma RaisedFromZero()
    ensures !Empty(OneFloor(0)) && !Empty(OneFloor(1)) && !IsBaselineOnly(["engine.py"])
    ensures TokensRaised("d", OneFloor(0).tokens, OneFloor(1).tokens) && OneFloor(0).tokens["d"] == 0
  {
    assert "d" in OneFloor(0).tokens && "r" in OneFloor(0).regimes && "d" in OneFloor(1).tokens && "r" in OneFloor(1).regimes;
    assert ["engine.py"][0] == "engine.py" && Strip("engine.py") == "engine.py";
    OtherFileEndsExemption(["engine.py"], "engine.py");
  }

  /** A change to the engine that raises a token floor from 0 to 1, with a run that measures 1: the
      evaluation divides by zero. */
  method EvaluateRaisedFromZero() returns (r: Outcome)
    ensures r == DividedByZero("d")
  {
    hide Empty, IsBaselineOnly, GuardHolds, GuardFinding;
    RaisedFromZero();
    r := Evaluate(OneFloor(0), OneFloor(1), OneFloor(1), ["engine.py"], TOKEN_SLACK);
  }
}
