/** The gate and the guard together, over a whole sequence of merges. */
module FloorRatchet {
  import opened BenchmarkGate
  import opened FloorGuard

  /** What the guard reads from a results file. */
  function Snapshot(r: Results): FloorSnapshot {
    FloorSnapshot(
      map n | n in r.datasets :: r.datasets[n].tokensAfter,
      map n | n in r.datasets :: r.datasets[n].retention,
      r.regimes)
  }

  /** One merged change: the floor it started from, the floor it commits, what its run measured. */
  datatype Merge = Merge(floorMain: Results, floorPr: Results, candidate: Results, changed: seq<string>)

  ghost predicate Accepted(m: Merge, slack: real) {
    && GateHolds(m.floorPr, m.candidate, slack)
    && GuardHolds(Snapshot(m.floorMain), Snapshot(m.floorPr), Snapshot(m.candidate), IsBaselineOnly(m.changed), slack)
  }

  /** Each merge starts from the floor the one before committed. */
  ghost predicate Chained(merges: seq<Merge>) {
    forall i :: 0 < i < |merges| ==> merges[i].floorMain == merges[i - 1].floorPr
  }

  // ---------- One merge ----------

  /** No name is lost, no token floor rises, no other floor falls by more than `drop`. */
  ghost predicate Keeps(earlier: Results, later: Results, drop: real) {
    && earlier.datasets.Keys <= later.datasets.Keys && earlier.regimes.Keys <= later.regimes.Keys
    && (forall n :: n in earlier.datasets ==>
          && later.datasets[n].tokensAfter <= earlier.datasets[n].tokensAfter
          && later.datasets[n].retention >= earlier.datasets[n].retention - drop)
    && (forall k :: k in earlier.regimes ==> later.regimes[k] >= earlier.regimes[k] - drop)
  }

  /** The run lies in a narrow band around the floor committed with it. */
  ghost predicate Describes(floor: Results, run: Results, slack: real) {
    && (forall n :: n in floor.datasets && n in run.datasets ==>
          && (run.datasets[n].tokensAfter > 0 ==>
                floor.datasets[n].tokensAfter as real <= run.datasets[n].tokensAfter as real * (1.0 + slack))
          && run.datasets[n].retention <= floor.datasets[n].retention + EPS)
    && (forall k :: k in floor.regimes && k in run.regimes ==> run.regimes[k] <= floor.regimes[k] + EPS)
  }

  lemma QuotientBound(a: int, b: int, slack: real)
    requires b > 0
    ensures (a - b) as real / b as real <= slack <==> a as real <= b as real * (1.0 + slack)
  {
    var q := (a - b) as real / b as real;
    assert q * b as real == (a - b) as real;
    if q <= slack {
      assert q * b as real <= slack * b as real;
    } else {
      assert q * b as real > slack * b as real;
    }
  }

  /** A token floor is found to drift exactly when it lies above the slack over a run that measures
      something: a run of no tokens excuses any floor. */
  lemma DriftsExactly(n: string, floor: map<string, int>, run: map<string, int>, slack: real)
    ensures TokensDrift(n, floor, run, slack) <==>
              n in run && n in floor && run[n] > 0 && floor[n] as real > run[n] as real * (1.0 + slack)
  {
    if n in run && n in floor && run[n] > 0 {
      QuotientBound(floor[n], run[n], slack);
    }
  }

  lemma SnapshotEmpty(r: Results)
    ensures Empty(Snapshot(r)) <==> r.datasets == map[] || r.regimes == map[]
  {
    assert Snapshot(r).tokens.Keys == r.datasets.Keys;
  }

  lemma SilentMeansKept(main: Results, pr: Results, run: Results, slack: real)
    requires forall f :: !GuardFinding(f, Snapshot(main), Snapshot(pr), Snapshot(run), false, slack)
    ensures Keeps(main, pr, EPS)
  {
    forall n | n in main.datasets
      ensures n in pr.datasets
      ensures n in pr.datasets ==> pr.datasets[n].tokensAfter <= main.datasets[n].tokensAfter
                                   && pr.datasets[n].retention >= main.datasets[n].retention - EPS
    {
      assert !GuardFinding(Finding(Direction, OfDataset, n, Coverage), Snapshot(main), Snapshot(pr), Snapshot(run), false, slack);
      assert !GuardFinding(Finding(Direction, OfDataset, n, Tokens), Snapshot(main), Snapshot(pr), Snapshot(run), false, slack);
      assert !GuardFinding(Finding(Direction, OfDataset, n, Retention), Snapshot(main), Snapshot(pr), Snapshot(run), false, slack);
    }
    forall k | k in main.regimes
      ensures k in pr.regimes
      ensures k in pr.regimes ==> pr.regimes[k] >= main.regimes[k] - EPS
    {
      assert !GuardFinding(Finding(Direction, OfRegime, k, Coverage), Snapshot(main), Snapshot(pr), Snapshot(run), false, slack);
      assert !GuardFinding(Finding(Direction, OfRegime, k, Recall), Snapshot(main), Snapshot(pr), Snapshot(run), false, slack);
    }
  }

  lemma SilentMeansDescribed(main: Results, pr: Results, run: Results, baselineOnly: bool, slack: real)
    requires forall f :: !GuardFinding(f, Snapshot(main), Snapshot(pr), Snapshot(run), baselineOnly, slack)
    ensures Describes(pr, run, slack)
  {
    forall n | n in pr.datasets && n in run.datasets
      ensures run.datasets[n].tokensAfter > 0 ==>
                pr.datasets[n].tokensAfter as real <= run.datasets[n].tokensAfter as real * (1.0 + slack)
      ensures run.datasets[n].retention <= pr.datasets[n].retention + EPS
    {
      assert !GuardFinding(Finding(Drift, OfDataset, n, Tokens), Snapshot(main), Snapshot(pr), Snapshot(run), baselineOnly, slack);
      assert !GuardFinding(Finding(Drift, OfDataset, n, Retention), Snapshot(main), Snapshot(pr), Snapshot(run), baselineOnly, slack);
      if run.datasets[n].tokensAfter > 0 {
        QuotientBound(pr.datasets[n].tokensAfter, run.datasets[n].tokensAfter, slack);
      }
    }
    forall k | k in pr.regimes && k in run.regimes ensures run.regimes[k] <= pr.regimes[k] + EPS {
      assert !GuardFinding(Finding(Drift, OfRegime, k, Recall), Snapshot(main), Snapshot(pr), Snapshot(run), baselineOnly, slack);
    }
  }

  lemma NothingToFind(main: Results, pr: Results, run: Results, baselineOnly: bool, slack: real, f: Finding)
    requires Describes(pr, run, slack) && (baselineOnly || Keeps(main, pr, EPS))
    ensures !GuardFinding(f, Snapshot(main), Snapshot(pr), Snapshot(run), baselineOnly, slack)
  {
    var s := f.subject;
    if f.quantity.Tokens? && s in pr.datasets && s in run.datasets && run.datasets[s].tokensAfter > 0 {
      QuotientBound(pr.datasets[s].tokensAfter, run.datasets[s].tokensAfter, slack);
    }
  }

  /** What a silent guard means, exactly: the floor describes the run, and unless the change is a
      stand-alone re-floor it kept every floor it started from. */
  lemma GuardMeans(main: Results, pr: Results, run: Results, baselineOnly: bool, slack: real)
    ensures GuardHolds(Snapshot(main), Snapshot(pr), Snapshot(run), baselineOnly, slack) <==>
              && main.datasets != map[] && main.regimes != map[] && pr.datasets != map[] && pr.regimes != map[]
              && run.datasets != map[] && run.regimes != map[]
              && Describes(pr, run, slack) && (baselineOnly || Keeps(main, pr, EPS))
  {
    hide GuardFinding, Snapshot, Describes, Keeps, Empty;
    SnapshotEmpty(main);
    SnapshotEmpty(pr);
    SnapshotEmpty(run);
    if GuardHolds(Snapshot(main), Snapshot(pr), Snapshot(run), baselineOnly, slack) {
      SilentMeansDescribed(main, pr, run, baselineOnly, slack);
      if !baselineOnly {
        SilentMeansKept(main, pr, run, slack);
      }
    } else if Describes(pr, run, slack) && (baselineOnly || Keeps(main, pr, EPS)) {
      forall f ensures !GuardFinding(f, Snapshot(main), Snapshot(pr), Snapshot(run), baselineOnly, slack) {
        NothingToFind(main, pr, run, baselineOnly, slack, f);
      }
    }
  }

  /** Regenerating the floor from the run makes the gate compare the run with itself: it passes
      whatever happened. Only the guard still sees what the change cost. */
  lemma RegeneratedFloorBlindsTheGate(main: Results, run: Results, slack: real)
    requires slack >= 0.0 && forall n :: n in run.datasets ==> run.datasets[n].tokensAfter >= 0
    requires main.datasets != map[] && main.regimes != map[] && run.datasets != map[] && run.regimes != map[]
    ensures GateHolds(run, run, slack)
    ensures GuardHolds(Snapshot(main), Snapshot(run), Snapshot(run), false, slack) <==> Keeps(main, run, EPS)
  {
    GuardMeans(main, run, run, false, slack);
    forall n | n in run.datasets
      ensures run.datasets[n].tokensAfter as real <= run.datasets[n].tokensAfter as real * (1.0 + slack)
    {
      assert run.datasets[n].tokensAfter as real * slack >= 0.0;
    }
  }

  // ---------- A whole sequence of merges ----------

  lemma KeepsChain(a: Results, b: Results, c: Results, d0: real, d1: real)
    requires Keeps(a, b, d0) && Keeps(b, c, d1)
    ensures Keeps(a, c, d0 + d1)
  {
  }

  /** How far a measured run may fall behind a floor. */
  ghost predicate Meets(floor: Results, run: Results, slack: real, drop: real) {
    && floor.datasets.Keys <= run.datasets.Keys && floor.regimes.Keys <= run.regimes.Keys
    && (forall n :: n in floor.datasets ==>
          && run.datasets[n].tokensAfter as real <= floor.datasets[n].tokensAfter as real * (1.0 + slack)
          && run.datasets[n].retention >= floor.datasets[n].retention - drop)
    && (forall k :: k in floor.regimes ==> run.regimes[k] >= floor.regimes[k] - drop)
  }

  lemma MeetsEarlier(first: Results, floor: Results, run: Results, slack: real, drop: real)
    requires slack >= 0.0 && Keeps(first, floor, drop) && GateHolds(floor, run, slack)
    ensures Meets(first, run, slack, drop + EPS)
  {
    forall n | n in first.datasets
      ensures run.datasets[n].tokensAfter as real <= first.datasets[n].tokensAfter as real * (1.0 + slack)
    {
      assert DatasetHolds(floor.datasets[n], run.datasets[n], slack);
      assert floor.datasets[n].tokensAfter as real * (1.0 + slack) <= first.datasets[n].tokensAfter as real * (1.0 + slack);
    }
    forall n | n in first.datasets ensures run.datasets[n].retention >= first.datasets[n].retention - (drop + EPS) {
      assert DatasetHolds(floor.datasets[n], run.datasets[n], slack);
    }
  }

  /** The ratchet. Over any sequence of accepted merges, none a stand-alone re-floor, no dataset
      and no regime is ever lost; every measured run stays within one slack of the very first token
      floor, never a compounding of slacks; and after n merges retention and recall have fallen by
      at most n + 1 epsilons. */
  lemma {:induction false} Ratchet(merges: seq<Merge>, i: nat, slack: real)
    requires slack >= 0.0 && Chained(merges) && i < |merges|
    requires forall j :: 0 <= j <= i ==> Accepted(merges[j], slack) && !IsBaselineOnly(merges[j].changed)
    ensures Keeps(merges[0].floorMain, merges[i].floorPr, (i + 1) as real * EPS)
    ensures Meets(merges[0].floorMain, merges[i].candidate, slack, (i + 2) as real * EPS)
    ensures Describes(merges[i].floorPr, merges[i].candidate, slack)
  {
    hide Keeps, Meets, Describes, GateHolds, GuardHolds, IsBaselineOnly;
    var m := merges[i];
    assert Accepted(m, slack);
    GuardMeans(m.floorMain, m.floorPr, m.candidate, false, slack);
    if i > 0 {
      Ratchet(merges, i - 1, slack);
      KeepsChain(merges[0].floorMain, m.floorMain, m.floorPr, i as real * EPS, EPS);
    }
    MeetsEarlier(merges[0].floorMain, m.floorPr, m.candidate, slack, (i + 1) as real * EPS);
  }

  // ---------- The bound is reached ----------

  function Single(retention: real): Results {
    Results(map["d" := DatasetMetrics(100, retention)], map["r" := retention])
  }

  function SlidingMerge(i: nat): Merge {
    Merge(Single(1.0 - i as real * EPS), Single(1.0 - (i + 1) as real * EPS), Single(1.0 - (i + 2) as real * EPS), ["engine.py"])
  }

  /** Merges that each give away exactly what is forgiven. */
  function Sliding(n: nat): seq<Merge> {
    seq(n, i requires 0 <= i => SlidingMerge(i))
  }

  lemma SingleIsSomething(a: real)
    ensures Single(a).datasets != map[] && Single(a).regimes != map[]
  {
    assert "d" in Single(a).datasets && "r" in Single(a).regimes;
  }

  lemma SinglesHold(a: real, b: real, c: real)
    requires b == a - EPS && c == b - EPS
    ensures Keeps(Single(a), Single(b), EPS) && Describes(Single(b), Single(c), TOKEN_SLACK)
    ensures GateHolds(Single(b), Single(c), TOKEN_SLACK)
  {
  }

  lemma NotExempt(changed: seq<string>)
    requires changed == ["engine.py"]
    ensures !IsBaselineOnly(changed)
  {
    assert changed[0] == "engine.py" && Strip("engine.py") == "engine.py";
    OtherFileEndsExemption(changed, "engine.py");
  }

  lemma SlidingAccepted(i: nat)
    ensures Accepted(SlidingMerge(i), TOKEN_SLACK) && !IsBaselineOnly(SlidingMerge(i).changed)
  {
    hide Keeps, Describes, GateHolds, GuardHolds, Snapshot, IsBaselineOnly;
    var m := SlidingMerge(i);
    NotExempt(m.changed);
    SingleIsSomething(1.0 - i as real * EPS);
    SingleIsSomething(1.0 - (i + 1) as real * EPS);
    SingleIsSomething(1.0 - (i + 2) as real * EPS);
    SinglesHold(1.0 - i as real * EPS, 1.0 - (i + 1) as real * EPS, 1.0 - (i + 2) as real * EPS);
    GuardMeans(m.floorMain, m.floorPr, m.candidate, false, TOKEN_SLACK);
  }

  /** No smaller bound would do: for every n there are n accepted merges that lose it all. */
  lemma BoundIsReached(n: nat)
    requires n > 0
    ensures Chained(Sliding(n))
    ensures forall j :: 0 <= j < n ==> Accepted(Sliding(n)[j], TOKEN_SLACK) && !IsBaselineOnly(Sliding(n)[j].changed)
    ensures Sliding(n)[0].floorMain == Single(1.0) && Sliding(n)[n - 1].candidate == Single(1.0 - (n + 1) as real * EPS)
  {
    hide Accepted, IsBaselineOnly, Single;
    forall j | 0 <= j < n
      ensures Accepted(Sliding(n)[j], TOKEN_SLACK) && !IsBaselineOnly(Sliding(n)[j].changed)
    {
      SlidingAccepted(j);
    }
  }

  // ---------- A run of no tokens ----------

  function Measuring(tokens: int): Results {
    Results(map["d" := DatasetMetrics(tokens, 1.0)], map["r" := 1.0])
  }

  lemma TokensAreSomething(tokens: int)
    ensures Measuring(tokens).datasets != map[] && Measuring(tokens).regimes != map[]
  {
    assert "d" in Measuring(tokens).datasets && "r" in Measuring(tokens).regimes;
  }

  /** However high the committed floor, a run that measures no tokens passes gate and guard. */
  lemma NoTokensHideAnyFloor(floor: nat, slack: real)
    requires slack >= 0.0
    ensures GateHolds(Measuring(floor), Measuring(0), slack)
    ensures GuardHolds(Snapshot(Measuring(floor)), Snapshot(Measuring(floor)), Snapshot(Measuring(0)), false, slack)
  {
    assert floor as real * (1.0 + slack) >= 0.0;
    TokensAreSomething(floor);
    TokensAreSomething(0);
    GuardMeans(Measuring(floor), Measuring(floor), Measuring(0), false, slack);
  }
}
