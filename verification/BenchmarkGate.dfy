/** The regression gate: a candidate benchmark run compared against the committed floor. */
module BenchmarkGate {
  import opened Wrappers
  import opened SortedKeys

  /** How far a token count may land above its floor. */
  const TOKEN_SLACK := 0.02
  /** The float-noise guard of the ratio metrics. */
  const EPS := 0.000000001

  datatype DatasetMetrics = DatasetMetrics(tokensAfter: int, retention: real)

  /** A parsed results file: datasets by name, recall by regime. */
  datatype Results = Results(datasets: map<string, DatasetMetrics>, regimes: map<string, real>)

  datatype Verdict = Fail | Improvement | Same

  datatype Note = UnknownName | MissingName | RetentionRegressed | TokensInflated | TokensImproved | RetentionImproved
                | RecallRegressed | RecallImproved

  datatype DatasetRow = DatasetRow(
    name: string, baseline: Option<DatasetMetrics>, candidate: Option<DatasetMetrics>, verdict: Verdict, notes: seq<Note>)

  datatype RegimeRow = RegimeRow(
    key: string, baseline: Option<real>, candidate: Option<real>, verdict: Verdict, notes: seq<Note>)

  datatype Report = Report(datasetRows: seq<DatasetRow>, regimeRows: seq<RegimeRow>)

  function Lookup<V>(m: map<string, V>, k: string): Option<V> {
    if k in m then Some(m[k]) else None
  }

  // ---------- What the gate promises ----------

  predicate DatasetHolds(floor: DatasetMetrics, candidate: DatasetMetrics, slack: real) {
    && candidate.retention >= floor.retention - EPS
    && candidate.tokensAfter as real <= floor.tokensAfter as real * (1.0 + slack)
  }

  /** The candidate covers exactly the floor's names and meets every floor. */
  ghost predicate GateHolds(floor: Results, candidate: Results, slack: real) {
    && floor.datasets.Keys == candidate.datasets.Keys
    && floor.regimes.Keys == candidate.regimes.Keys
    && (forall n :: n in floor.datasets ==> DatasetHolds(floor.datasets[n], candidate.datasets[n], slack))
    && (forall k :: k in floor.regimes ==> candidate.regimes[k] >= floor.regimes[k] - EPS)
  }

  /** What the committed slack forgives: 102 tokens for 100 and a billionth of retention, no more. */
  lemma GateForgives()
    ensures DatasetHolds(DatasetMetrics(100, 1.0), DatasetMetrics(102, 0.999999999), TOKEN_SLACK)
    ensures !DatasetHolds(DatasetMetrics(1000000, 1.0), DatasetMetrics(1020001, 1.0), TOKEN_SLACK)
    ensures !DatasetHolds(DatasetMetrics(100, 1.0), DatasetMetrics(100, 0.9999999989), TOKEN_SLACK)
  {
  }

  /** What a dataset's row must report of the two sides it pairs. */
  ghost predicate DatasetJudged(row: DatasetRow, slack: real) {
    && (row.verdict.Fail? <==>
          !(row.baseline.Some? && row.candidate.Some? && DatasetHolds(row.baseline.value, row.candidate.value, slack)))
    && (UnknownName in row.notes <==> row.baseline.None?)
    && (MissingName in row.notes <==> row.baseline.Some? && row.candidate.None?)
    && (row.baseline.Some? && row.candidate.Some? ==>
          var (was, now) := (row.baseline.value, row.candidate.value);
          && (RetentionRegressed in row.notes <==> now.retention < was.retention - EPS)
          && (TokensInflated in row.notes <==> now.tokensAfter as real > was.tokensAfter as real * (1.0 + slack))
          && (TokensImproved in row.notes <==> !row.verdict.Fail? && now.tokensAfter < was.tokensAfter)
          && (RetentionImproved in row.notes <==> !row.verdict.Fail? && now.retention > was.retention + EPS)
          && (row.verdict.Same? <==> row.notes == []))
  }

  ghost predicate RegimeJudged(row: RegimeRow) {
    && (row.verdict.Fail? <==>
          row.baseline.None? || row.candidate.None? || row.candidate.value < row.baseline.value - EPS)
    && (row.verdict.Improvement? <==>
          row.baseline.Some? && row.candidate.Some? && row.candidate.value > row.baseline.value + EPS)
  }

  function DatasetNames(rows: seq<DatasetRow>): seq<string> {
    seq(|rows|, i requires 0 <= i < |rows| => rows[i].name)
  }

  function RegimeKeys(rows: seq<RegimeRow>): seq<string> {
    seq(|rows|, i requires 0 <= i < |rows| => rows[i].key)
  }

  /** One judged row, in order, for every name on either side. */
  ghost predicate Compares(report: Report, floor: Results, candidate: Results, slack: real) {
    && Ascending(DatasetNames(report.datasetRows)) && Ascending(RegimeKeys(report.regimeRows))
    && (forall n :: n in floor.datasets || n in candidate.datasets <==> n in DatasetNames(report.datasetRows))
    && (forall k :: k in floor.regimes || k in candidate.regimes <==> k in RegimeKeys(report.regimeRows))
    && (forall row :: row in report.datasetRows ==>
          && row.baseline == Lookup(floor.datasets, row.name) && row.candidate == Lookup(candidate.datasets, row.name)
          && DatasetJudged(row, slack))
    && (forall row :: row in report.regimeRows ==>
          && row.baseline == Lookup(floor.regimes, row.key) && row.candidate == Lookup(candidate.regimes, row.key)
          && RegimeJudged(row))
  }

  ghost predicate Passes(report: Report) {
    && (forall row :: row in report.datasetRows ==> !row.verdict.Fail?)
    && (forall row :: row in report.regimeRows ==> !row.verdict.Fail?)
  }

  // ---------- The comparison ----------

  method CompareOneDataset(name: string, baseline: Option<DatasetMetrics>, candidate: Option<DatasetMetrics>, slack: real)
    returns (row: DatasetRow)
    ensures row.name == name && row.baseline == baseline && row.candidate == candidate
    ensures DatasetJudged(row, slack)
  {
    if baseline.None? {
      return DatasetRow(name, None, candidate, Fail, [UnknownName]);
    }
    if candidate.None? {
      return DatasetRow(name, baseline, None, Fail, [MissingName]);
    }
    var was, now := baseline.value, candidate.value;
    var failures: seq<Note> := [];
    if now.retention < was.retention - EPS {
      failures := failures + [RetentionRegressed];
    }
    var ceiling := was.tokensAfter as real * (1.0 + slack);
    if now.tokensAfter as real > ceiling {
      failures := failures + [TokensInflated];
    }
    if failures != [] {
      return DatasetRow(name, baseline, candidate, Fail, failures);
    }
    var improvements: seq<Note> := [];
    if now.tokensAfter < was.tokensAfter {
      improvements := improvements + [TokensImproved];
    }
    if now.retention > was.retention + EPS {
      improvements := improvements + [RetentionImproved];
    }
    row := DatasetRow(name, baseline, candidate, if improvements != [] then Improvement else Same, improvements);
  }

  function CompareOneRegime(key: string, baseline: Option<real>, candidate: Option<real>): (row: RegimeRow)
    ensures row.key == key && row.baseline == baseline && row.candidate == candidate
    ensures RegimeJudged(row)
  {
    if baseline.None? then RegimeRow(key, None, candidate, Fail, [UnknownName])
    else if candidate.None? then RegimeRow(key, baseline, None, Fail, [MissingName])
    else if candidate.value < baseline.value - EPS then RegimeRow(key, baseline, candidate, Fail, [RecallRegressed])
    else if candidate.value > baseline.value + EPS then RegimeRow(key, baseline, candidate, Improvement, [RecallImproved])
    else RegimeRow(key, baseline, candidate, Same, [])
  }

  method CompareDatasets(floor: map<string, DatasetMetrics>, candidate: map<string, DatasetMetrics>, slack: real)
    returns (rows: seq<DatasetRow>)
    ensures Ascending(DatasetNames(rows)) && forall n :: n in floor || n in candidate <==> n in DatasetNames(rows)
    ensures forall row :: row in rows ==>
              && row.baseline == Lookup(floor, row.name) && row.candidate == Lookup(candidate, row.name)
              && DatasetJudged(row, slack)
  {
    hide DatasetJudged, Ascending, Lookup;
    var names := Sorted(floor.Keys + candidate.Keys);
    rows := [];
    for i := 0 to |names|
      invariant DatasetNames(rows) == names[..i]
      invariant forall row :: row in rows ==>
                  && row.baseline == Lookup(floor, row.name) && row.candidate == Lookup(candidate, row.name)
                  && DatasetJudged(row, slack)
    {
      var row := CompareOneDataset(names[i], Lookup(floor, names[i]), Lookup(candidate, names[i]), slack);
      rows := rows + [row];
    }
    assert DatasetNames(rows) == names;
  }

  method Compare(floor: Results, candidate: Results, slack: real) returns (report: Report)
    ensures Compares(report, floor, candidate, slack)
  {
    hide DatasetJudged, RegimeJudged, Ascending, Lookup;
    var datasetRows := CompareDatasets(floor.datasets, candidate.datasets, slack);
    var keys := Sorted(floor.regimes.Keys + candidate.regimes.Keys);
    var regimeRows := seq(|keys|, i requires 0 <= i < |keys| =>
      CompareOneRegime(keys[i], Lookup(floor.regimes, keys[i]), Lookup(candidate.regimes, keys[i])));
    assert RegimeKeys(regimeRows) == keys;
    report := Report(datasetRows, regimeRows);
  }

  function FailingDatasets(rows: seq<DatasetRow>): seq<string> {
    if rows == [] then []
    else
      var last := rows[|rows| - 1];
      FailingDatasets(rows[..|rows| - 1]) + if last.verdict.Fail? then [last.name] else []
  }

  function FailingRegimes(rows: seq<RegimeRow>): seq<string> {
    if rows == [] then []
    else
      var last := rows[|rows| - 1];
      FailingRegimes(rows[..|rows| - 1]) + if last.verdict.Fail? then [last.key] else []
  }

  lemma {:induction false} FailingDatasetsExactly(rows: seq<DatasetRow>)
    ensures forall n :: n in FailingDatasets(rows) <==> exists row :: row in rows && row.verdict.Fail? && row.name == n
  {
    if rows != [] {
      var front, last := rows[..|rows| - 1], rows[|rows| - 1];
      FailingDatasetsExactly(front);
      assert rows == front + [last];
    }
  }

  lemma {:induction false} FailingRegimesExactly(rows: seq<RegimeRow>)
    ensures forall n :: n in FailingRegimes(rows) <==> exists row :: row in rows && row.verdict.Fail? && row.key == n
  {
    if rows != [] {
      var front, last := rows[..|rows| - 1], rows[|rows| - 1];
      FailingRegimesExactly(front);
      assert rows == front + [last];
    }
  }

  lemma FailuresMean(report: Report, failing: seq<string>)
    requires failing == FailingDatasets(report.datasetRows) + FailingRegimes(report.regimeRows)
    ensures failing == [] <==> Passes(report)
    ensures forall n :: n in failing <==>
              || (exists row :: row in report.datasetRows && row.verdict.Fail? && row.name == n)
              || (exists row :: row in report.regimeRows && row.verdict.Fail? && row.key == n)
  {
    hide FailingDatasets, FailingRegimes;
    FailingDatasetsExactly(report.datasetRows);
    FailingRegimesExactly(report.regimeRows);
    if failing == [] {
      forall row | row in report.datasetRows ensures !row.verdict.Fail? {
        assert row.verdict.Fail? ==> row.name in failing;
      }
      forall row | row in report.regimeRows ensures !row.verdict.Fail? {
        assert row.verdict.Fail? ==> row.key in failing;
      }
    } else {
      assert failing[0] in failing;
    }
  }

  /** The names of the failing rows in their order, datasets then regimes. */
  method Failures(report: Report) returns (failing: seq<string>)
    ensures failing == FailingDatasets(report.datasetRows) + FailingRegimes(report.regimeRows)
    ensures failing == [] <==> Passes(report)
    ensures forall n :: n in failing <==>
              || (exists row :: row in report.datasetRows && row.verdict.Fail? && row.name == n)
              || (exists row :: row in report.regimeRows && row.verdict.Fail? && row.key == n)
  {
    hide Passes;
    failing := [];
    for i := 0 to |report.datasetRows|
      invariant failing == FailingDatasets(report.datasetRows[..i])
    {
      assert report.datasetRows[..i + 1][..i] == report.datasetRows[..i];
      if report.datasetRows[i].verdict.Fail? {
        failing := failing + [report.datasetRows[i].name];
      }
    }
    assert report.datasetRows[..|report.datasetRows|] == report.datasetRows;
    for i := 0 to |report.regimeRows|
      invariant failing == FailingDatasets(report.datasetRows) + FailingRegimes(report.regimeRows[..i])
    {
      assert report.regimeRows[..i + 1][..i] == report.regimeRows[..i];
      if report.regimeRows[i].verdict.Fail? {
        failing := failing + [report.regimeRows[i].key];
      }
    }
    assert report.regimeRows[..|report.regimeRows|] == report.regimeRows;
    FailuresMean(report, failing);
  }

  lemma DatasetRowsDecide(report: Report, floor: Results, candidate: Results, slack: real)
    requires Compares(report, floor, candidate, slack)
    ensures (forall row :: row in report.datasetRows ==> !row.verdict.Fail?) <==>
              && floor.datasets.Keys == candidate.datasets.Keys
              && forall n :: n in floor.datasets ==> DatasetHolds(floor.datasets[n], candidate.datasets[n], slack)
  {
    hide DatasetHolds, Ascending, RegimeJudged;
    var names := DatasetNames(report.datasetRows);
    if forall row :: row in report.datasetRows ==> !row.verdict.Fail? {
      forall n | n in names
        ensures n in floor.datasets && n in candidate.datasets
        ensures n in floor.datasets && n in candidate.datasets ==>
                  DatasetHolds(floor.datasets[n], candidate.datasets[n], slack)
      {
        var i :| 0 <= i < |names| && names[i] == n;
        assert report.datasetRows[i] in report.datasetRows;
      }
    }
    forall row | row in report.datasetRows ensures row.name in names {
      var i :| 0 <= i < |report.datasetRows| && report.datasetRows[i] == row;
      assert names[i] == row.name;
    }
  }

  lemma RegimeRowsDecide(report: Report, floor: Results, candidate: Results, slack: real)
    requires Compares(report, floor, candidate, slack)
    ensures (forall row :: row in report.regimeRows ==> !row.verdict.Fail?) <==>
              && floor.regimes.Keys == candidate.regimes.Keys
              && forall k :: k in floor.regimes ==> candidate.regimes[k] >= floor.regimes[k] - EPS
  {
    hide Ascending, DatasetJudged;
    var keys := RegimeKeys(report.regimeRows);
    if forall row :: row in report.regimeRows ==> !row.verdict.Fail? {
      forall k | k in keys
        ensures k in floor.regimes && k in candidate.regimes
        ensures k in floor.regimes && k in candidate.regimes ==> candidate.regimes[k] >= floor.regimes[k] - EPS
      {
        var i :| 0 <= i < |keys| && keys[i] == k;
        assert report.regimeRows[i] in report.regimeRows;
      }
    }
    forall row | row in report.regimeRows ensures row.key in keys {
      var i :| 0 <= i < |report.regimeRows| && report.regimeRows[i] == row;
      assert keys[i] == row.key;
    }
  }

  /** A report without failing rows means exactly that every floor holds and no name is missing
      or unknown. */
  lemma PassesExactly(report: Report, floor: Results, candidate: Results, slack: real)
    requires Compares(report, floor, candidate, slack)
    ensures Passes(report) <==> GateHolds(floor, candidate, slack)
  {
    hide Compares;
    DatasetRowsDecide(report, floor, candidate, slack);
    RegimeRowsDecide(report, floor, candidate, slack);
  }

  /** `ComparisonReport.ok` of a comparison. */
  method Gate(floor: Results, candidate: Results, slack: real) returns (ok: bool)
    ensures ok <==> GateHolds(floor, candidate, slack)
  {
    hide Compares, Passes, GateHolds;
    var report := Compare(floor, candidate, slack);
    var failing := Failures(report);
    PassesExactly(report, floor, candidate, slack);
    ok := failing == [];
  }
}
