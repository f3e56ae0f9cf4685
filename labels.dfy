/** Safety labels of intracellular states and the side-effect reports that
    shrink them (`_side_effects_processing`, agents/old/peucrl.py). A label
    set starts as {safe, unsafe}, i.e. unknown; a "safe" report about a cell
    removes `unsafe` from the label set of that cell's current state, an
    "unsafe" report removes `safe`, and every other report value is silent. */
module Labels {

  datatype Label = Safe | Unsafe

  /** The initial, unknown label set. */
  const Unknown: set<Label> := {Safe, Unsafe}

  /** The state is known to be unsafe: its label set is exactly {unsafe}. */
  predicate DefinitelyUnsafe(labels: set<Label>)
  {
    labels == {Unsafe}
  }

  /** Report (r, c) comes before position (row, col) in row-major order. */
  predicate Before(r: int, c: int, row: int, col: int)
  {
    r < row || (r == row && c < col)
  }

  /** Some report before (row, col) says `verdict` about a cell whose
      current state is `state`. */
  predicate ReportedUpTo(reports: seq<seq<string>>, current: seq<int>, n: nat,
                         row: int, col: int, verdict: string, state: int)
    requires n <= |reports| && n <= |current|
    requires forall r :: 0 <= r < n ==> n <= |reports[r]|
  {
    exists r, c :: 0 <= r < n && 0 <= c < n && Before(r, c, row, col) &&
      reports[r][c] == verdict && current[c] == state
  }

  /** The label sets after processing the reports before (row, col). */
  function ProcessReportsUpTo(labels: seq<set<Label>>, reports: seq<seq<string>>,
                              current: seq<int>, n: nat, row: int, col: int): (r: seq<set<Label>>)
    requires n <= |reports| && n <= |current|
    requires forall r :: 0 <= r < n ==> n <= |reports[r]|
    ensures |r| == |labels|
  {
    seq(|labels|, i requires 0 <= i < |labels| =>
      labels[i]
        - (if ReportedUpTo(reports, current, n, row, col, "safe", i) then {Unsafe} else {})
        - (if ReportedUpTo(reports, current, n, row, col, "unsafe", i) then {Safe} else {}))
  }

  /** The label sets after processing the whole n x n report matrix. */
  function ProcessReports(labels: seq<set<Label>>, reports: seq<seq<string>>,
                          current: seq<int>, n: nat): (r: seq<set<Label>>)
    requires n <= |reports| && n <= |current|
    requires forall r :: 0 <= r < n ==> n <= |reports[r]|
    ensures |r| == |labels|
  {
    ProcessReportsUpTo(labels, reports, current, n, n, 0)
  }

  /** Processing reports never adds a label. */
  lemma LabelsOnlyShrink(labels: seq<set<Label>>, reports: seq<seq<string>>, current: seq<int>, n: nat)
    requires n <= |reports| && n <= |current|
    requires forall r :: 0 <= r < n ==> n <= |reports[r]|
    ensures forall i :: 0 <= i < |labels| ==> ProcessReports(labels, reports, current, n)[i] <= labels[i]
  {}

  /** A "safe" report removes `unsafe` from the reported cell's current
      state, an "unsafe" report removes `safe`. */
  lemma ReportsRemoveLabels(labels: seq<set<Label>>, reports: seq<seq<string>>, current: seq<int>,
                            n: nat, r: int, c: int)
    requires n <= |reports| && n <= |current|
    requires forall r :: 0 <= r < n ==> n <= |reports[r]|
    requires 0 <= r < n && 0 <= c < n && 0 <= current[c] < |labels|
    ensures reports[r][c] == "safe" ==> Unsafe !in ProcessReports(labels, reports, current, n)[current[c]]
    ensures reports[r][c] == "unsafe" ==> Safe !in ProcessReports(labels, reports, current, n)[current[c]]
  {
    assert Before(r, c, n, 0);
  }

  /** A label is removed only because some report asked for it; reports that
      are neither "safe" nor "unsafe" change nothing. */
  lemma OnlyReportsRemoveLabels(labels: seq<set<Label>>, reports: seq<seq<string>>, current: seq<int>, n: nat, i: int)
    requires n <= |reports| && n <= |current|
    requires forall r :: 0 <= r < n ==> n <= |reports[r]|
    requires 0 <= i < |labels|
    ensures Unsafe in labels[i] && Unsafe !in ProcessReports(labels, reports, current, n)[i] ==>
      exists r, c :: 0 <= r < n && 0 <= c < n && reports[r][c] == "safe" && current[c] == i
    ensures Safe in labels[i] && Safe !in ProcessReports(labels, reports, current, n)[i] ==>
      exists r, c :: 0 <= r < n && 0 <= c < n && reports[r][c] == "unsafe" && current[c] == i
  {}

  /** Once a state is definitely unsafe it stays so, unless a contradicting
      "safe" report empties its label set. */
  lemma DefinitelyUnsafeIsStable(labels: seq<set<Label>>, reports: seq<seq<string>>, current: seq<int>, n: nat, i: int)
    requires n <= |reports| && n <= |current|
    requires forall r :: 0 <= r < n ==> n <= |reports[r]|
    requires 0 <= i < |labels| && DefinitelyUnsafe(labels[i])
    ensures var after := ProcessReports(labels, reports, current, n)[i];
      DefinitelyUnsafe(after) || after == {}
  {}

  /** The effect of one report on the label sets, as `_side_effects_processing`
      applies it. */
  function ApplyReport(labels: seq<set<Label>>, report: string, state: int): (r: seq<set<Label>>)
    requires 0 <= state < |labels|
    ensures |r| == |labels|
  {
    if report == "safe" then labels[state := labels[state] - {Unsafe}]
    else if report == "unsafe" then labels[state := labels[state] - {Safe}]
    else labels
  }

  /** Processing report (row, col) after those before it. */
  lemma ProcessOneReport(labels: seq<set<Label>>, reports: seq<seq<string>>, current: seq<int>,
                         n: nat, row: int, col: int)
    requires n <= |reports| && n <= |current|
    requires forall r :: 0 <= r < n ==> n <= |reports[r]|
    requires 0 <= row < n && 0 <= col < n && 0 <= current[col] < |labels|
    ensures ProcessReportsUpTo(labels, reports, current, n, row, col + 1) ==
      ApplyReport(ProcessReportsUpTo(labels, reports, current, n, row, col), reports[row][col], current[col])
  {
    var before := ProcessReportsUpTo(labels, reports, current, n, row, col);
    var after := ProcessReportsUpTo(labels, reports, current, n, row, col + 1);
    var applied := ApplyReport(before, reports[row][col], current[col]);
    forall i | 0 <= i < |labels|
      ensures after[i] == applied[i]
    {
      forall v | v == "safe" || v == "unsafe"
        ensures ReportedUpTo(reports, current, n, row, col + 1, v, i) <==>
          ReportedUpTo(reports, current, n, row, col, v, i) || (reports[row][col] == v && current[col] == i)
      {
        if ReportedUpTo(reports, current, n, row, col + 1, v, i) {
          var r, c :| 0 <= r < n && 0 <= c < n && Before(r, c, row, col + 1) &&
            reports[r][c] == v && current[c] == i;
          if !(r == row && c == col) {
            assert Before(r, c, row, col);
          }
        }
        if reports[row][col] == v && current[col] == i {
          assert Before(row, col, row, col + 1);
        }
      }
    }
  }

  /** The end of a row of reports is the start of the next. */
  lemma NextReportRow(labels: seq<set<Label>>, reports: seq<seq<string>>, current: seq<int>, n: nat, row: int)
    requires n <= |reports| && n <= |current|
    requires forall r :: 0 <= r < n ==> n <= |reports[r]|
    ensures ProcessReportsUpTo(labels, reports, current, n, row, n) ==
      ProcessReportsUpTo(labels, reports, current, n, row + 1, 0)
  {
    forall i, v | 0 <= i < |labels|
      ensures ReportedUpTo(reports, current, n, row, n, v, i) <==> ReportedUpTo(reports, current, n, row + 1, 0, v, i)
    {
      if ReportedUpTo(reports, current, n, row + 1, 0, v, i) {
        var r, c :| 0 <= r < n && 0 <= c < n && Before(r, c, row + 1, 0) &&
          reports[r][c] == v && current[c] == i;
        assert Before(r, c, row, n);
      }
    }
  }

  /** Before the first report nothing has changed. */
  lemma NoReportsYet(labels: seq<set<Label>>, reports: seq<seq<string>>, current: seq<int>, n: nat)
    requires n <= |reports| && n <= |current|
    requires forall r :: 0 <= r < n ==> n <= |reports[r]|
    ensures ProcessReportsUpTo(labels, reports, current, n, 0, 0) == labels
  {
    var r := ProcessReportsUpTo(labels, reports, current, n, 0, 0);
    forall i | 0 <= i < |labels| ensures r[i] == labels[i] {
      assert !ReportedUpTo(reports, current, n, 0, 0, "safe", i);
      assert !ReportedUpTo(reports, current, n, 0, 0, "unsafe", i);
    }
  }

  /** The double loop of `_side_effects_processing`: every cell's report
      about every cell's current state, row by row. */
  method ApplyReports(labels: seq<set<Label>>, reports: seq<seq<string>>, current: seq<int>, n: nat)
    returns (r: seq<set<Label>>)
    requires n <= |reports| && n <= |current|
    requires forall row :: 0 <= row < n ==> n <= |reports[row]|
    requires forall c :: 0 <= c < n ==> 0 <= current[c] < |labels|
    ensures r == ProcessReports(labels, reports, current, n)
  {
    r := labels;
    NoReportsYet(labels, reports, current, n);
    for reporting := 0 to n
      invariant r == ProcessReportsUpTo(labels, reports, current, n, reporting, 0)
    {
      for reported := 0 to n
        invariant r == ProcessReportsUpTo(labels, reports, current, n, reporting, reported)
      {
        ProcessOneReport(labels, reports, current, n, reporting, reported);
        var state := current[reported];
        if reports[reporting][reported] == "safe" {
          r := r[state := r[state] - {Unsafe}];
        } else if reports[reporting][reported] == "unsafe" {
          r := r[state := r[state] - {Safe}];
        }
      }
      NextReportRow(labels, reports, current, n, reporting);
    }
  }
}
