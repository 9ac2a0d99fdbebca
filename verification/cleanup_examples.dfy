/** The scenarios of the `simplify_csv` tests, stated against the model. The tables
    are parameters equal to their literals so that the solver does not unfold
    the recursive definitions on literal data. */
module CleanupExamples {
  import opened Wrappers
  import opened Tables
  import opened ColumnResolution
  import opened CsvCleanup

  function Cells(texts: seq<string>): (r: Row)
    ensures |r| == |texts|
    ensures forall k :: 0 <= k < |texts| ==> r[k] == Some(texts[k])
  {
    seq(|texts|, k requires 0 <= k < |texts| => Some(texts[k]))
  }

  /** Three people; asking for Name, Age and Country drops City, keeps the
      requested order and all three rows, and every kept cell is the input's. */
  lemma BasicSelection(t: Table, targets: seq<string>)
    requires t == Table(["Name", "Age", "City", "Country"],
                        [Cells(["John", "25", "NYC", "USA"]),
                         Cells(["Jane", "30", "Paris", "France"]),
                         Cells(["Bob", "35", "London", "UK"])])
    requires targets == ["Name", "Age", "Country"]
    ensures SimplifyCsv(t, targets, 0, []).outcome.Ok?
    ensures var out := SimplifyCsv(t, targets, 0, []).outcome.value;
      && out.header == targets && |out.rows| == 3
      && forall i, c :: 0 <= i < 3 && c in targets ==> At(out, i, c) == At(t, i, c)
  {
    AllPresentKeepsCells(t, targets, 0);
  }

  lemma MissingColumnResolved(header: seq<string>, targets: seq<string>)
    requires header == ["Name", "Age", "City"] && targets == ["Name", "Age", "Country"]
    ensures Present(header, targets) == ["Name", "Age"] && Missing(header, targets) == ["Country"]
  {
    var found, lacking := targets[..2], targets[2..];
    assert targets == found + lacking;
    ResolveSplits(header, found, lacking);
    ResolveExtremes(header, found);
    ResolveExtremes(header, lacking);
  }

  /** Country is not in the file: it is reported missing and the output keeps
      Name and Age for both rows. */
  lemma MissingColumnDropped(t: Table, targets: seq<string>)
    requires t == Table(["Name", "Age", "City"],
                        [Cells(["John", "25", "NYC"]), Cells(["Jane", "30", "Paris"])])
    requires targets == ["Name", "Age", "Country"]
    ensures var run := SimplifyCsv(t, targets, 0, []);
      && run.missing == ["Country"]
      && run.outcome.Ok? && run.outcome.value.header == ["Name", "Age"]
      && |run.outcome.value.rows| == 2
  {
    MissingColumnResolved(t.header, targets);
  }

  /** Neither Country nor Phone is in the file: the run fails and yields no table. */
  lemma NoTargetColumns(t: Table, targets: seq<string>)
    requires t == Table(["Name", "Age", "City"], [Cells(["John", "25", "NYC"])])
    requires targets == ["Country", "Phone"]
    ensures SimplifyCsv(t, targets, 0, []).outcome == Err(NoTargetColumnsFound)
  {
    assert targets[0] !in t.header && targets[1] !in t.header;
    NoneFoundFails(t, targets, 0, []);
  }

  /** The five-row, three-column table of the row-limit tests. */
  predicate FiveRows(t: Table) {
    t == Table(["Header1", "Header2", "Header3"],
               [Cells(["Row1Col1", "Row1Col2", "Row1Col3"]),
                Cells(["Row2Col1", "Row2Col2", "Row2Col3"]),
                Cells(["Row3Col1", "Row3Col2", "Row3Col3"]),
                Cells(["Row4Col1", "Row4Col2", "Row4Col3"]),
                Cells(["Row5Col1", "Row5Col2", "Row5Col3"])])
  }

  /** Five rows, two of three columns: a limit of 3 keeps the first three rows,
      and every kept cell is the input's. */
  lemma RowLimit(t: Table, targets: seq<string>)
    requires FiveRows(t) && targets == ["Header1", "Header2"]
    ensures var limited := SimplifyCsv(t, targets, 3, []).outcome;
      && limited.Ok? && limited.value.header == targets && |limited.value.rows| == 3
      && forall i, c :: 0 <= i < 3 && c in targets ==> At(limited.value, i, c) == At(t, i, c)
  {
    AllPresentKeepsCells(t, targets, 3);
  }

  /** The same table with a limit of 0: all five rows are kept, and every kept
      cell is the input's. */
  lemma NoRowLimit(t: Table, targets: seq<string>)
    requires FiveRows(t) && targets == ["Header1", "Header2"]
    ensures var all := SimplifyCsv(t, targets, 0, []).outcome;
      && all.Ok? && all.value.header == targets && |all.value.rows| == 5
      && forall i, c :: 0 <= i < 5 && c in targets ==> At(all.value, i, c) == At(t, i, c)
  {
    AllPresentKeepsCells(t, targets, 0);
  }
}
