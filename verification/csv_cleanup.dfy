/** `simplify_csv` without the file reading and writing: the parsed table goes
    in, and the narrowed, truncated and transformed table (or the "no target
    columns" error) comes out, together with what the function logs about
    missing columns. */
module CsvCleanup {
  import opened Wrappers
  import opened Tables
  import opened ColumnResolution

  /** The `ValueError` raised when none of the requested columns exists. */
  datatype SimplifyError = NoTargetColumnsFound

  /** One entry of the `column_transformations` dict: a column name and the
      text function applied to every cell of that column. */
  type Transform = (string, string -> string)

  /** Dict keys are unique. */
  predicate DistinctKeys(items: seq<Transform>) {
    forall a, b :: 0 <= a < b < |items| ==> items[a].0 != items[b].0
  }

  // ---------------------------------------------------------------------------
  // Selection: `df[existing_columns]`

  function SelectRow(header: seq<string>, row: Row, cols: seq<string>): (r: Row)
    requires |row| == |header|
    requires forall j :: 0 <= j < |cols| ==> cols[j] in header
    ensures |r| == |cols|
  {
    seq(|cols|, j requires 0 <= j < |cols| => row[IndexOf(header, cols[j])])
  }

  /** The table narrowed to `cols`, in the order of `cols`. Every output cell is
      the source cell of the same row under the same column name. */
  function Select(t: Table, cols: seq<string>): (r: Table)
    requires Rectangular(t)
    requires forall j :: 0 <= j < |cols| ==> cols[j] in t.header
    ensures r.header == cols && |r.rows| == |t.rows| && Rectangular(r)
    ensures forall i, j :: 0 <= i < |r.rows| && 0 <= j < |cols| ==> r.rows[i][j] == At(t, i, cols[j])
    ensures forall i, c :: 0 <= i < |r.rows| && c in cols ==> At(r, i, c) == At(t, i, c)
  {
    Table(cols, seq(|t.rows|, i requires 0 <= i < |t.rows| => SelectRow(t.header, t.rows[i], cols)))
  }

  // ---------------------------------------------------------------------------
  // Truncation: `head(max_rows)` when `max_rows > 0`

  function Min(a: int, b: int): int {
    if a <= b then a else b
  }

  /** A positive `maxRows` keeps the first `min(maxRows, |rows|)` rows; zero or a
      negative value keeps the table as it is. Rows are never reordered. */
  function Truncate(t: Table, maxRows: int): (r: Table)
    ensures r.header == t.header
    ensures |r.rows| <= |t.rows| && r.rows == t.rows[..|r.rows|]
    ensures maxRows > 0 ==> |r.rows| == Min(maxRows, |t.rows|)
    ensures maxRows <= 0 ==> r == t
    ensures Rectangular(t) ==> Rectangular(r)
  {
    if maxRows > 0 && |t.rows| > maxRows then Table(t.header, t.rows[..maxRows]) else t
  }

  // ---------------------------------------------------------------------------
  // Transformation: `fillna("").astype(str).apply(f)` per mapped column

  /** The transform registered for `name`, if any: the function of the entry
      named `name`, which is the only such entry when the keys are distinct. */
  function FindTransform(items: seq<Transform>, name: string): (r: Option<string -> string>)
    ensures r.None? <==> forall k :: 0 <= k < |items| ==> items[k].0 != name
    ensures r.Some? ==> exists k :: 0 <= k < |items| && items[k].0 == name && r.value == items[k].1
    ensures DistinctKeys(items) ==>
      forall k :: 0 <= k < |items| && items[k].0 == name ==> r == Some(items[k].1)
  {
    if items == [] then None
    else if items[0].0 == name then Some(items[0].1)
    else FindTransform(items[1..], name)
  }

  /** What a cell of column `name` becomes under the whole mapping: the column's
      function applied to the cell's text (an empty cell reads as ""), or the
      cell unchanged when the mapping has no entry for the column. */
  function TransformedCell(items: seq<Transform>, name: string, cell: Option<string>): Option<string> {
    match FindTransform(items, name)
    case None => cell
    case Some(f) => Some(f(cell.GetOr("")))
  }

  function MapColumn(header: seq<string>, row: Row, name: string, f: string -> string): (r: Row)
    requires |row| == |header|
    ensures |r| == |row|
  {
    seq(|row|, j requires 0 <= j < |row| => if header[j] == name then Some(f(row[j].GetOr(""))) else row[j])
  }

  /** One iteration of the loop at lines 82-86: rewrite column `name` when the
      table has it. */
  function ApplyOne(t: Table, name: string, f: string -> string): (r: Table)
    requires Rectangular(t)
    ensures r.header == t.header && |r.rows| == |t.rows| && Rectangular(r)
    ensures forall i, j :: 0 <= i < |t.rows| && 0 <= j < |t.header| ==>
      r.rows[i][j] == if t.header[j] == name then Some(f(t.rows[i][j].GetOr(""))) else t.rows[i][j]
  {
    if name !in t.header then t
    else Table(t.header, seq(|t.rows|, i requires 0 <= i < |t.rows| => MapColumn(t.header, t.rows[i], name, f)))
  }

  /** The loop at lines 81-86, over the dict's entries in order. Because the keys
      are distinct, each column is rewritten at most once, so the result is the
      cell-by-cell `TransformedCell` of the input: header and row count stay,
      mapped columns get their function, every other column is untouched. */
  function ApplyTransforms(t: Table, items: seq<Transform>): (r: Table)
    requires Rectangular(t)
    requires DistinctKeys(items)
    ensures r.header == t.header && |r.rows| == |t.rows| && Rectangular(r)
    ensures forall i, j :: 0 <= i < |t.rows| && 0 <= j < |t.header| ==>
      r.rows[i][j] == TransformedCell(items, t.header[j], t.rows[i][j])
    decreases |items|
  {
    if items == [] then t
    else
      var t1 := ApplyOne(t, items[0].0, items[0].1);
      var r := ApplyTransforms(t1, items[1..]);
      assert forall i, j :: 0 <= i < |t.rows| && 0 <= j < |t.header| ==>
        r.rows[i][j] == TransformedCell(items, t.header[j], t.rows[i][j]) by {
        forall i, j | 0 <= i < |t.rows| && 0 <= j < |t.header|
          ensures r.rows[i][j] == TransformedCell(items, t.header[j], t.rows[i][j])
        {
          if t.header[j] == items[0].0 {
            assert FindTransform(items[1..], t.header[j]).None?;
          }
        }
      }
      r
  }

  // ---------------------------------------------------------------------------
  // The whole operation

  /** What one call produces: the two lists of lines 45-52, the hints logged at
      lines 59-67, and either the output table or the error of line 70. */
  datatype Run = Run(existing: seq<string>, missing: seq<string>, hints: seq<Hint>,
                     outcome: Result<Table, SimplifyError>)

  /** `simplify_csv` from the parsed table to the table handed to `to_csv`. */
  function SimplifyCsv(t: Table, targets: seq<string>, maxRows: int, transforms: seq<Transform>): (r: Run)
    requires Rectangular(t)
    requires DistinctKeys(transforms)
    ensures r.existing == Present(t.header, targets) && r.missing == Missing(t.header, targets)
    ensures r.hints == Hints(t.header, r.missing)
    ensures r.outcome.Err? <==> forall k :: 0 <= k < |targets| ==> targets[k] !in t.header
    ensures r.outcome.Ok? ==>
      && r.outcome.value.header == r.existing
      && Rectangular(r.outcome.value)
      && |r.outcome.value.rows| == (if maxRows > 0 then Min(maxRows, |t.rows|) else |t.rows|)
  {
    var existing := Present(t.header, targets);
    var missing := Missing(t.header, targets);
    var hints := Hints(t.header, missing);
    forall k | 0 <= k < |targets| ensures targets[k] in existing <==> targets[k] in t.header {
      ResolveMembers(t.header, targets, targets[k]);
    }
    forall j | 0 <= j < |existing| ensures existing[j] in t.header && existing[j] in targets {
      ResolveMembers(t.header, targets, existing[j]);
    }
    assert existing != [] ==> existing[0] in targets && existing[0] in t.header;
    var outcome :=
      if existing == [] then Err(NoTargetColumnsFound)
      else Ok(ApplyTransforms(Truncate(Select(t, existing), maxRows), transforms));
    Run(existing, missing, hints, outcome)
  }

  // ---------------------------------------------------------------------------
  // Properties across the steps

  /** Where every output cell comes from: row `i` of the output is row `i` of the
      input (the rows kept are a prefix), and its cell under column `c` is the
      input's cell under `c`, passed through `c`'s transform when the mapping
      has one. */
  lemma OutputCellSource(t: Table, targets: seq<string>, maxRows: int, transforms: seq<Transform>, i: int, j: int)
    requires Rectangular(t) && DistinctKeys(transforms)
    requires SimplifyCsv(t, targets, maxRows, transforms).outcome.Ok?
    requires var out := SimplifyCsv(t, targets, maxRows, transforms).outcome.value;
      0 <= i < |out.rows| && 0 <= j < |out.header|
    ensures var out := SimplifyCsv(t, targets, maxRows, transforms).outcome.value;
      && i < |t.rows| && out.header[j] in t.header
      && out.rows[i][j] == TransformedCell(transforms, out.header[j], At(t, i, out.header[j]))
  {
    var existing := Present(t.header, targets);
    var selected := Select(t, existing);
    var kept := Truncate(selected, maxRows);
    var out := ApplyTransforms(kept, transforms);
    assert SimplifyCsv(t, targets, maxRows, transforms).outcome.value == out;
    assert out.rows[i][j] == TransformedCell(transforms, existing[j], kept.rows[i][j]);
    assert kept.rows[i] == selected.rows[i];
  }

  /** Without transforms the output is the input narrowed to the present columns
      and cut to the row limit, cell for cell. */
  lemma NoTransformKeepsCells(t: Table, targets: seq<string>, maxRows: int, i: int, c: string)
    requires Rectangular(t)
    requires SimplifyCsv(t, targets, maxRows, []).outcome.Ok?
    requires var out := SimplifyCsv(t, targets, maxRows, []).outcome.value;
      0 <= i < |out.rows| && c in out.header
    ensures var out := SimplifyCsv(t, targets, maxRows, []).outcome.value;
      i < |t.rows| && c in t.header && At(out, i, c) == At(t, i, c)
  {
    var out := SimplifyCsv(t, targets, maxRows, []).outcome.value;
    OutputCellSource(t, targets, maxRows, [], i, IndexOf(out.header, c));
  }

  /** When the table has none of the requested names, the run fails with the
      no-columns error, whatever the row limit and the mapping. */
  lemma NoneFoundFails(t: Table, targets: seq<string>, maxRows: int, transforms: seq<Transform>)
    requires Rectangular(t) && DistinctKeys(transforms)
    requires forall k :: 0 <= k < |targets| ==> targets[k] !in t.header
    ensures SimplifyCsv(t, targets, maxRows, transforms).outcome == Err(NoTargetColumnsFound)
  {
  }

  /** When the table has every requested name and nothing is mapped, nothing is
      missing, the run succeeds, the output header is the request, and every
      kept cell is the input's. */
  lemma AllPresentKeepsCells(t: Table, targets: seq<string>, maxRows: int)
    requires Rectangular(t) && targets != []
    requires forall k :: 0 <= k < |targets| ==> targets[k] in t.header
    ensures var run := SimplifyCsv(t, targets, maxRows, []);
      && run.missing == [] && run.outcome.Ok? && run.outcome.value.header == targets
      && forall i, c :: 0 <= i < |run.outcome.value.rows| && c in targets ==>
           At(run.outcome.value, i, c) == At(t, i, c)
  {
    ResolveExtremes(t.header, targets);
    var out := SimplifyCsv(t, targets, maxRows, []).outcome.value;
    forall i, c | 0 <= i < |out.rows| && c in targets ensures At(out, i, c) == At(t, i, c) {
      NoTransformKeepsCells(t, targets, maxRows, i, c);
    }
  }

  /** Entries named after other columns, wherever they sit in the mapping, do
      not change the transform found for `name`. */
  lemma {:induction false} FindIgnoresOtherKeys(a: seq<Transform>, extra: seq<Transform>, b: seq<Transform>,
                                               name: string)
    requires forall k :: 0 <= k < |extra| ==> extra[k].0 != name
    ensures FindTransform(a + extra + b, name) == FindTransform(a + b, name)
    decreases |a| + |extra|
  {
    if a != [] {
      assert (a + extra + b)[0] == a[0] && (a + b)[0] == a[0];
      assert (a + extra + b)[1..] == a[1..] + extra + b;
      assert (a + b)[1..] == a[1..] + b;
      FindIgnoresOtherKeys(a[1..], extra, b, name);
    } else if extra != [] {
      assert (a + extra + b)[0] == extra[0];
      assert (a + extra + b)[1..] == a + extra[1..] + b;
      FindIgnoresOtherKeys(a, extra[1..], b, name);
    } else {
      assert a + extra + b == a + b;
    }
  }

  /** Dropping entries from a mapping keeps its keys distinct. */
  lemma DropKeepsDistinct(a: seq<Transform>, extra: seq<Transform>, b: seq<Transform>)
    requires DistinctKeys(a + extra + b)
    ensures DistinctKeys(a + b)
  {
    var all, kept := a + extra + b, a + b;
    forall x, y | 0 <= x < y < |kept| ensures kept[x].0 != kept[y].0 {
      var x' := if x < |a| then x else x + |extra|;
      var y' := if y < |a| then y else y + |extra|;
      assert kept[x] == all[x'] && kept[y] == all[y'];
    }
  }

  /** Mapping entries for columns the selected table lacks change nothing,
      wherever they sit in the mapping. */
  lemma UnusedTransformsIgnored(t: Table, a: seq<Transform>, extra: seq<Transform>, b: seq<Transform>)
    requires Rectangular(t) && DistinctKeys(a + extra + b)
    requires forall k :: 0 <= k < |extra| ==> extra[k].0 !in t.header
    ensures DistinctKeys(a + b)
    ensures ApplyTransforms(t, a + extra + b) == ApplyTransforms(t, a + b)
  {
    DropKeepsDistinct(a, extra, b);
    var r1 := ApplyTransforms(t, a + extra + b);
    var r2 := ApplyTransforms(t, a + b);
    forall i | 0 <= i < |t.rows| ensures r1.rows[i] == r2.rows[i] {
      forall j | 0 <= j < |t.header| ensures r1.rows[i][j] == r2.rows[i][j] {
        FindIgnoresOtherKeys(a, extra, b, t.header[j]);
      }
    }
  }

  /** Requested names the table lacks have no effect on the outcome, wherever they
      sit in the request: they only feed the missing list and the hints. */
  lemma MissingTargetsDoNotChangeOutcome(t: Table, a: seq<string>, extra: seq<string>, b: seq<string>,
                                         maxRows: int, transforms: seq<Transform>)
    requires Rectangular(t) && DistinctKeys(transforms)
    requires forall k :: 0 <= k < |extra| ==> extra[k] !in t.header
    ensures SimplifyCsv(t, a + extra + b, maxRows, transforms).outcome
         == SimplifyCsv(t, a + b, maxRows, transforms).outcome
  {
    ResolveSplits(t.header, a + extra, b);
    ResolveSplits(t.header, a, extra);
    ResolveSplits(t.header, a, b);
    if Present(t.header, extra) != [] {
      ResolveMembers(t.header, extra, Present(t.header, extra)[0]);
    }
    assert Present(t.header, a + extra + b) == Present(t.header, a + b);
  }
}
