/** The concrete configuration used for the Global Dialogues participants file:
    the six requested questions and the sentiment transform on the first one. */
module Participants {
  import opened Wrappers
  import opened Tables
  import opened CsvCleanup
  import opened Sentiment

  const SentimentColumn: string :=
    "Overall, would you say the increased use of artificial intelligence (AI) in daily life makes you feel…"

  const TargetColumns: seq<string> := [
    SentimentColumn,
    "What do you think your life might be like in 30 years? Alt: Imagine life 30 years from now. What's the biggest difference you notice in daily life compared to today? (English)",
    "What is your gender?",
    "How old are you?",
    "What country or region do you most identify with?",
    "What religious group or faith do you most identify with?"
  ]

  const ColumnTransformations: seq<Transform> := [(SentimentColumn, SimplifySentiment)]

  /** The mapping rewrites the sentiment question and nothing else. */
  lemma SentimentOnly(name: string, cell: Option<string>)
    ensures TransformedCell(ColumnTransformations, name, cell) ==
      if name == SentimentColumn then Some(SimplifySentiment(cell.GetOr(""))) else cell
  {
  }

  /** Cell (i, j) of `out` is what the participants configuration makes of the
      input `t`: the sentiment question holds the label of the input answer
      (an empty answer reads as ""), every other column holds the input cell. */
  predicate CellFromInput(t: Table, out: Table, i: int, j: int)
    requires Rectangular(t) && Rectangular(out)
    requires 0 <= i < |out.rows| && 0 <= j < |out.header|
  {
    && i < |t.rows| && out.header[j] in t.header
    && (out.header[j] == SentimentColumn ==>
          out.rows[i][j] == Some(SimplifySentiment(At(t, i, SentimentColumn).GetOr(""))))
    && (out.header[j] != SentimentColumn ==> out.rows[i][j] == At(t, i, out.header[j]))
  }

  /** One output cell of the participants run, described through the generic
      `OutputCellSource` with the concrete mapping filled in. */
  lemma ParticipantCell(t: Table, maxRows: int, i: int, j: int)
    requires Rectangular(t)
    ensures var run := SimplifyCsv(t, TargetColumns, maxRows, ColumnTransformations);
      (run.outcome.Ok? && 0 <= i < |run.outcome.value.rows| && 0 <= j < |run.outcome.value.header| ==>
        Rectangular(run.outcome.value) && CellFromInput(t, run.outcome.value, i, j))
  {
    var run := SimplifyCsv(t, TargetColumns, maxRows, ColumnTransformations);
    if run.outcome.Ok? && 0 <= i < |run.outcome.value.rows| && 0 <= j < |run.outcome.value.header| {
      var out := run.outcome.value;
      OutputCellSource(t, TargetColumns, maxRows, ColumnTransformations, i, j);
      SentimentOnly(out.header[j], At(t, i, out.header[j]));
    }
  }

  /** The call of `simplify_csv` made for the participants file (lines 153-155).
      In its output every cell of the sentiment question holds one of the four
      labels, even where the answer was empty, and every other column is the
      input's column. */
  lemma ParticipantsOutput(t: Table, maxRows: int, run: Run)
    requires Rectangular(t)
    requires run == SimplifyCsv(t, TargetColumns, maxRows, ColumnTransformations)
    ensures run.outcome.Ok? ==> Rectangular(run.outcome.value)
    ensures run.outcome.Ok? ==> var out := run.outcome.value;
      forall i, j :: 0 <= i < |out.rows| && 0 <= j < |out.header| ==>
        CellFromInput(t, out, i, j) && (out.header[j] == SentimentColumn ==> IsLabel(out.rows[i][j].value))
  {
    if run.outcome.Ok? {
      var out := run.outcome.value;
      forall i, j | 0 <= i < |out.rows| && 0 <= j < |out.header|
        ensures CellFromInput(t, out, i, j) && (out.header[j] == SentimentColumn ==> IsLabel(out.rows[i][j].value))
      {
        ParticipantCell(t, maxRows, i, j);
      }
    }
  }
}
