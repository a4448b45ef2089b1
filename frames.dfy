/**
 * An uploaded file after it has been read into a data frame: a header and a
 * sequence of rows, each row mapping column names to cell text. Missing
 * cells have already been replaced by "" (the `fillna("")` step), so every
 * cell the header names reads as a text.
 */
module Frames {
  type Row = map<string, string>

  datatype Table = Table(header: seq<string>, rows: seq<Row>)

  /** What `load_dataframe` gives for an uploaded file: its frame, or an exception from the reader. */
  datatype Loaded = Parsed(table: Table) | Unreadable

  /** `row[column]` for a column of the header; an absent cell reads as "". */
  function Cell(row: Row, column: string): string
  {
    if column in row then row[column] else ""
  }

  /**
   * `check_required_columns`: the required columns the header lacks, in the
   * order of `required`. A column is reported exactly when it is required
   * and absent, so nothing is reported exactly when every required column
   * is present.
   */
  function MissingColumns(header: seq<string>, required: seq<string>): (missing: seq<string>)
    ensures |missing| <= |required|
    ensures forall c :: c in missing <==> c in required && c !in header
    ensures missing == [] <==> forall c :: c in required ==> c in header
  {
    if required == [] then []
    else
      assert forall c :: c in required <==> c == required[0] || c in required[1..];
      (if required[0] in header then [] else [required[0]]) + MissingColumns(header, required[1..])
  }

  /** The missing columns of a concatenation are those of each part, in order. */
  lemma {:induction false} MissingColumnsAppend(header: seq<string>, a: seq<string>, b: seq<string>)
    ensures MissingColumns(header, a + b) == MissingColumns(header, a) + MissingColumns(header, b)
  {
    if a != [] {
      assert (a + b)[0] == a[0];
      assert (a + b)[1..] == a[1..] + b;
      MissingColumnsAppend(header, a[1..], b);
    } else {
      assert a + b == b;
    }
  }
}
