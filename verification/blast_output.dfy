/** process_blast_output.py: the rows of BLAST's tabular output (outfmt 6)
    decoded into records, one per row, by column position. */
module BlastOutput {
  import opened Common

  /** One alignment, every field the verbatim text of its column. */
  datatype BlastHit = BlastHit(
    queryId: string,
    chromosome: string,
    percentId: string,
    alignmentLength: string,
    mismatches: string,
    gapOpens: string,
    queryStart: string,
    queryEnd: string,
    subjectStart: string,
    subjectEnd: string,
    evalue: string,
    bitscore: string)

  /** The number of columns a row must have. */
  const COLUMNS := 12

  /** The columns a hit is read from, in their positions 0 to 11. */
  function Columns(h: BlastHit): (r: seq<string>)
    ensures |r| == COLUMNS
  {
    [h.queryId, h.chromosome, h.percentId, h.alignmentLength, h.mismatches, h.gapOpens,
     h.queryStart, h.queryEnd, h.subjectStart, h.subjectEnd, h.evalue, h.bitscore]
  }

  /** format_blast_output_in_dict: the hit of a row, or the IndexError of a
      row with fewer than 12 columns. */
  function FormatRow(row: seq<string>): (r: Result<BlastHit>)
  {
    if |row| < COLUMNS then Failure(ShortRow(row))
    else Success(BlastHit(row[0], row[1], row[2], row[3], row[4], row[5],
                          row[6], row[7], row[8], row[9], row[10], row[11]))
  }

  /** A row decodes exactly when it has at least 12 columns, and then its
      first 12 columns are the hit's fields in order, copied verbatim; later
      columns are ignored. */
  lemma FormatRowColumns(row: seq<string>)
    ensures FormatRow(row).Success? <==> |row| >= COLUMNS
    ensures FormatRow(row).Success? ==> Columns(FormatRow(row).value) == row[..COLUMNS]
    ensures FormatRow(row).Failure? ==> FormatRow(row).error == ShortRow(row)
  {
    if |row| >= COLUMNS {
      assert Columns(FormatRow(row).value) == row[..COLUMNS];
    }
  }

  /** Writing a hit's columns out, with anything after them, and decoding
      the row gives the hit back. */
  lemma FormatRowRoundTrip(h: BlastHit, extra: seq<string>)
    ensures FormatRow(Columns(h) + extra) == Success(h)
  {
  }

  /** process_blast_output: one hit per row, in row order, or the error of
      the first row that is too short. */
  function FormatRows(rows: seq<seq<string>>): (r: Result<seq<BlastHit>>)
    ensures r.Success? ==> |r.value| == |rows|
  {
    if rows == [] then Success([])
    else
      match FormatRows(rows[..|rows| - 1])
      case Failure(e) => Failure(e)
      case Success(hs) =>
        match FormatRow(rows[|rows| - 1])
        case Failure(e) => Failure(e)
        case Success(h) => Success(hs + [h])
  }

  /** The rows decode when every one is long enough, and then the i-th hit
      is the i-th row's; otherwise the first short row is reported. */
  lemma {:induction false} FormatRowsSpec(rows: seq<seq<string>>)
    ensures FormatRows(rows).Success? <==> forall i :: 0 <= i < |rows| ==> |rows[i]| >= COLUMNS
    ensures FormatRows(rows).Success? ==> forall i :: 0 <= i < |rows| ==> FormatRows(rows).value[i] == FormatRow(rows[i]).value
    ensures FormatRows(rows).Failure? ==>
              exists i :: 0 <= i < |rows| && |rows[i]| < COLUMNS && FormatRows(rows).error == ShortRow(rows[i])
                          && (forall j :: 0 <= j < i ==> |rows[j]| >= COLUMNS)
  {
    if rows != [] {
      var init := rows[..|rows| - 1];
      FormatRowsSpec(init);
      assert forall i :: 0 <= i < |init| ==> init[i] == rows[i];
    }
  }

  /** A failure on the first rows is the failure of the whole table. */
  lemma {:induction false} FormatRowsStop(rows: seq<seq<string>>, n: nat)
    requires n <= |rows| && FormatRows(rows[..n]).Failure?
    ensures FormatRows(rows) == FormatRows(rows[..n])
    decreases |rows| - n
  {
    if n == |rows| {
      assert rows[..n] == rows;
    } else {
      assert rows[..n + 1][..n] == rows[..n];
      FormatRowsStop(rows, n + 1);
    }
  }

  /** process_blast_output's loop over the csv rows. */
  method ProcessBlastOutput(rows: seq<seq<string>>) returns (r: Result<seq<BlastHit>>)
    ensures r == FormatRows(rows)
  {
    var blastOutput: seq<BlastHit> := [];
    var i := 0;
    while i < |rows|
      invariant 0 <= i <= |rows|
      invariant FormatRows(rows[..i]) == Success(blastOutput)
    {
      assert rows[..i + 1][..i] == rows[..i];
      var formatted := FormatRow(rows[i]);
      if formatted.Failure? {
        FormatRowsStop(rows, i + 1);
        return Failure(formatted.error);
      }
      blastOutput := blastOutput + [formatted.value];
      i := i + 1;
    }
    assert rows[..|rows|] == rows;
    return Success(blastOutput);
  }
}
