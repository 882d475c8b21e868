/**
 * `guardar_en_csv`: the list file, opened in append mode, receives one
 * single-field row per link.  The file is seen as its sequence of rows; how the
 * `csv` module quotes a field is not part of this model.
 */
module LinkList {
  import opened Wrappers

  /** One CSV record: its fields. */
  type Row = seq<string>

  /** `writer.writerow([link])` for each link, in order. */
  function RowsOf(links: seq<string>): (rows: seq<Row>)
    ensures |rows| == |links|
    ensures forall i :: 0 <= i < |links| ==> rows[i] == [links[i]]
  {
    if links == [] then [] else RowsOf(links[..|links| - 1]) + [[links[|links| - 1]]]
  }

  /** The rows of the file after appending `links` to a file holding `rows`:
      every existing row stays in place and one row per link follows them, in
      the links' order. */
  function Appended(rows: seq<Row>, links: seq<string>): (after: seq<Row>)
    ensures |after| == |rows| + |links|
    ensures after[..|rows|] == rows
    ensures forall i :: 0 <= i < |links| ==> after[|rows| + i] == [links[i]]
  {
    rows + RowsOf(links)
  }

  /** Appending in two batches writes what one batch of both would. */
  lemma RowsOfAppend(a: seq<string>, b: seq<string>)
    ensures RowsOf(a + b) == RowsOf(a) + RowsOf(b)
  {
  }

  /** Saving the same links twice duplicates them: the operation is not
      idempotent unless there is nothing to save. */
  lemma AppendTwice(rows: seq<Row>, links: seq<string>)
    ensures Appended(Appended(rows, links), links) == Appended(rows, links + links)
    ensures Appended(Appended(rows, links), links) == Appended(rows, links) <==> links == []
  {
    RowsOfAppend(links, links);
  }

  /** How many rows reach the file when the row with index `fault` cannot be
      written (index 0: the file cannot even be opened). */
  function RowsWritten(count: nat, fault: Option<nat>): (n: nat)
    ensures n <= count
    ensures fault.None? ==> n == count
    ensures fault.Some? ==> n <= fault.value
  {
    match fault
    case None => count
    case Some(k) => if k < count then k else count
  }

  /** The list file, as the rows it holds. */
  class CsvFile {
    var rows: seq<Row>

    constructor (rows: seq<Row>)
      ensures this.rows == rows
    {
      this.rows := rows;
    }
  }

  /** `guardar_en_csv(links, file_path)`.  `fault` says which write the disk
      refuses, if any; the error is caught and logged, so the call always
      returns, leaving the rows written before it. */
  method SaveToCsv(file: CsvFile, links: seq<string>, fault: Option<nat>)
    modifies file
    ensures file.rows == Appended(old(file.rows), links[..RowsWritten(|links|, fault)])
  {
    var i := 0;
    while i < |links|
      invariant 0 <= i <= |links|
      invariant fault.Some? ==> i <= fault.value
      invariant file.rows == Appended(old(file.rows), links[..i])
    {
      if fault == Some(i) {
        return;
      }
      assert links[..i + 1][..i] == links[..i];
      file.rows := file.rows + [[links[i]]];
      i := i + 1;
    }
    assert links[..i] == links;
  }
}
