/**
 * The master table of parsed resumes.  Each upload reads the table if one
 * has been written before, appends the new record as its last row and
 * writes the result back.  The table is modelled as its sequence of rows;
 * the CSV file that holds it is not modelled.
 */
module MasterCsv {
  import opened Wrappers
  import opened ResumeParser

  /** The merge of one upload: with no table yet the new record is the
      whole table; otherwise it follows the rows already there, which are
      kept unchanged and in order. */
  function Merge(prior: Option<seq<ParsedRecord>>, row: ParsedRecord): (r: seq<ParsedRecord>)
    ensures |r| == |prior.GetOr([])| + 1
    ensures r[..|r| - 1] == prior.GetOr([])
    ensures r[|r| - 1] == row
  {
    match prior
    case None => [row]
    case Some(rows) => rows + [row]
  }

  /** The table after a series of uploads, one record each. */
  function Uploads(prior: Option<seq<ParsedRecord>>, rows: seq<ParsedRecord>): Option<seq<ParsedRecord>>
    decreases |rows|
  {
    if rows == [] then prior else Uploads(Some(Merge(prior, rows[0])), rows[1..])
  }

  /** Uploads append their records, in upload order, after the rows that
      were there; starting from no table, the table is exactly the uploads. */
  lemma {:induction false} UploadsAppend(prior: Option<seq<ParsedRecord>>, rows: seq<ParsedRecord>)
    requires rows != []
    ensures Uploads(prior, rows) == Some(prior.GetOr([]) + rows)
    decreases |rows|
  {
    var first := Merge(prior, rows[0]);
    assert first == prior.GetOr([]) + [rows[0]];
    if |rows| > 1 {
      UploadsAppend(Some(first), rows[1..]);
      assert first + rows[1..] == prior.GetOr([]) + rows;
    } else {
      assert rows == [rows[0]];
    }
  }

  /** The table as it is stored between uploads: absent until the first
      upload has written it. */
  class MasterTable {
    var stored: Option<seq<ParsedRecord>>

    /** The rows shown and offered for download. */
    function Rows(): seq<ParsedRecord>
      reads this
    {
      stored.GetOr([])
    }

    constructor()
      ensures stored == None
    {
      stored := None;
    }

    /** One upload: merge the new record and write the table back. */
    method Append(row: ParsedRecord)
      modifies this
      ensures stored == Some(Merge(old(stored), row))
      ensures Rows() == old(Rows()) + [row]
    {
      stored := Some(Merge(stored, row));
    }
  }

  /** Two uploads into a fresh table leave exactly the two records, in
      upload order. */
  method TwoUploads(a: ParsedRecord, b: ParsedRecord) returns (rows: seq<ParsedRecord>)
    ensures rows == [a, b]
  {
    var t := new MasterTable();
    t.Append(a);
    t.Append(b);
    rows := t.Rows();
  }
}
