/** `truncar_a_25_6k` (src/utils/truncate.py) without the CSV read and write:
    the rows of the frame are a sequence and the written file is the
    `Written` case of the outcome. */
module Truncation {
  import opened RowCount

  /** What one call does: return False and write nothing, or write `rows`
      and return True. */
  datatype Outcome<T> = Unchanged | Written(rows: seq<T>) {

    /** The boolean the source returns. */
    predicate Returned() {
      Written?
    }
  }

  /** Keep the first `MaxValidRows(n)` rows of an `n`-row frame, unless that
      keeps them all. A frame with no rows is not modelled (see README). */
  function Truncate<T>(rows: seq<T>): (r: Outcome<T>)
    requires |rows| >= 1
    ensures r.Unchanged? <==> IsAdmissible(|rows|)
    ensures r.Written? ==> r.rows <= rows
    ensures r.Written? ==> IsAdmissible(|r.rows|)
    ensures r.Written? ==> |rows| - 5 <= |r.rows| < |rows|
  {
    var m := MaxValidRows(|rows|);
    MaxValidRowsFixedIff(|rows|);
    if m >= |rows| then Unchanged else Written(rows[..m])
  }

  /** The written rows are exactly the first `MaxValidRows(n)` rows, in their
      original order: the only admissible prefix within five rows of `n`. */
  lemma TruncateKeepsMaxPrefix<T>(rows: seq<T>)
    requires |rows| >= 1 && Truncate(rows).Written?
    ensures Truncate(rows).rows == rows[..MaxValidRows(|rows|)]
  {
    var out := Truncate(rows).rows;
    MaxValidRowsIsLargest(|rows|, |out|);
    assert MaxValidRows(|rows|) - |out| < 6;
    assert (MaxValidRows(|rows|) - |out|) % 6 == 0;
  }

  /** Truncating a truncated frame reports that nothing is left to do. */
  lemma TruncateIdempotent<T>(rows: seq<T>)
    requires |rows| >= 1 && Truncate(rows).Written?
    ensures |Truncate(rows).rows| >= 1
    ensures Truncate(Truncate(rows).rows) == Unchanged
  {
    TruncateKeepsMaxPrefix(rows);
  }

  /** Frames shorter than 25 rows are not rejected: 24 rows become 19 and
      the call returns True; 1, 7, 13 and 19 rows are left unchanged. */
  lemma TruncateShortFrames<T>(rows: seq<T>)
    requires |rows| in {1, 7, 13, 19, 24}
    ensures |rows| == 24 ==> Truncate(rows) == Written(rows[..19])
    ensures |rows| != 24 ==> !Truncate(rows).Returned()
  {
    if |rows| == 24 {
      TruncateKeepsMaxPrefix(rows);
    }
  }
}
