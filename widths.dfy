/** The column-width computation of basic_table: a fold over the records,
    starting from a zero vector as long as the first record, whose step
    zips the accumulator with a record and keeps, per position, the larger
    of the two (the field measured by `str::len`). Because a zip stops at
    the shorter side, the vector can only shrink. */
module ColumnWidths {
  import opened Text

  /** A record: its fields, in order. */
  type Row = seq<string>

  function Zeros(n: nat): (r: seq<nat>)
    ensures |r| == n && forall i :: 0 <= i < n ==> r[i] == 0
  {
    if n == 0 then [] else Zeros(n - 1) + [0]
  }

  /** One step of the fold: zip the accumulator with the record and keep
      the larger value at each position. */
  function Step(acc: seq<nat>, row: Row): (r: seq<nat>)
    ensures |r| == Min(|acc|, |row|)
    ensures forall i :: 0 <= i < |r| ==>
      acc[i] <= r[i] && ByteLen(row[i]) <= r[i] && (r[i] == acc[i] || r[i] == ByteLen(row[i]))
  {
    seq(Min(|acc|, |row|), i requires 0 <= i < Min(|acc|, |row|) => Max(acc[i], ByteLen(row[i])))
  }

  /** The fold of Step over the records from `init`, written on the last
      record. */
  function Fold(init: seq<nat>, rows: seq<Row>): seq<nat>
  {
    if rows == [] then init else Step(Fold(init, rows[..|rows| - 1]), rows[|rows| - 1])
  }

  /** The widths vector of basic_table. */
  function Widths(rows: seq<Row>): seq<nat>
  {
    Fold(Zeros(if rows == [] then 0 else |rows[0]|), rows)
  }

  /** The smallest field count of any record. */
  function MinFieldCount(rows: seq<Row>): (m: nat)
    requires rows != []
    ensures forall k :: 0 <= k < |rows| ==> m <= |rows[k]|
    ensures exists k :: 0 <= k < |rows| && m == |rows[k]|
  {
    if |rows| == 1 then |rows[0]|
    else
      var front := rows[..|rows| - 1];
      var m := Min(MinFieldCount(front), |rows[|rows| - 1]|);
      assert forall k :: 0 <= k < |front| ==> front[k] == rows[k];
      m
  }

  /** The longest field, in bytes, at position `i` over all records
      (0 when there are none). */
  function ColumnMax(rows: seq<Row>, i: nat): (m: nat)
    requires forall k :: 0 <= k < |rows| ==> i < |rows[k]|
    ensures forall k :: 0 <= k < |rows| ==> ByteLen(rows[k][i]) <= m
    ensures rows == [] ==> m == 0
    ensures rows != [] ==> exists k :: 0 <= k < |rows| && m == ByteLen(rows[k][i])
  {
    if rows == [] then 0
    else
      var front := rows[..|rows| - 1];
      assert forall k :: 0 <= k < |front| ==> front[k] == rows[k];
      Max(ColumnMax(front, i), ByteLen(rows[|rows| - 1][i]))
  }

  /** The fold keeps as many entries as the shortest of the starting
      vector and the records. */
  lemma {:induction false} FoldLength(init: seq<nat>, rows: seq<Row>)
    ensures |Fold(init, rows)| == if rows == [] then |init| else Min(|init|, MinFieldCount(rows))
  {
    if |rows| > 1 {
      var front := rows[..|rows| - 1];
      FoldLength(init, front);
      assert forall k :: 0 <= k < |front| ==> front[k] == rows[k];
    }
  }

  /** Each entry the fold keeps belongs to a column every record has, and
      is the larger of its starting value and that column's maximum. */
  lemma {:induction false} FoldAt(init: seq<nat>, rows: seq<Row>, i: nat)
    requires i < |Fold(init, rows)|
    ensures i < |init|
    ensures forall k :: 0 <= k < |rows| ==> i < |rows[k]|
    ensures Fold(init, rows)[i] == Max(init[i], ColumnMax(rows, i))
  {
    FoldLength(init, rows);
    if rows != [] {
      var front := rows[..|rows| - 1];
      var last := rows[|rows| - 1];
      assert forall k :: 0 <= k < |front| ==> front[k] == rows[k];
      assert Fold(init, rows) == Step(Fold(init, front), last);
      FoldAt(init, front, i);
      assert ColumnMax(rows, i) == Max(ColumnMax(front, i), ByteLen(last[i]));
    }
  }

  /** The widths vector is empty for no records, and otherwise exactly as
      long as the record with the fewest fields. */
  lemma WidthsLength(rows: seq<Row>)
    ensures |Widths(rows)| == if rows == [] then 0 else MinFieldCount(rows)
  {
    FoldLength(Zeros(if rows == [] then 0 else |rows[0]|), rows);
  }

  /** The widths vector is as long as the first record exactly when no
      later record is shorter. */
  lemma WidthsFirstRow(rows: seq<Row>)
    requires rows != []
    ensures |Widths(rows)| == |rows[0]| <==> forall k :: 0 <= k < |rows| ==> |rows[0]| <= |rows[k]|
  {
    WidthsLength(rows);
  }

  /** Each width is a tight bound: no field of its column is longer, and
      some record's field in that column is exactly that long. */
  lemma WidthsTight(rows: seq<Row>, i: nat)
    requires i < |Widths(rows)|
    ensures rows != []
    ensures forall k :: 0 <= k < |rows| ==> i < |rows[k]| && ByteLen(rows[k][i]) <= Widths(rows)[i]
    ensures exists k :: 0 <= k < |rows| && Widths(rows)[i] == ByteLen(rows[k][i])
  {
    WidthsLength(rows);
    FoldAt(Zeros(|rows[0]|), rows, i);
  }

  /** For ASCII records the byte measure is the character count, so each
      width is the longest field of its column in characters. */
  lemma WidthsTightAscii(rows: seq<Row>, i: nat)
    requires i < |Widths(rows)|
    requires forall k, j :: 0 <= k < |rows| && 0 <= j < |rows[k]| ==> IsAscii(rows[k][j])
    ensures forall k :: 0 <= k < |rows| ==> i < |rows[k]| && |rows[k][i]| <= Widths(rows)[i]
    ensures exists k :: 0 <= k < |rows| && Widths(rows)[i] == |rows[k][i]|
  {
    WidthsTight(rows, i);
    var k :| 0 <= k < |rows| && Widths(rows)[i] == ByteLen(rows[k][i]);
    assert IsAscii(rows[k][i]);
  }

  /** A row fits a widths vector when the vector has an entry for each of
      its fields and no field is longer, in bytes, than its entry. */
  predicate Fits(row: Row, widths: seq<nat>) {
    |row| <= |widths| && forall j :: 0 <= j < |row| ==> ByteLen(row[j]) <= widths[j]
  }

  /** Every record that is no longer than the widths vector fits it. */
  lemma WidthsFit(rows: seq<Row>, k: nat)
    requires k < |rows| && |rows[k]| <= |Widths(rows)|
    ensures Fits(rows[k], Widths(rows))
  {
    forall j | 0 <= j < |rows[k]|
      ensures ByteLen(rows[k][j]) <= Widths(rows)[j]
    {
      WidthsTight(rows, j);
    }
  }
}
