/** The rendering half of basic_table. Every record is written field by
    field into one growing buffer, each field left-justified to its
    column's width plus a one-space gutter; after each record the whole
    buffer is cut back to its `trim_end` and a newline is appended. Indexing
    the widths vector panics when a record has more fields than it has
    entries. */
module BasicTable {
  import opened Text
  import opened ColumnWidths

  /** What basic_table produces: the table text, or the index panic raised
      by `widths[index]` while writing record number `row`. The error arm
      of the Rust `Result` is left out: writing to a `String` cannot fail. */
  datatype Outcome = Table(text: string) | IndexPanic(row: nat, index: nat)

  /** The padded cells of one record, in field order, before trimming:
      each field that has a widths entry, padded to that entry plus one.
      (Fields past the end of `widths` are where the loop panics.) */
  function Cells(row: Row, widths: seq<nat>): string
  {
    if row == [] then []
    else
      var n := |row| - 1;
      if n < |widths| then Cells(row[..n], widths) + PadRight(row[n], widths[n] + 1)
      else Cells(row[..n], widths)
  }

  /** Where column `i` starts: the cells before it take their width plus
      one character each. */
  function Offset(widths: seq<nat>, i: nat): nat
    requires i <= |widths|
  {
    if i == 0 then 0 else Offset(widths, i - 1) + widths[i - 1] + 1
  }

  /** One pass of the outer loop: write the cells into the buffer, cut the
      buffer back to its trimmed length, append a newline. */
  function AppendRow(buf: string, row: Row, widths: seq<nat>): string
  {
    TrimEnd(buf + Cells(row, widths)) + "\n"
  }

  /** The buffer after the outer loop has run over `rows`. */
  function Render(rows: seq<Row>, widths: seq<nat>): string
  {
    if rows == [] then ""
    else AppendRow(Render(rows[..|rows| - 1], widths), rows[|rows| - 1], widths)
  }

  /** The first record with more than `n` fields, or `|rows|` if none. */
  function FirstOverlong(rows: seq<Row>, n: nat): (k: nat)
    ensures k <= |rows|
    ensures forall j :: 0 <= j < k ==> |rows[j]| <= n
    ensures k < |rows| ==> |rows[k]| > n
  {
    if rows == [] then 0
    else if |rows[0]| > n then 0
    else 1 + FirstOverlong(rows[1..], n)
  }

  /** What basic_table returns for `rows`. */
  function Rendering(rows: seq<Row>): Outcome
  {
    var widths := Widths(rows);
    var k := FirstOverlong(rows, |widths|);
    if k < |rows| then IndexPanic(k, |widths|) else Table(Render(rows, widths))
  }

  /** The length of the trimmed buffer, found by scanning back over
      trailing whitespace. */
  method TrimmedLength(s: string) returns (n: nat)
    ensures n == |TrimEnd(s)|
  {
    n := |s|;
    assert s[..n] == s;
    while n > 0 && IsWhitespace(s[n - 1])
      invariant n <= |s|
      invariant TrimEnd(s[..n]) == TrimEnd(s)
    {
      TrimEndDropLast(s, n);
      n := n - 1;
    }
    TrimEndFixed(s[..n]);
  }

  lemma CellsStep(row: Row, widths: seq<nat>, i: nat)
    requires i < |row| && i < |widths|
    ensures Cells(row[..i + 1], widths) == Cells(row[..i], widths) + PadRight(row[i], widths[i] + 1)
  {
    assert row[..i + 1][..i] == row[..i];
  }

  /** Fields from index `i = |widths|` on add no cells. */
  lemma {:induction false} CellsPast(row: Row, widths: seq<nat>, i: nat)
    requires |widths| <= i <= |row|
    ensures Cells(row, widths) == Cells(row[..i], widths)
  {
    if i < |row| {
      CellsPast(row[..|row| - 1], widths, i);
      assert row[..|row| - 1][..i] == row[..i];
    } else {
      assert row[..i] == row;
    }
  }

  lemma RenderStep(rows: seq<Row>, widths: seq<nat>, k: nat)
    requires k < |rows|
    ensures Render(rows[..k + 1], widths) == AppendRow(Render(rows[..k], widths), rows[k], widths)
  {
    assert rows[..k + 1][..k] == rows[..k];
  }

  /** The inner loop of basic_table: writes each field of `record` into
      `output`, padded to its column's width plus one. `fitted` is false
      when the record has a field at index `|widths|`, where `widths[i]`
      panics. */
  method WriteFields(output: string, record: Row, widths: seq<nat>) returns (written: string, fitted: bool)
    ensures fitted <==> |record| <= |widths|
    ensures written == output + Cells(record, widths)
  {
    written := output;
    var i := 0;
    while i < |record|
      invariant i <= |record| && i <= |widths|
      invariant written == output + Cells(record[..i], widths)
    {
      if i >= |widths| {
        CellsPast(record, widths, i);
        return written, false;
      }
      CellsStep(record, widths, i);
      written := written + PadRight(record[i], widths[i] + 1);
      i := i + 1;
    }
    assert record[..i] == record;
    return written, true;
  }

  /** basic_table itself: the nested loops over records and fields that
      append to `output`, and the in-place truncation to `trim_end`. */
  method BasicTable(rows: seq<Row>) returns (out: Outcome)
    ensures out == Rendering(rows)
  {
    var widths := Widths(rows);
    var output: string := "";
    var k := 0;
    while k < |rows|
      invariant k <= |rows|
      invariant k <= FirstOverlong(rows, |widths|)
      invariant output == Render(rows[..k], widths)
    {
      var record := rows[k];
      var fitted;
      output, fitted := WriteFields(output, record, widths);
      if !fitted {
        return IndexPanic(k, |widths|);
      }

      // cut the buffer back to its trimmed length, then add a newline
      var n := TrimmedLength(output);
      output := output[..n];
      output := output + "\n";

      RenderStep(rows, widths, k);
      k := k + 1;
    }
    assert rows[..k] == rows;
    return Table(output);
  }

  // ----- Layout of one record -----

  /** A prefix of a fitting record fits. */
  lemma FitsFront(row: Row, widths: seq<nat>, i: nat)
    requires Fits(row, widths) && i <= |row|
    ensures Fits(row[..i], widths)
  {
    assert forall j :: 0 <= j < i ==> row[..i][j] == row[j];
  }

  /** Each field of a record is written as itself followed by its column's
      width plus one minus its length in spaces, which is always at least
      one space because the width bounds the field's byte length. */
  lemma PaddingExact(rows: seq<Row>, k: nat, i: nat)
    requires k < |rows| && i < |rows[k]| && i < |Widths(rows)|
    ensures 1 <= Widths(rows)[i] + 1 - |rows[k][i]|
    ensures PadRight(rows[k][i], Widths(rows)[i] + 1)
      == rows[k][i] + Spaces(Widths(rows)[i] + 1 - |rows[k][i]|)
  {
    WidthsTight(rows, i);
  }

  /** The cells of a fitting record fill exactly the columns' widths plus
      gutters, whatever the record holds. */
  lemma {:induction false} CellsLength(row: Row, widths: seq<nat>)
    requires Fits(row, widths)
    ensures |Cells(row, widths)| == Offset(widths, |row|)
  {
    if row != [] {
      FitsFront(row, widths, |row| - 1);
      CellsLength(row[..|row| - 1], widths);
    }
  }

  /** The cells of the first `i` fields begin the cells of the record. */
  lemma {:induction false} CellsPrefix(row: Row, widths: seq<nat>, i: nat)
    requires |row| <= |widths| && i <= |row|
    ensures |Cells(row[..i], widths)| <= |Cells(row, widths)|
    ensures Cells(row, widths)[..|Cells(row[..i], widths)|] == Cells(row[..i], widths)
  {
    if i < |row| {
      var front := row[..|row| - 1];
      CellsPrefix(front, widths, i);
      assert front[..i] == row[..i];
    } else {
      assert row[..i] == row;
    }
  }

  /** In the cells of a fitting record, column `i` holds exactly the
      padded field `i`. */
  lemma CellSegment(row: Row, widths: seq<nat>, i: nat)
    requires Fits(row, widths) && i < |row|
    ensures Offset(widths, i + 1) == Offset(widths, i) + widths[i] + 1 <= |Cells(row, widths)|
    ensures Cells(row, widths)[Offset(widths, i)..Offset(widths, i + 1)]
      == PadRight(row[i], widths[i] + 1)
  {
    var head := Cells(row[..i], widths);
    var upto := Cells(row[..i + 1], widths);
    FitsFront(row, widths, i);
    FitsFront(row, widths, i + 1);
    CellsLength(row[..i], widths);
    CellsLength(row[..i + 1], widths);
    CellsPrefix(row, widths, i + 1);
    assert row[..i + 1][..i] == row[..i];
    assert row[..i + 1][i] == row[i];
    assert upto == head + PadRight(row[i], widths[i] + 1);
  }

  /** In the cells of a fitting record, field `i` starts at its column's
      offset and is followed only by spaces up to the next column. */
  lemma CellAt(row: Row, widths: seq<nat>, i: nat)
    requires Fits(row, widths) && i < |row|
    ensures Offset(widths, i) + |row[i]| < Offset(widths, i + 1) <= |Cells(row, widths)|
    ensures Cells(row, widths)[Offset(widths, i)..Offset(widths, i) + |row[i]|] == row[i]
    ensures forall p :: Offset(widths, i) + |row[i]| <= p < Offset(widths, i + 1) ==>
      Cells(row, widths)[p] == ' '
  {
    CellSegment(row, widths, i);
    var c := Cells(row, widths);
    var o := Offset(widths, i);
    var seg := c[o..Offset(widths, i + 1)];
    assert |row[i]| <= widths[i];
    assert c[o..o + |row[i]|] == seg[..|row[i]|];
    forall p | o + |row[i]| <= p < Offset(widths, i + 1)
      ensures c[p] == ' '
    {
      assert c[p] == seg[p - o];
    }
  }

  /** A record is blank when every field is whitespace only (a record with
      no fields is blank). */
  predicate RowBlank(row: Row) {
    forall j :: 0 <= j < |row| ==> Blank(row[j])
  }

  /** The padding is whitespace, so a record's cells are blank exactly when
      the record is. */
  lemma {:induction false} CellsBlank(row: Row, widths: seq<nat>)
    requires |row| <= |widths|
    ensures Blank(Cells(row, widths)) <==> RowBlank(row)
  {
    if row != [] {
      var front := row[..|row| - 1];
      var last := row[|row| - 1];
      var pad := PadRight(last, widths[|row| - 1] + 1);
      assert Cells(row, widths) == Cells(front, widths) + pad;
      CellsBlank(front, widths);
      BlankConcat(Cells(front, widths), pad);
      PadBlank(last, widths[|row| - 1] + 1);
      RowBlankLast(row);
    }
  }

  lemma RowBlankLast(row: Row)
    requires row != []
    ensures RowBlank(row) <==> RowBlank(row[..|row| - 1]) && Blank(row[|row| - 1])
  {
    assert forall j :: 0 <= j < |row| - 1 ==> row[..|row| - 1][j] == row[j];
  }

  /** The printed line of one record: its trimmed cells and a newline. */
  function Line(row: Row, widths: seq<nat>): string
  {
    TrimEnd(Cells(row, widths)) + "\n"
  }

  /** In a record's line, every field that ends in a visible character
      stands complete at its column's offset, so fields appear in field
      order and columns line up across records. */
  lemma LineAt(row: Row, widths: seq<nat>, i: nat)
    requires Fits(row, widths) && i < |row|
    requires row[i] != [] && !IsWhitespace(row[i][|row[i]| - 1])
    ensures Offset(widths, i) + |row[i]| < |Line(row, widths)|
    ensures Line(row, widths)[Offset(widths, i)..Offset(widths, i) + |row[i]|] == row[i]
  {
    CellAt(row, widths, i);
    var c := Cells(row, widths);
    var o := Offset(widths, i);
    var e := o + |row[i]|;
    assert c[e - 1] == row[i][|row[i]| - 1] by {
      assert c[o..e][|row[i]| - 1] == c[e - 1];
    }
    TrimEndSlice(c, o, e);
    SliceOfPrefix(TrimEnd(c), "\n", o, e);
  }

  // ----- The buffer across records -----

  /** The buffer is empty or ends in a newline that is either the whole
      buffer or follows a character that is not whitespace. */
  predicate EndsClean(buf: string) {
    buf == [] || (buf[|buf| - 1] == '\n' && (|buf| == 1 || !IsWhitespace(buf[|buf| - 2])))
  }

  /** After each record the buffer has no whitespace before its final
      newline, and it is empty only when there were no records. */
  lemma RenderEndsClean(rows: seq<Row>, widths: seq<nat>)
    ensures EndsClean(Render(rows, widths))
    ensures Render(rows, widths) == [] <==> rows == []
  {
    if rows != [] {
      var t := TrimEnd(Render(rows[..|rows| - 1], widths) + Cells(rows[|rows| - 1], widths));
      assert Render(rows, widths) == t + "\n";
    }
  }

  /** A blank record leaves a non-empty buffer as it was: trimming eats its
      cells and the previous newline, and the newline is put back. */
  lemma BlankRowKeepsBuffer(buf: string, row: Row, widths: seq<nat>)
    requires |row| <= |widths| && RowBlank(row)
    requires buf != [] && EndsClean(buf)
    ensures AppendRow(buf, row, widths) == buf
  {
    CellsBlank(row, widths);
    TrimEndBlankSuffix(buf, Cells(row, widths));
    var b := buf[..|buf| - 1];
    assert buf == b + "\n";
    TrimEndBlankSuffix(b, "\n");
    TrimEndFixed(b);
  }

  /** A blank record turns an empty buffer into a lone newline. */
  lemma BlankRowOnEmpty(row: Row, widths: seq<nat>)
    requires |row| <= |widths| && RowBlank(row)
    ensures AppendRow([], row, widths) == "\n"
  {
    CellsBlank(row, widths);
    TrimEndBlankSuffix([], Cells(row, widths));
    assert [] + Cells(row, widths) == Cells(row, widths);
  }

  /** A record with a visible character adds exactly its line. */
  lemma VisibleRowAddsLine(buf: string, row: Row, widths: seq<nat>)
    requires |row| <= |widths| && !RowBlank(row)
    ensures AppendRow(buf, row, widths) == buf + Line(row, widths)
  {
    CellsBlank(row, widths);
    TrimEndVisibleSuffix(buf, Cells(row, widths));
  }

  /** The lines of the records that are not blank, in record order. */
  function VisibleLines(rows: seq<Row>, widths: seq<nat>): string
  {
    if rows == [] then ""
    else
      var last := rows[|rows| - 1];
      VisibleLines(rows[..|rows| - 1], widths) + (if RowBlank(last) then "" else Line(last, widths))
  }

  /** The lone newline a blank first record leaves behind. */
  function Lead(rows: seq<Row>): string {
    if rows != [] && RowBlank(rows[0]) then "\n" else ""
  }

  /** What the buffer holds after all records: one line per record that is
      not blank, in record order, preceded by a newline when the first
      record is blank. Blank records after the first add nothing. */
  lemma {:induction false} RenderClosedForm(rows: seq<Row>, widths: seq<nat>)
    requires forall k :: 0 <= k < |rows| ==> |rows[k]| <= |widths|
    ensures Render(rows, widths) == Lead(rows) + VisibleLines(rows, widths)
  {
    if rows != [] {
      var front := rows[..|rows| - 1];
      var last := rows[|rows| - 1];
      assert forall k :: 0 <= k < |front| ==> front[k] == rows[k];
      var buf := Render(front, widths);
      var tail := if RowBlank(last) then "" else Line(last, widths);
      assert Render(rows, widths) == AppendRow(buf, last, widths);
      assert VisibleLines(rows, widths) == VisibleLines(front, widths) + tail;
      if front == [] {
        assert buf == [] && VisibleLines(front, widths) == [];
        assert rows[0] == last;
        if RowBlank(last) {
          BlankRowOnEmpty(last, widths);
          assert Render(rows, widths) == "\n" && Lead(rows) == "\n" && tail == "";
        } else {
          VisibleRowAddsLine(buf, last, widths);
          assert Render(rows, widths) == tail && Lead(rows) == "";
        }
      } else {
        RenderClosedForm(front, widths);
        assert Lead(rows) == Lead(front);
        RenderEndsClean(front, widths);
        if RowBlank(last) {
          BlankRowKeepsBuffer(buf, last, widths);
          assert Render(rows, widths) == buf;
        } else {
          VisibleRowAddsLine(buf, last, widths);
          assert Render(rows, widths) == buf + tail;
        }
        ConcatAssoc(Lead(front), VisibleLines(front, widths), tail);
      }
    }
  }

  /** The lines of all records, in record order. */
  function Lines(rows: seq<Row>, widths: seq<nat>): string
  {
    if rows == [] then "" else Lines(rows[..|rows| - 1], widths) + Line(rows[|rows| - 1], widths)
  }

  /** When no record is blank, the output is one line per record, in
      record order. */
  lemma {:induction false} OneLinePerRow(rows: seq<Row>, widths: seq<nat>)
    requires forall k :: 0 <= k < |rows| ==> |rows[k]| <= |widths|
    requires forall k :: 0 <= k < |rows| ==> !RowBlank(rows[k])
    ensures Render(rows, widths) == Lines(rows, widths)
  {
    if rows != [] {
      var front := rows[..|rows| - 1];
      OneLinePerRow(front, widths);
      VisibleRowAddsLine(Render(front, widths), rows[|rows| - 1], widths);
    }
  }

  /** No visible lines exactly when every record is blank; otherwise there
      are at least a visible character and a newline. */
  lemma {:induction false} VisibleLinesEmpty(rows: seq<Row>, widths: seq<nat>)
    requires forall k :: 0 <= k < |rows| ==> |rows[k]| <= |widths|
    ensures VisibleLines(rows, widths) == [] <==> forall k :: 0 <= k < |rows| ==> RowBlank(rows[k])
    ensures VisibleLines(rows, widths) != [] ==> |VisibleLines(rows, widths)| >= 2
  {
    if rows != [] {
      var front := rows[..|rows| - 1];
      var last := rows[|rows| - 1];
      VisibleLinesEmpty(front, widths);
      assert forall k :: 0 <= k < |front| ==> front[k] == rows[k];
      if !RowBlank(last) {
        CellsBlank(last, widths);
        assert TrimEnd(Cells(last, widths)) != [];
      }
    }
  }

  /** How many records are not blank. */
  function VisibleCount(rows: seq<Row>): nat
  {
    if rows == [] then 0
    else VisibleCount(rows[..|rows| - 1]) + (if RowBlank(rows[|rows| - 1]) then 0 else 1)
  }

  /** No field holds a newline (the reader can yield one from a quoted
      field). */
  predicate NoNewlines(rows: seq<Row>) {
    forall k, j :: 0 <= k < |rows| && 0 <= j < |rows[k]| ==> NewlineCount(rows[k][j]) == 0
  }

  lemma {:induction false} CellsNewlines(row: Row, widths: seq<nat>)
    requires forall j :: 0 <= j < |row| ==> NewlineCount(row[j]) == 0
    ensures NewlineCount(Cells(row, widths)) == 0
  {
    if row != [] {
      var n := |row| - 1;
      CellsNewlines(row[..n], widths);
      if n < |widths| {
        NewlineCountConcat(Cells(row[..n], widths), PadRight(row[n], widths[n] + 1));
        NewlineCountPad(row[n], widths[n] + 1);
      }
    }
  }

  /** A record's line holds exactly one newline, its last character. */
  lemma LineNewlines(row: Row, widths: seq<nat>)
    requires forall j :: 0 <= j < |row| ==> NewlineCount(row[j]) == 0
    ensures NewlineCount(Line(row, widths)) == 1
  {
    CellsNewlines(row, widths);
    NewlineCountTrim(Cells(row, widths));
    NewlineCountConcat(TrimEnd(Cells(row, widths)), "\n");
  }

  /** With newline-free fields, the output has one newline per record that
      is not blank, plus one when the first record is blank; with no blank
      record, exactly one per record. */
  lemma {:induction false} RenderNewlines(rows: seq<Row>, widths: seq<nat>)
    requires forall k :: 0 <= k < |rows| ==> |rows[k]| <= |widths|
    requires NoNewlines(rows)
    ensures NewlineCount(Render(rows, widths)) == |Lead(rows)| + VisibleCount(rows)
    ensures (forall k :: 0 <= k < |rows| ==> !RowBlank(rows[k])) ==>
      NewlineCount(Render(rows, widths)) == |rows|
  {
    RenderClosedForm(rows, widths);
    VisibleNewlines(rows, widths);
    NewlineCountConcat(Lead(rows), VisibleLines(rows, widths));
    assert NewlineCount(Lead(rows)) == |Lead(rows)| by {
      if Lead(rows) != [] { assert Lead(rows)[..0] == []; }
    }
  }

  lemma {:induction false} VisibleNewlines(rows: seq<Row>, widths: seq<nat>)
    requires NoNewlines(rows)
    ensures NewlineCount(VisibleLines(rows, widths)) == VisibleCount(rows)
    ensures (forall k :: 0 <= k < |rows| ==> !RowBlank(rows[k])) ==> VisibleCount(rows) == |rows|
    ensures (forall k :: 0 <= k < |rows| ==> !RowBlank(rows[k])) ==> Lead(rows) == []
  {
    if rows != [] {
      var front := rows[..|rows| - 1];
      var last := rows[|rows| - 1];
      assert forall k :: 0 <= k < |front| ==> front[k] == rows[k];
      VisibleNewlines(front, widths);
      var tail := if RowBlank(last) then "" else Line(last, widths);
      NewlineCountConcat(VisibleLines(front, widths), tail);
      if !RowBlank(last) {
        LineNewlines(last, widths);
      }
    }
  }

  /** Every newline of `s` after the first character follows a character
      that is not whitespace: no line ends in whitespace. */
  predicate CleanBreaks(s: string) {
    forall p :: 0 < p < |s| && s[p] == '\n' ==> !IsWhitespace(s[p - 1])
  }

  /** The line of a record that is not blank, with newline-free fields,
      holds a visible character before its one newline, which ends it. */
  lemma LineShape(row: Row, widths: seq<nat>)
    requires |row| <= |widths| && !RowBlank(row)
    requires forall j :: 0 <= j < |row| ==> NewlineCount(row[j]) == 0
    ensures var l := Line(row, widths);
      |l| >= 2 && !IsWhitespace(l[|l| - 2]) && forall p :: 0 <= p < |l| - 1 ==> l[p] != '\n'
  {
    var c := Cells(row, widths);
    CellsBlank(row, widths);
    assert TrimEnd(c) != [];
    CellsNewlines(row, widths);
    NewlineCountTrim(c);
    NewlineFree(TrimEnd(c));
  }

  lemma CleanAppendLine(a: string, l: string)
    requires CleanBreaks(a)
    requires |l| >= 2 && !IsWhitespace(l[|l| - 2]) && forall p :: 0 <= p < |l| - 1 ==> l[p] != '\n'
    ensures CleanBreaks(a + l)
  {
    var s := a + l;
    forall p | 0 < p < |s| && s[p] == '\n'
      ensures !IsWhitespace(s[p - 1])
    {
      if p < |a| {
        assert s[p] == a[p] && s[p - 1] == a[p - 1];
      } else {
        assert s[p] == l[p - |a|];
        assert p - |a| == |l| - 1;
        assert s[p - 1] == l[|l| - 2];
      }
    }
  }

  lemma {:induction false} CleanVisible(pre: string, rows: seq<Row>, widths: seq<nat>)
    requires CleanBreaks(pre) && NoNewlines(rows)
    requires forall k :: 0 <= k < |rows| ==> |rows[k]| <= |widths|
    ensures CleanBreaks(pre + VisibleLines(rows, widths))
  {
    if rows == [] {
      assert pre + VisibleLines(rows, widths) == pre;
    } else {
      var front := rows[..|rows| - 1];
      var last := rows[|rows| - 1];
      assert forall k :: 0 <= k < |front| ==> front[k] == rows[k];
      CleanVisible(pre, front, widths);
      var done := pre + VisibleLines(front, widths);
      if RowBlank(last) {
        assert pre + VisibleLines(rows, widths) == done;
      } else {
        LineShape(last, widths);
        CleanAppendLine(done, Line(last, widths));
        ConcatAssoc(pre, VisibleLines(front, widths), Line(last, widths));
      }
    }
  }

  // ----- basic_table as a whole -----

  /** basic_table panics exactly when the records do not all have the same
      number of fields, because the widths vector only covers the fewest. */
  lemma RenderingSucceedsIff(rows: seq<Row>)
    ensures Rendering(rows).Table? <==> forall k :: 0 <= k < |rows| ==> |rows[k]| == |rows[0]|
  {
    WidthsLength(rows);
    var w := Widths(rows);
    var k := FirstOverlong(rows, |w|);
    if rows != [] {
      var m := MinFieldCount(rows);
      if k == |rows| {
        var j :| 0 <= j < |rows| && m == |rows[j]|;
        assert |rows[0]| == m;
      } else {
        assert |rows[k]| > |rows[0]| || |rows[0]| != m;
      }
    }
  }

  /** The panic is raised in the first record with more fields than the
      shortest record, at the index one past the shortest record's fields;
      every earlier record has exactly that many fields. */
  lemma RenderingPanic(rows: seq<Row>)
    requires Rendering(rows).IndexPanic?
    ensures rows != [] && Rendering(rows).row < |rows|
    ensures Rendering(rows).index == MinFieldCount(rows) < |rows[Rendering(rows).row]|
    ensures forall j :: 0 <= j < Rendering(rows).row ==> |rows[j]| == MinFieldCount(rows)
  {
    WidthsLength(rows);
  }

  /** When basic_table succeeds, every record fits the widths and the text
      is the closed form of RenderClosedForm. */
  lemma RenderingText(rows: seq<Row>)
    requires Rendering(rows).Table?
    ensures forall k :: 0 <= k < |rows| ==> Fits(rows[k], Widths(rows))
    ensures Rendering(rows).text == Lead(rows) + VisibleLines(rows, Widths(rows))
  {
    forall k | 0 <= k < |rows| ensures Fits(rows[k], Widths(rows)) {
      WidthsFit(rows, k);
    }
    RenderClosedForm(rows, Widths(rows));
  }

  /** With newline-free fields, no line of the text ends in whitespace. */
  lemma NoTrailingWhitespace(rows: seq<Row>)
    requires Rendering(rows).Table? && NoNewlines(rows)
    ensures CleanBreaks(Rendering(rows).text)
  {
    RenderingText(rows);
    CleanVisible(Lead(rows), rows, Widths(rows));
  }

  /** The ending of the text: empty for no records; otherwise a final
      newline after a character that is not whitespace, or the lone string
      "\n" exactly when every record is blank. */
  lemma TerminalNewline(rows: seq<Row>)
    requires Rendering(rows).Table?
    ensures var t := Rendering(rows).text;
      (t == [] <==> rows == [])
      && (rows != [] ==> t[|t| - 1] == '\n' && (|t| == 1 || !IsWhitespace(t[|t| - 2])))
      && (t == "\n" <==> rows != [] && forall k :: 0 <= k < |rows| ==> RowBlank(rows[k]))
  {
    var w := Widths(rows);
    RenderEndsClean(rows, w);
    RenderClosedForm(rows, w);
    VisibleLinesEmpty(rows, w);
  }

  // ----- Worked cases -----

  // The worked cases below are split into small lemmas. A helper whose
  // parameters are pinned by `requires r == [...]` takes its records as
  // parameters only so that the verifier reasons about them symbolically
  // instead of unfolding the literals over and over; the three lemmas without
  // parameters (ExampleAligned, ExampleRagged, ExampleBlankRow) are the
  // worked cases themselves.

  /** The widths of the records of ExampleAligned. */
  lemma ExampleWidths()
    ensures Widths([["a", "bb"], ["ccc", "d"]]) == [3, 2]
  {
    var rows: seq<Row> := [["a", "bb"], ["ccc", "d"]];
    assert ByteLen("a") == 1 && ByteLen("d") == 1;
    assert ByteLen("bb") == 2 by { assert "bb"[..1] == "b"; }
    assert ByteLen("ccc") == 3 by { assert "ccc"[..2] == "cc"; assert "cc"[..1] == "c"; }
    assert Zeros(2) == [0, 0];
    assert rows[..1] == [rows[0]];
    assert Fold([0, 0], rows[..1]) == [1, 2];
  }

  /** The line of a two-field record under widths [3, 2], given its padded
      cells split into the kept text and the trimmed trailing spaces. */
  lemma ExampleLine(row: Row, first: string, second: string, line: string, trail: string)
    requires row == [first, second]
    requires PadRight(first, 4) + PadRight(second, 3) == line + trail && Blank(trail)
    requires line != [] && !IsWhitespace(line[|line| - 1])
    ensures Line(row, [3, 2]) == line + "\n"
  {
    var w: seq<nat> := [3, 2];
    assert row[..1] == [first] && [first][..0] == [];
    assert Cells([first], w) == PadRight(first, 4);
    assert Cells(row, w) == PadRight(first, 4) + PadRight(second, 3);
    TrimEndUnique(line + trail, line);
  }

  /** The first line of ExampleAligned. */
  lemma ExampleFirstLine(r0: Row)
    requires r0 == ["a", "bb"]
    ensures Line(r0, [3, 2]) == "a   bb\n"
  {
    assert Spaces(1) == " " && Spaces(3) == "   ";
    assert PadRight("a", 4) == "a   " && PadRight("bb", 3) == "bb ";
    ExampleLine(r0, "a", "bb", "a   bb", " ");
  }

  /** The second line of ExampleAligned. */
  lemma ExampleSecondLine(r1: Row)
    requires r1 == ["ccc", "d"]
    ensures Line(r1, [3, 2]) == "ccc d\n"
  {
    assert Spaces(1) == " " && Spaces(2) == "  ";
    assert PadRight("ccc", 4) == "ccc " && PadRight("d", 3) == "d  ";
    ExampleLine(r1, "ccc", "d", "ccc d", "  ");
  }

  /** Two records that are not blank give their two lines. */
  lemma TwoVisibleRows(r0: Row, r1: Row, w: seq<nat>)
    requires |r0| <= |w| && |r1| <= |w| && !RowBlank(r0) && !RowBlank(r1)
    ensures Render([r0, r1], w) == Line(r0, w) + Line(r1, w)
  {
    var rows := [r0, r1];
    assert rows[..1] == [r0] && [r0][..0] == [];
    VisibleRowAddsLine("", r0, w);
    assert Render([r0], w) == Line(r0, w);
    VisibleRowAddsLine(Line(r0, w), r1, w);
  }

  /** Neither record of ExampleAligned is blank. */
  lemma ExampleVisible(r0: Row, r1: Row)
    requires r0 == ["a", "bb"] && r1 == ["ccc", "d"]
    ensures !RowBlank(r0) && !RowBlank(r1)
  {
    assert !Blank(r0[0]) by { assert !IsWhitespace(r0[0][0]); }
    assert !Blank(r1[0]) by { assert !IsWhitespace(r1[0][0]); }
  }

  /** The text of ExampleAligned under its widths. */
  lemma ExampleText(r0: Row, r1: Row, w: seq<nat>)
    requires r0 == ["a", "bb"] && r1 == ["ccc", "d"] && w == [3, 2]
    ensures Render([r0, r1], w) == "a   bb\nccc d\n"
  {
    ExampleVisible(r0, r1);
    ExampleFirstLine(r0);
    ExampleSecondLine(r1);
    TwoVisibleRows(r0, r1, w);
  }

  /** Two records: the first column is padded to four characters, the
      second is trimmed after its field. */
  lemma ExampleAligned()
    ensures Widths([["a", "bb"], ["ccc", "d"]]) == [3, 2]
    ensures Rendering([["a", "bb"], ["ccc", "d"]]) == Table("a   bb\nccc d\n")
  {
    var rows: seq<Row> := [["a", "bb"], ["ccc", "d"]];
    ExampleWidths();
    assert FirstOverlong(rows, 2) == 2;
    ExampleText(rows[0], rows[1], [3, 2]);
    assert rows == [rows[0], rows[1]];
  }

  /** Records of different lengths: the widths vector has one entry, so
      writing the second field of the first record panics. */
  lemma ExampleRagged()
    ensures Rendering([["a", "b"], ["c"]]) == IndexPanic(0, 1)
  {
    var rows: seq<Row> := [["a", "b"], ["c"]];
    WidthsLength(rows);
    assert rows[..1] == [rows[0]];
    assert MinFieldCount(rows) == 1;
    assert FirstOverlong(rows, 1) == 0;
  }

  /** A visible record followed by a blank one gives only the first line. */
  lemma BlankSecondRow(r0: Row, r1: Row, w: seq<nat>)
    requires |r0| <= |w| && |r1| <= |w| && !RowBlank(r0) && RowBlank(r1)
    ensures Render([r0, r1], w) == Line(r0, w)
  {
    var rows := [r0, r1];
    assert rows[..1] == [r0] && [r0][..0] == [];
    VisibleRowAddsLine("", r0, w);
    RenderEndsClean([r0], w);
    BlankRowKeepsBuffer(Render([r0], w), r1, w);
  }

  /** The text of ExampleBlankRow under its widths. */
  lemma ExampleBlankText(r0: Row, r1: Row, w: seq<nat>)
    requires r0 == ["a"] && r1 == [" "] && w == [1]
    ensures Render([r0, r1], w) == "a\n"
  {
    assert !RowBlank(r0) by { assert !IsWhitespace(r0[0][0]); }
    assert RowBlank(r1) by { assert Blank(r1[0]); }
    assert r0[..0] == [];
    assert Cells(r0, w) == PadRight("a", 2);
    assert Spaces(1) == " ";
    TrimEndUnique("a ", "a");
    BlankSecondRow(r0, r1, w);
  }

  /** A blank record after the first adds nothing: its own newline is
      trimmed away together with the previous one, which is put back. */
  lemma ExampleBlankRow()
    ensures Rendering([["a"], [" "]]) == Table("a\n")
  {
    var rows: seq<Row> := [["a"], [" "]];
    assert Zeros(1) == [0];
    assert rows[..1] == [rows[0]];
    assert ByteLen("a") == 1 && ByteLen(" ") == 1;
    assert Fold([0], rows[..1]) == [1];
    assert Widths(rows) == Step([1], rows[1]);
    assert Widths(rows) == [1];
    assert FirstOverlong(rows, 1) == 2;
    ExampleBlankText(rows[0], rows[1], [1]);
    assert rows == [rows[0], rows[1]];
  }
}
