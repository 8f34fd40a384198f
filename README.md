# rtab `basic_table` in Dafny

rtab reads a CSV file and prints its records as a table whose columns are
left-aligned. This project models `basic_table` (`src/main.rs`), the function
that turns the parsed records into that text, and proves what the text looks
like.

`basic_table` works in two steps:

- **Column widths** (module `ColumnWidths`, `widths.dfy`). `Widths` is a fold
  over the records. It starts from a zero vector as long as the first record.
  Each step zips the accumulator with the next record and keeps the larger of
  the two values at each position. `str::len` measures a field, and it counts
  UTF-8 bytes. `zip` stops at the shorter side, so the vector ends up as long
  as the record with the FEWEST fields.
- **Rendering** (module `BasicTable`, `basic_table.dfy`). The method
  `BasicTable` keeps the source's nested loops and its mutable buffer:
  - each field is written left-justified with `{:width$}`, padded to
    `widths[i] + 1` characters;
  - after each record the whole buffer is truncated to its `trim_end` and a
    newline is appended;
  - when a record has more fields than the widths vector has entries,
    indexing `widths[i]` panics. The model returns
    `Outcome.IndexPanic(row, index)` for this case.

  `WriteFields` (the inner loop) and `TrimmedLength` (the length of the trimmed buffer) are
  methods with loops. All three are proved against specification functions:
  - `Cells`: the padded fields of one record;
  - `AppendRow`: one pass of the outer loop;
  - `Render`: the buffer after all records;
  - `Rendering`: the outcome.

  The lemmas are then proved about those functions.

`Text` (`text.dfy`) models the Rust string operations the core relies on:
- `char::is_whitespace`, which tests the Unicode White_Space property;
- `str::trim_end`;
- `str::len`, as a UTF-8 byte count;
- padding by `{:width$}`, which counts characters.

Strings are sequences of Unicode scalar values.

Some behaviours of the code that the lemmas pin down:
- The widths vector has the length of the SHORTEST record, not of the first
  one. So `basic_table` panics exactly when the records do not all have the
  same number of fields (`RenderingSucceedsIff`). The panic happens in the
  first record longer than the shortest one. The vector can be shorter than
  the first record, and widths are bytes, not characters.
- The whole buffer is trimmed, not just the record that was written. So a
  blank record (every field whitespace) after the first adds nothing: its
  cells and the previous newline are trimmed away, and the newline is put
  back. A blank first record leaves a lone newline. `RenderClosedForm` states
  this as "an optional leading newline, then one line per record that is not
  blank".
- Widths are measured in bytes, but padding counts characters. For a field
  with non-ASCII characters the cell is exactly as wide as it is for ASCII
  text, because a field has no more characters than bytes. The width is then
  no longer the longest field in characters, so its column may carry extra
  spaces. `WidthsTight` is the byte statement, `WidthsTightAscii` the
  character statement.

## Model

| member | source | states |
|---|---|---|
| Text.TrimEnd | src/main.rs:71 | the trimmed text is a prefix of the input, does not end in whitespace, and leaves only whitespace behind it |
| Text.TrimEndUnique | src/main.rs:71 | those three properties determine the trimmed text |
| Text.TrimEndFixed | src/main.rs:71 | trimming changes nothing exactly when the text is empty or ends in a non-whitespace character |
| Text.TrimEndBlankSuffix | src/main.rs:71 | appending only whitespace to a buffer does not change its trimmed form |
| Text.TrimEndVisibleSuffix | src/main.rs:71 | appending text with a visible character keeps the buffer whole and trims only the appended part |
| Text.Utf8Len | src/main.rs:59 | a character's UTF-8 encoding takes 1 to 4 bytes, and 1 exactly for ASCII |
| Text.ByteLen | src/main.rs:59 | `len()` is never less than the character count, and equals it exactly for ASCII text |
| Text.PadRight | src/main.rs:67 | `{:width$}` keeps the field as a prefix, fills with spaces up to the width, and never truncates |
| ColumnWidths.Step | src/main.rs:57-60 | a fold step is as long as the shorter of accumulator and record; each entry is at least both operands and equal to one of them |
| ColumnWidths.FoldLength | src/main.rs:56-61 | the fold keeps as many entries as the shortest of the starting vector and the records |
| ColumnWidths.FoldAt | src/main.rs:56-61 | each kept entry belongs to a column every record has, and is the larger of its start value and that column's maximum |
| ColumnWidths.WidthsLength | src/main.rs:53-61 | the widths vector is empty for no records, and otherwise as long as the record with the fewest fields |
| ColumnWidths.WidthsFirstRow | src/main.rs:53-61 | the widths vector is as long as the first record exactly when no later record is shorter |
| ColumnWidths.WidthsTight | src/main.rs:56-60 | each width bounds the byte length of its column's field in every record, and equals one of them (so it is 0 when all are empty) |
| ColumnWidths.WidthsTightAscii | src/main.rs:59 | for ASCII records each width is the longest field of its column in characters |
| ColumnWidths.WidthsFit | src/main.rs:56-61 | a record with no more fields than the widths vector has each field within its width |
| BasicTable.FirstOverlong | src/main.rs:65-67 | the first record with more fields than a bound, or the record count when there is none |
| BasicTable.TrimmedLength | src/main.rs:71 | the backward scan over trailing whitespace yields the length of the trimmed buffer |
| BasicTable.WriteFields | src/main.rs:66-68 | the inner loop appends the record's padded cells to the buffer, and reports a panic exactly when the record is longer than the widths vector |
| BasicTable.BasicTable | src/main.rs:51-76 | the method's outcome is `Rendering`: a table whose text is `Render` of the records, or the panic at the first record longer than the widths vector |
| BasicTable.PaddingExact | src/main.rs:67 | each field is written as itself followed by width + 1 − length spaces, which is at least one space |
| BasicTable.CellsLength | src/main.rs:66-68 | the cells of a fitting record are exactly as long as the widths plus one gutter per field |
| BasicTable.CellSegment | src/main.rs:66-68 | in the cells of a fitting record, column i holds exactly the padded field i |
| BasicTable.CellAt | src/main.rs:66-68 | field i starts at its column's offset and is followed only by spaces up to the next column |
| BasicTable.CellsBlank | src/main.rs:67 | a record's cells are all whitespace exactly when all its fields are |
| BasicTable.LineAt | src/main.rs:65-73 | in a record's printed line, each field ending in a visible character stands whole at its column's offset (in field order, aligned across records) |
| BasicTable.RenderEndsClean | src/main.rs:70-72 | after each record the buffer ends in a newline that is the whole buffer or follows a non-whitespace character; it is empty only for no records |
| BasicTable.BlankRowKeepsBuffer | src/main.rs:70-72 | a blank record leaves a non-empty buffer unchanged, swallowing its own line break |
| BasicTable.BlankRowOnEmpty | src/main.rs:70-72 | a blank record turns an empty buffer into a lone newline |
| BasicTable.VisibleRowAddsLine | src/main.rs:70-72 | a record with a visible character appends exactly its trimmed cells and a newline |
| BasicTable.RenderClosedForm | src/main.rs:64-73 | the buffer is a leading newline when the first record is blank, then one line per record that is not blank, in record order |
| BasicTable.OneLinePerRow | src/main.rs:65-73 | when no record is blank the output is one line per record, in record order |
| BasicTable.VisibleLinesEmpty | src/main.rs:65-73 | there are no visible lines exactly when every record is blank |
| BasicTable.LineNewlines | src/main.rs:71-72 | with newline-free fields, a record's line holds exactly one newline |
| BasicTable.RenderNewlines | src/main.rs:65-73 | with newline-free fields, the output has one newline per record that is not blank, plus one for a blank first record; with no blank record, one per record |
| BasicTable.NoTrailingWhitespace | src/main.rs:70-72 | with newline-free fields, no newline of the output except a leading one follows whitespace |
| BasicTable.RenderingSucceedsIff | src/main.rs:53-67 | basic_table does not panic exactly when every record has as many fields as the first |
| BasicTable.RenderingPanic | src/main.rs:53-67 | a panic is raised in the first record longer than the shortest one, at the index equal to the shortest record's field count |
| BasicTable.RenderingText | src/main.rs:56-75 | on success every record fits the widths and the text is the closed form of `RenderClosedForm` |
| BasicTable.TerminalNewline | src/main.rs:64-75 | the text is empty exactly for no records; otherwise it ends in a newline after a non-whitespace character, or is exactly "\n" when every record is blank |
| BasicTable.ExampleAligned | src/main.rs:53-75 | records `[["a","bb"],["ccc","d"]]` give widths `[3,2]` and the text `"a   bb\nccc d\n"` |
| BasicTable.ExampleRagged | src/main.rs:53-67 | records `[["a","b"],["c"]]` panic at record 0, index 1 |
| BasicTable.ExampleBlankRow | src/main.rs:65-73 | records `[["a"],[" "]]` give `"a\n"`: the blank record leaves no line |

Specification functions with no contract of their own:
- `Text.IsWhitespace` (src/main.rs:71): the characters `trim_end` removes, the
  Unicode White_Space set that `char::is_whitespace` tests;
- `ColumnWidths.Fold` and `ColumnWidths.Widths` (src/main.rs:53-61);
- `BasicTable.Cells`, `BasicTable.AppendRow`, `BasicTable.Render` and
  `BasicTable.Rendering` (src/main.rs:63-75).

The rows above state their properties.

## Left out

- `main` (src/main.rs:8-48): the command line, the style selector and its `unreachable!` arm, printing, `eprintln!` and `process::exit` are process plumbing. The only style is `basic`.
- `parse_records` (src/main.rs:79-86): opening the file and the csv crate's tokenising, quoting and `Trim::All` are external code. The model takes the parsed records as input. The csv reader is built without `flexible`, so it rejects records of different lengths before `basic_table` runs. The index panic modelled here is therefore unreachable from `main`.
- The `Err` arm of `write!` and `writeln!` into a `String` (src/main.rs:67, 72) is left out, because writing to a `String` cannot fail.
- `ColumnWidths.WidthsTight`: the width is tight in UTF-8 bytes, as `len()` measures it. In characters it is tight only for ASCII records (`WidthsTightAscii`); for other text the column may carry extra spaces.
- `BasicTable.RenderNewlines`, `BasicTable.NoTrailingWhitespace`, `BasicTable.LineNewlines`: these require fields without newline characters. A quoted CSV field may contain one, and then a "line" of the text is no longer a record.
- `BasicTable.BasicTable`: `truncate` is modelled as taking a prefix of the character sequence, not as a byte offset into UTF-8. The two agree because the trimmed text is a prefix of the buffer.
- Memory allocation and `String` capacity are not modelled.
