/**
 What happens to a file as `buildPacksJson` runs the components on it in turn
 (build.js:195-205): it is normalised, the normalised content is validated, and a file that
 validates is alphabetised.
 */
module Pipeline {
  import opened Text
  import opened Normalizer
  import opened Validator
  import opened Alphabetizer

  predicate AllNormal(rows: seq<Row>) {
    forall i | 0 <= i < |rows| :: NormalRow(rows[i])
  }

  /** The index of the first row without help, or `|rows|` when every row has help. */
  function FirstPlainRow(rows: seq<Row>): (j: nat)
    ensures j <= |rows|
    ensures forall k | 0 <= k < j :: rows[k].help != []
    ensures j < |rows| ==> rows[j].help == []
  {
    if |rows| == 0 then 0
    else if rows[0].help == [] then 0
    else 1 + FirstPlainRow(rows[1..])
  }

  /** The lines a written file consists of, before the final newline. */
  function WrittenLines(rows: seq<Row>): (lines: seq<string>)
    ensures |lines| == |rows| + 1
  {
    [Header(rows)] + SerializeAll(rows)
  }

  /** The validator reads a written file back as its header followed by one line per row. */
  lemma RenderedLines(rows: seq<Row>)
    requires AllNormal(rows)
    ensures Lines(Render(rows)) == WrittenLines(rows)
  {
    var lines := WrittenLines(rows);
    RenderTrim(rows);
    HeaderShape(rows);
    SerializeAllShape(rows);
    assert NoneContains(lines, '\n') by {
      forall i | 0 <= i < |lines| ensures '\n' !in lines[i] {
        if i > 0 {
          assert lines[i] == SerializeAll(rows)[i - 1];
        }
      }
    }
    SplitJoin(lines, '\n');
  }

  /** A written row line passes the row check exactly when its column count is the one
      the header announces. */
  lemma WrittenRowOk(rows: seq<Row>, k: nat, expected: nat)
    requires AllNormal(rows)
    requires 1 <= k <= |rows|
    ensures RowOk(WrittenLines(rows), k, expected) <==> |rows[k - 1].Columns()| == expected
  {
    var line := rows[k - 1].Serialize();
    assert WrittenLines(rows)[k] == line;
    assert Split(line, '\t') == rows[k - 1].Columns() && Trim(line) != [] by {
      SerializeShape(rows[k - 1]);
    }
  }

  /** The first line the validator finds fault with: none without help, and with help the
      first row that has none. */
  lemma WrittenFirstBad(rows: seq<Row>)
    requires AllNormal(rows)
    ensures FirstBadLine(WrittenLines(rows), 1, Expected(Header(rows))) ==
      if AnyHelp(rows) then FirstPlainRow(rows) + 1 else |rows| + 1
  {
    var lines := WrittenLines(rows);
    var e := Expected(Header(rows));
    assert e == if AnyHelp(rows) then 2 else 1;
    var c := if AnyHelp(rows) then FirstPlainRow(rows) + 1 else |rows| + 1;
    forall k | 1 <= k < c ensures RowOk(lines, k, e) {
      WrittenRowOk(rows, k, e);
    }
    if c < |lines| {
      WrittenRowOk(rows, c, e);
    }
    FirstBadLineUnique(lines, 1, e, c);
  }

  /** The verdict on content whose lines are those of a written file. */
  lemma VerdictOfWritten(content: string, rows: seq<Row>)
    requires AllNormal(rows)
    requires Lines(content) == WrittenLines(rows)
    ensures !AnyHelp(rows) ==> Validate(content) == Valid
    ensures AnyHelp(rows) ==>
      (Validate(content) ==
       if FirstPlainRow(rows) == |rows| then Valid
       else Invalid(ColumnCount(FirstPlainRow(rows) + 2, 2, 1)))
  {
    var lines := Lines(content);
    HeaderShape(rows);
    TrimOfTrimmed(Header(rows));
    assert Trim(lines[0]) == Header(rows);
    WrittenFirstBad(rows);
    ValidateReportsFirstFailure(content);
    var p := FirstPlainRow(rows);
    if AnyHelp(rows) && p < |rows| {
      SerializeShape(rows[p]);
      assert lines[p + 1] == rows[p].Serialize();
    }
  }

  /** The verdict on a written file. Without help every row is one column under a
      one-column header and the file passes. With help the header announces two columns,
      and the first row without help, if any, is refused as having one. */
  lemma ValidateRendered(rows: seq<Row>)
    requires AllNormal(rows)
    ensures !AnyHelp(rows) ==> Validate(Render(rows)) == Valid
    ensures AnyHelp(rows) ==>
      (Validate(Render(rows)) ==
       if FirstPlainRow(rows) == |rows| then Valid
       else Invalid(ColumnCount(FirstPlainRow(rows) + 2, 2, 1)))
  {
    RenderedLines(rows);
    VerdictOfWritten(Render(rows), rows);
  }

  /** The rows of any file are normal rows. */
  lemma RowsNormal(content: string)
    ensures AllNormal(RowsOf(content))
  {
    NormalizeRowsNormal(Split(content, '\n')[1..]);
  }

  /** A file none of whose lines yields help always validates once normalised. */
  lemma NoHelpValidates(content: string)
    requires !Normalize(content).hasHelp
    ensures Validate(Normalize(content).content) == Valid
  {
    NormalizeIsRender(content);
    RowsNormal(content);
    ValidateRendered(RowsOf(content));
  }

  /** A file whose lines all yield help validates once normalised. */
  lemma AllHelpValidates(content: string)
    requires forall i | 0 <= i < |RowsOf(content)| :: RowsOf(content)[i].help != []
    ensures Validate(Normalize(content).content) == Valid
  {
    NormalizeIsRender(content);
    RowsNormal(content);
    ValidateRendered(RowsOf(content));
  }

  /** A file that mixes rows with help and rows without is written with the two-column
      header over some one-column rows, and the validator refuses it at the first
      one-column row (line numbers count the header as line 1). */
  lemma MixedHelpRejected(content: string, withHelp: nat, plain: nat)
    requires withHelp < |RowsOf(content)| && RowsOf(content)[withHelp].help != []
    requires plain < |RowsOf(content)| && RowsOf(content)[plain].help == []
    ensures Normalize(content).hasHelp
    ensures Split(Normalize(content).content, '\n')[0] == "text\thelp"
    ensures Validate(Normalize(content).content) ==
      Invalid(ColumnCount(FirstPlainRow(RowsOf(content)) + 2, 2, 1))
  {
    var rows := RowsOf(content);
    NormalizeIsRender(content);
    RowsNormal(content);
    MixedRowsRejected(rows, withHelp, plain);
  }

  /** The same, stated over the rows being written. */
  lemma MixedRowsRejected(rows: seq<Row>, withHelp: nat, plain: nat)
    requires AllNormal(rows)
    requires withHelp < |rows| && rows[withHelp].help != []
    requires plain < |rows| && rows[plain].help == []
    ensures AnyHelp(rows)
    ensures Split(Render(rows), '\n')[0] == "text\thelp"
    ensures Validate(Render(rows)) == Invalid(ColumnCount(FirstPlainRow(rows) + 2, 2, 1))
  {
    assert AnyHelp(rows);
    assert FirstPlainRow(rows) <= plain;
    ValidateRendered(rows);
    RenderLines(rows);
  }

  /** The normalise-then-validate verdict in one statement: normalised content passes
      exactly when its rows all have help or all lack it. */
  lemma NormalizedValidIff(content: string)
    ensures var rows := RowsOf(content);
      Validate(Normalize(content).content) == Valid <==>
        (forall i | 0 <= i < |rows| :: rows[i].help != []) ||
        (forall i | 0 <= i < |rows| :: rows[i].help == [])
  {
    var rows := RowsOf(content);
    NormalizeIsRender(content);
    RowsNormal(content);
    ValidateRendered(rows);
    var p := FirstPlainRow(rows);
    if AnyHelp(rows) && p < |rows| {
      assert rows[p].help == [];
    }
  }

  /** `countPrompts` on a written file is its number of rows. */
  lemma CountRendered(rows: seq<Row>)
    requires AllNormal(rows)
    ensures CountPrompts(Render(rows)) == |rows|
  {
    RenderedLines(rows);
    CountIsDataLines(Render(rows));
  }

  /** After normalisation a file counts one prompt per non-blank line after its first. */
  lemma NormalizedCount(content: string)
    ensures CountPrompts(Normalize(content).content) == |NonBlank(Split(content, '\n')[1..])|
  {
    NormalizeIsRender(content);
    RowsNormal(content);
    CountRendered(RowsOf(content));
    NormalizeRowsPerLine(Split(content, '\n')[1..]);
  }

  /** Every data line of a written file ends in a non-whitespace character. */
  lemma WrittenRowsEndSolid(rows: seq<Row>)
    requires AllNormal(rows)
    ensures forall i | 1 <= i < |Lines(Render(rows))| :: EndsSolid(Lines(Render(rows))[i])
  {
    RenderedLines(rows);
    var lines := Lines(Render(rows));
    forall i | 1 <= i < |lines| ensures EndsSolid(lines[i]) {
      SerializeShape(rows[i - 1]);
      assert lines[i] == rows[i - 1].Serialize();
    }
  }

  /** On normalised content that validates, sorting keeps it valid and keeps the prompt
      count at the number of rows. */
  lemma AlphabetizeNormalized(content: string)
    requires Validate(Normalize(content).content) == Valid
    ensures Validate(Alphabetize(Normalize(content).content)) == Valid
    ensures CountPrompts(Alphabetize(Normalize(content).content)) == |RowsOf(content)|
  {
    var rows := RowsOf(content);
    NormalizeIsRender(content);
    RowsNormal(content);
    WrittenRowsEndSolid(rows);
    AlphabetizeKeepsValid(Render(rows));
    CountRendered(rows);
  }
}
