/**
 `validateTsvFormat` (build.js:141-171) without its file read: it accepts content whose
 header is `text` or `text<TAB>help` and whose later lines are non-blank with the header's
 number of tab fields, and otherwise reports the first offence.
 */
module Validator {
  import opened Text

  /** Why a file is refused; line numbers count from 1 over the trimmed content. */
  datatype TsvError =
    | EmptyFile
    | InvalidHeader(header: string)
    | EmptyLine(line: nat)
    | ColumnCount(line: nat, expected: nat, found: nat)

  datatype Verdict = Valid | Invalid(error: TsvError)

  /** The lines the validator looks at: the whole content trimmed, then split on newlines. */
  function Lines(content: string): (lines: seq<string>)
    ensures |lines| >= 1
  {
    Split(Trim(content), '\n')
  }

  predicate HeaderOk(header: string) {
    header == "text" || header == "text\thelp"
  }

  /** The number of columns a header announces. */
  function Expected(header: string): nat {
    if header == "text" then 1 else 2
  }

  /** Data line `i` is non-blank and has the announced number of tab fields. */
  predicate RowOk(lines: seq<string>, i: nat, expected: nat)
    requires i < |lines|
  {
    Trim(lines[i]) != [] && |Split(lines[i], '\t')| == expected
  }

  /** The format the validator enforces, stated over all lines at once. */
  predicate WellFormed(content: string) {
    var lines := Lines(content);
    && HeaderOk(Trim(lines[0]))
    && forall i | 1 <= i < |lines| :: RowOk(lines, i, Expected(Trim(lines[0])))
  }

  /** A line `trim` empties. */
  predicate Blank(line: string) {
    Trim(line) == []
  }

  /** The row loop, from line index `i` on. A refusal names a line from `i` on, counted
      from 1, and a column-count refusal reports the expected count and a different one
      found. */
  function CheckRows(lines: seq<string>, i: nat, expected: nat): (v: Verdict)
    requires 1 <= i <= |lines|
    ensures v.Invalid? ==> v.error.EmptyLine? || v.error.ColumnCount?
    ensures v.Invalid? ==> i < v.error.line <= |lines|
    ensures v.Invalid? && v.error.EmptyLine? ==> Blank(lines[v.error.line - 1])
    ensures v.Invalid? && v.error.ColumnCount? ==>
      v.error.expected == expected && v.error.found != expected
    decreases |lines| - i
  {
    if i == |lines| then Valid
    else if Blank(lines[i]) then Invalid(EmptyLine(i + 1))
    else
      var found := |Split(lines[i], '\t')|;
      if found != expected then Invalid(ColumnCount(i + 1, expected, found))
      else CheckRows(lines, i + 1, expected)
  }

  /** `validateTsvFormat`. `EmptyFile` is never reported: splitting always yields a line.
      A refused header is one the validator does not accept, and any other refusal names
      a data line, never the header line. */
  function Validate(content: string): (v: Verdict)
    ensures v != Invalid(EmptyFile)
    ensures v.Invalid? && v.error.InvalidHeader? ==> !HeaderOk(v.error.header)
    ensures v.Invalid? && !v.error.InvalidHeader? ==> 2 <= v.error.line <= |Lines(content)|
    ensures v == Valid ==> HeaderOk(Trim(Lines(content)[0]))
  {
    var lines := Lines(content);
    if |lines| == 0 then assert false; Invalid(EmptyFile)
    else
      var header := Trim(lines[0]);
      if !HeaderOk(header) then Invalid(InvalidHeader(header))
      else CheckRows(lines, 1, Expected(header))
  }

  /** The index of the first line from `i` on that is not fine, or `|lines|` if none. */
  function FirstBadLine(lines: seq<string>, i: nat, expected: nat): (j: nat)
    requires i <= |lines|
    ensures i <= j <= |lines|
    ensures forall k | i <= k < j :: RowOk(lines, k, expected)
    ensures j < |lines| ==> !RowOk(lines, j, expected)
    decreases |lines| - i
  {
    if i == |lines| || !RowOk(lines, i, expected) then i else FirstBadLine(lines, i + 1, expected)
  }

  /** The row loop accepts when no line from `i` on is bad, and otherwise refuses with the
      reason the first bad line fails. */
  lemma {:induction false} CheckRowsFirstFailure(lines: seq<string>, i: nat, expected: nat)
    requires 1 <= i <= |lines|
    ensures ReportsFirstFailure(lines, i, expected)
    decreases |lines| - i
  {
    if i < |lines| {
      if RowOk(lines, i, expected) {
        CheckRowsFirstFailure(lines, i + 1, expected);
        PassingLineSkipped(lines, i, expected);
      } else {
        FailingLineReported(lines, i, expected);
      }
    } else {
      NothingLeftReported(lines, expected);
    }
  }

  lemma NothingLeftReported(lines: seq<string>, expected: nat)
    requires 1 <= |lines|
    ensures ReportsFirstFailure(lines, |lines|, expected)
  {
  }

  /** The verdict the row loop gives from line `i` on if the first bad line is the one
      found by the search. */
  predicate ReportsFirstFailure(lines: seq<string>, i: nat, expected: nat)
    requires 1 <= i <= |lines|
  {
    var j := FirstBadLine(lines, i, expected);
    CheckRows(lines, i, expected) == if j == |lines| then Valid else Invalid(FailureAt(lines, j, expected))
  }

  /** A passing line is stepped over by the loop and by the search alike. */
  lemma PassingLineSkipped(lines: seq<string>, i: nat, expected: nat)
    requires 1 <= i < |lines| && RowOk(lines, i, expected)
    requires ReportsFirstFailure(lines, i + 1, expected)
    ensures ReportsFirstFailure(lines, i, expected)
  {
    assert CheckRows(lines, i, expected) == CheckRows(lines, i + 1, expected);
    assert FirstBadLine(lines, i, expected) == FirstBadLine(lines, i + 1, expected);
  }

  /** A failing line stops the loop with its own message. */
  lemma FailingLineReported(lines: seq<string>, i: nat, expected: nat)
    requires 1 <= i < |lines| && !RowOk(lines, i, expected)
    ensures ReportsFirstFailure(lines, i, expected)
  {
    assert CheckRows(lines, i, expected) == Invalid(FailureAt(lines, i, expected));
    assert FirstBadLine(lines, i, expected) == i;
  }

  /** The message for a line that is not fine: blank beats a wrong column count. */
  function FailureAt(lines: seq<string>, j: nat, expected: nat): TsvError
    requires j < |lines|
  {
    if Trim(lines[j]) == [] then EmptyLine(j + 1)
    else ColumnCount(j + 1, expected, |Split(lines[j], '\t')|)
  }

  /** A line index `c` with only fine lines before it and a bad one at it (or the end)
      is the first bad line. */
  lemma {:induction false} FirstBadLineUnique(lines: seq<string>, i: nat, expected: nat, c: nat)
    requires i <= c <= |lines|
    requires forall k | i <= k < c :: RowOk(lines, k, expected)
    requires c < |lines| ==> !RowOk(lines, c, expected)
    ensures FirstBadLine(lines, i, expected) == c
    decreases c - i
  {
    if i < c {
      FirstBadLineUnique(lines, i + 1, expected, c);
    }
  }

  /** The validator accepts exactly the well-formed content. */
  lemma ValidateIsWellFormed(content: string)
    ensures Validate(content) == Valid <==> WellFormed(content)
  {
    var lines := Lines(content);
    CheckRowsFirstFailure(lines, 1, Expected(Trim(lines[0])));
  }

  /** Refusals report the first offence: a bad header, or else the first data line that is
      blank or has the wrong number of fields. `EmptyFile` is never reported, since
      splitting always yields at least one line. */
  lemma ValidateReportsFirstFailure(content: string)
    ensures Validate(content) != Invalid(EmptyFile)
    ensures var lines := Lines(content);
      !HeaderOk(Trim(lines[0])) ==> Validate(content) == Invalid(InvalidHeader(Trim(lines[0])))
    ensures var lines := Lines(content);
      var j := FirstBadLine(lines, 1, Expected(Trim(lines[0])));
      HeaderOk(Trim(lines[0])) && j < |lines| ==>
        Validate(content) == Invalid(FailureAt(lines, j, Expected(Trim(lines[0]))))
    ensures var lines := Lines(content);
      HeaderOk(Trim(lines[0])) && FirstBadLine(lines, 1, Expected(Trim(lines[0]))) == |lines| ==>
        Validate(content) == Valid
  {
    var lines := Lines(content);
    CheckRowsFirstFailure(lines, 1, Expected(Trim(lines[0])));
  }

  /** Empty content fails on its header, not as an empty file. */
  lemma EmptyContentHasInvalidHeader()
    ensures Validate("") == Invalid(InvalidHeader(""))
  {
    assert Trim("") == "";
    assert Lines("") == [""];
  }
}
