/**
 `normalizeTsvFile` (build.js:19-73) without its file read and write: raw TSV content in,
 canonical content out. The old header is dropped, blank lines are dropped, every other line
 becomes one row of one or two columns, and the header is regenerated from the rows.
 */
module Normalizer {
  import opened Text
  import opened Wrappers

  /** One output row: `[text]` when `help` is empty, `[text, help]` otherwise. */
  datatype Row = Row(text: string, help: string) {
    function Columns(): (cols: seq<string>)
      ensures 1 <= |cols| <= 2 && cols[0] == text
      ensures |cols| == 2 <==> help != []
    {
      if help == [] then [text] else [text, help]
    }

    /** The row as a line of the output file: its columns joined by tabs. */
    function Serialize(): string {
      Join(Columns(), '\t')
    }
  }

  /** The shape every normalised row has: tab- and newline-free columns with no
      whitespace at either end, and at least one of them non-empty. */
  predicate NormalRow(r: Row) {
    && '\t' !in r.text && '\t' !in r.help
    && '\n' !in r.text && '\n' !in r.help
    && Trimmed(r.text) && Trimmed(r.help)
    && (r.text != [] || r.help != [])
  }

  // ---------------------------------------------------------------------------
  // the trailing-parenthetical rule, /^(.*?)[\s]*\(([^)]*)\)$/

  /** The two capture groups of a successful match. */
  datatype Match = Match(before: string, inner: string)

  /** `(` at `p` opens a group that runs, free of `)`, up to the line's final `)`. */
  predicate OpensTrailingGroup(line: string, p: int) {
    && |line| >= 2 && line[|line| - 1] == ')'
    && 0 <= p < |line| - 1 && line[p] == '('
    && ')' !in line[p + 1..|line| - 1]
  }

  /** The lazy first group `(.*?)` is the text before `p` less its trailing whitespace,
      which `[\s]*` absorbs; `.` does not match a line terminator. */
  predicate MatchesAt(line: string, p: int) {
    OpensTrailingGroup(line, p) && SingleLine(TrimEnd(line[..p]))
  }

  /** No character of `s` ends a line. */
  predicate SingleLine(s: string) {
    forall i | 0 <= i < |s| :: !IsLineTerminator(s[i])
  }

  /** Scans for the first position at or after `from` where the pattern matches. */
  function FindMatch(line: string, from: nat): (r: Option<nat>)
    requires from <= |line|
    ensures r.Some? ==> from <= r.value < |line| - 1
    decreases |line| - from
  {
    if from == |line| then None
    else if MatchesAt(line, from) then Some(from)
    else FindMatch(line, from + 1)
  }

  /** The scan finds the least matching position, and finds none only when there is none. */
  lemma {:induction false} FindMatchLeast(line: string, from: nat)
    requires from <= |line|
    ensures FindMatch(line, from).Some? ==> MatchesAt(line, FindMatch(line, from).value)
    ensures FindMatch(line, from).Some? ==>
      forall q | from <= q < FindMatch(line, from).value :: !MatchesAt(line, q)
    ensures FindMatch(line, from).None? <==> forall q | from <= q < |line| :: !MatchesAt(line, q)
    decreases |line| - from
  {
    if from < |line| && !MatchesAt(line, from) {
      FindMatchLeast(line, from + 1);
    }
  }

  /** `line.match(/^(.*?)[\s]*\(([^)]*)\)$/)`. The regular expression's leftmost, shortest
      first group is the match at the least position `p` (see `ParenMatchLeast`). */
  function ParenMatch(line: string): (r: Option<Match>)
  {
    match FindMatch(line, 0)
    case None => None
    case Some(p) => Some(Match(TrimEnd(line[..p]), line[p + 1..|line| - 1]))
  }

  /** The pattern matches exactly when some `(` opens a trailing group on the first line of
      text, and the groups are cut at the least such position. */
  lemma ParenMatchLeast(line: string)
    ensures ParenMatch(line).None? <==> forall p | 0 <= p < |line| :: !MatchesAt(line, p)
    ensures ParenMatch(line).Some? ==> exists p | 0 <= p < |line| - 1 ::
      && MatchesAt(line, p)
      && (forall q | 0 <= q < p :: !MatchesAt(line, q))
      && ParenMatch(line).value == Match(TrimEnd(line[..p]), line[p + 1..|line| - 1])
  {
    FindMatchLeast(line, 0);
  }

  // ---------------------------------------------------------------------------
  // one line

  /** A trimmed line of two or more tab fields never has blank help: the line ends in a
      non-whitespace character, and that character ends the last field. */
  lemma {:induction false} MultiFieldHelp(line: string)
    requires line != [] && Trimmed(line)
    requires |Split(line, '\t')| >= 2
    ensures !AllWhitespace(Join(Split(line, '\t')[1..], ' '))
  {
    var ps := Split(line, '\t');
    JoinSplit(line, '\t');
    var tail := ['\t'] + Join(ps[1..], '\t');
    assert line == ps[0] + tail;
    JoinWhitespaceSwap(ps[1..], ' ', '\t');
    assert AllWhitespace(Join(ps[1..], ' ')) ==> AllWhitespace(tail);
    assert line[|line| - 1] == tail[|tail| - 1];
  }

  /** Whether the parts of a join are all blank does not depend on a whitespace separator. */
  lemma {:induction false} JoinWhitespaceSwap(ps: seq<string>, d1: char, d2: char)
    requires IsWhitespace(d1) && IsWhitespace(d2)
    ensures AllWhitespace(Join(ps, d1)) ==> AllWhitespace(Join(ps, d2))
  {
    if |ps| > 1 {
      JoinWhitespaceSwap(ps[1..], d1, d2);
      var a := Join(ps, d1);
      var b := Join(ps, d2);
      if AllWhitespace(a) {
        var j1 := Join(ps[1..], d1);
        assert a == ps[0] + [d1] + j1;
        forall i | 0 <= i < |ps[0]| ensures IsWhitespace(ps[0][i]) {
          assert ps[0][i] == a[i];
        }
        forall i | 0 <= i < |j1| ensures IsWhitespace(j1[i]) {
          assert j1[i] == a[|ps[0]| + 1 + i];
        }
      }
    }
  }

  /** A line whose text becomes the row's text column. */
  lemma TextColumnShape(field: string)
    requires '\t' !in field && '\n' !in field
    ensures '\t' !in CapitalizeFirst(Trim(field)) && '\n' !in CapitalizeFirst(Trim(field))
    ensures Trimmed(CapitalizeFirst(Trim(field)))
    ensures CapitalizeFirst(Trim(field)) == [] <==> AllWhitespace(field)
  {
    TrimKeepsOut(field, '\t');
    TrimKeepsOut(field, '\n');
    CapitalizeKeepsShape(Trim(field), '\t');
    CapitalizeKeepsShape(Trim(field), '\n');
    CapitalizeKeepsTrimmed(Trim(field));
    TrimBlank(field);
  }

  /** The body of the loop in `normalizeTsvFile` for one trimmed, non-blank line. */
  function NormalizeLine(line: string): (r: Row)
    requires line != [] && Trimmed(line) && '\n' !in line
    ensures NormalRow(r)
    ensures '\t' in line ==> r.help != [] && r.text != [] && r.text == CapitalizeFirst(Trim(Split(line, '\t')[0]))
    ensures '\t' in line ==> r.help == Trim(Join(Split(line, '\t')[1..], ' '))
    ensures '\t' !in line ==> (r.help != [] <==> ParenMatch(line).Some?)
    ensures '\t' !in line && ParenMatch(line).None? ==> r.text == CapitalizeFirst(line)
    ensures '\t' !in line && ParenMatch(line).Some? ==>
      && r.text == CapitalizeFirst(Trim(ParenMatch(line).value.before))
      && r.help == "(" + Trim(ParenMatch(line).value.inner) + ")"
  {
    var parts := Split(line, '\t');
    if |parts| == 1 then
      assert '\t' !in line by {
        JoinSplit(line, '\t');
      }
      SingleFieldRow(line)
    else
      MultiFieldRowShape(line);
      var text := CapitalizeFirst(Trim(parts[0]));
      if |parts| > 2 then Row(text, Trim(Join(parts[1..], ' ')))
      else Row(text, Trim(parts[1]))
  }

  /** A line without a tab: a trailing parenthetical becomes the help column, anything else
      is a one-column row. */
  function SingleFieldRow(line: string): (r: Row)
    requires line != [] && Trimmed(line) && '\n' !in line && '\t' !in line
    ensures NormalRow(r)
    ensures r.help != [] <==> ParenMatch(line).Some?
    ensures ParenMatch(line).None? ==> r.text == CapitalizeFirst(line)
    ensures ParenMatch(line).Some? ==>
      && r.text == CapitalizeFirst(Trim(ParenMatch(line).value.before))
      && r.help == "(" + Trim(ParenMatch(line).value.inner) + ")"
  {
    match ParenMatch(line)
    case Some(m) =>
      ParenRowShape(line);
      Row(CapitalizeFirst(Trim(m.before)), "(" + Trim(m.inner) + ")")
    case None =>
      TrimOfTrimmed(line);
      TextColumnShape(line);
      Row(CapitalizeFirst(Trim(line)), [])
  }

  /** The row built from a trailing parenthetical has the normal shape. */
  lemma ParenRowShape(line: string)
    requires '\t' !in line && '\n' !in line
    requires ParenMatch(line).Some?
    ensures NormalRow(Row(CapitalizeFirst(Trim(ParenMatch(line).value.before)),
                          "(" + Trim(ParenMatch(line).value.inner) + ")"))
  {
    var m := ParenMatch(line).value;
    ParenMatchPieces(line, '\t');
    ParenMatchPieces(line, '\n');
    TextColumnShape(m.before);
    TrimKeepsOut(m.inner, '\t');
    TrimKeepsOut(m.inner, '\n');
    Parenthesized(Trim(m.inner));
  }

  /** Wrapping in parentheses gives a non-empty, trimmed column. */
  lemma Parenthesized(x: string)
    requires '\t' !in x && '\n' !in x
    ensures var h := "(" + x + ")"; h != [] && Trimmed(h) && '\t' !in h && '\n' !in h
  {
    var h := "(" + x + ")";
    assert h[0] == '(' && h[|h| - 1] == ')';
    assert !IsWhitespace('(') && !IsWhitespace(')');
  }

  /** The row built from a line of two or more tab fields has the normal shape, help included. */
  lemma MultiFieldRowShape(line: string)
    requires line != [] && Trimmed(line) && '\n' !in line
    requires |Split(line, '\t')| >= 2
    ensures '\t' in line
    ensures NormalRow(Row(CapitalizeFirst(Trim(Split(line, '\t')[0])),
                          Trim(Join(Split(line, '\t')[1..], ' '))))
    ensures Trim(Join(Split(line, '\t')[1..], ' ')) != []
    ensures CapitalizeFirst(Trim(Split(line, '\t')[0])) != []
    ensures |Split(line, '\t')| == 2 ==> Join(Split(line, '\t')[1..], ' ') == Split(line, '\t')[1]
  {
    var parts := Split(line, '\t');
    assert '\t' in line by {
      assert parts != [line];
    }
    JoinSplit(line, '\t');
    var rest := Join(parts[1..], '\t');
    assert line == parts[0] + ['\t'] + rest;
    assert '\n' !in parts[0] && '\n' !in rest;
    TextColumnShape(parts[0]);
    assert parts[0] != [] && !IsWhitespace(parts[0][0]) by {
      assert line[0] == (parts[0] + ['\t'] + rest)[0];
    }
    MultiFieldHelp(line);
    TrimBlank(Join(parts[1..], ' '));
    JoinChars(parts[1..], ' ', '\t');
    JoinSeparatorFree(parts[1..], '\t', ' ', '\n');
    TrimKeepsOut(Join(parts[1..], ' '), '\t');
    TrimKeepsOut(Join(parts[1..], ' '), '\n');
  }

  /** The capture groups are pieces of the line. */
  lemma ParenMatchPieces(line: string, c: char)
    requires ParenMatch(line).Some?
    requires c !in line
    ensures c !in ParenMatch(line).value.before && c !in ParenMatch(line).value.inner
  {
    var p := FindMatch(line, 0).value;
    assert ParenMatch(line).value == Match(TrimEnd(line[..p]), line[p + 1..|line| - 1]);
    assert c !in line[..p];
    assert c !in line[p + 1..|line| - 1];
    TrimKeepsOut(line[..p], c);
  }

  /** Re-joining with another separator keeps out a character found in neither. */
  lemma {:induction false} JoinSeparatorFree(ps: seq<string>, d1: char, d2: char, c: char)
    requires c != d1 && c != d2
    requires c !in Join(ps, d1)
    ensures c !in Join(ps, d2)
  {
    if |ps| > 1 {
      assert Join(ps, d1) == ps[0] + [d1] + Join(ps[1..], d1);
      JoinSeparatorFree(ps[1..], d1, d2, c);
    }
  }

  // ---------------------------------------------------------------------------
  // the whole file

  /** The loop of `normalizeTsvFile` over the data lines: each line is trimmed, blank ones
      are skipped, and every other one yields exactly one row. */
  function NormalizeRows(lines: seq<string>): (rows: seq<Row>)
    requires NoneContains(lines, '\n')
    ensures |rows| <= |lines|
  {
    if |lines| == 0 then []
    else
      var t := Trim(lines[0]);
      if t == [] then NormalizeRows(lines[1..])
      else
        TrimKeepsOut(lines[0], '\n');
        [NormalizeLine(t)] + NormalizeRows(lines[1..])
  }

  /** The lines `trim` does not blank, in their original order. */
  function NonBlank(lines: seq<string>): (r: seq<string>)
    ensures |r| <= |lines|
    ensures forall i | 0 <= i < |r| :: Trim(r[i]) != []
  {
    if |lines| == 0 then []
    else if Trim(lines[0]) == [] then NonBlank(lines[1..])
    else [lines[0]] + NonBlank(lines[1..])
  }

  lemma {:induction false} NonBlankKeepsOut(lines: seq<string>, c: char)
    requires NoneContains(lines, c)
    ensures NoneContains(NonBlank(lines), c)
  {
    if |lines| > 0 {
      NonBlankKeepsOut(lines[1..], c);
      var nb := NonBlank(lines);
      var nb1 := NonBlank(lines[1..]);
      if Trim(lines[0]) != [] {
        assert nb == [lines[0]] + nb1;
        forall k | 0 <= k < |nb| ensures c !in nb[k] {
          if k > 0 {
            assert nb[k] == nb1[k - 1];
          }
        }
      }
    }
  }

  /** One row per non-blank line, in order: the rows are the non-blank lines, trimmed and
      passed through `NormalizeLine` one by one. */
  lemma {:induction false} NormalizeRowsPerLine(lines: seq<string>)
    requires NoneContains(lines, '\n')
    ensures NoneContains(NonBlank(lines), '\n')
    ensures |NormalizeRows(lines)| == |NonBlank(lines)|
    ensures forall k | 0 <= k < |NonBlank(lines)| ::
      && Trim(NonBlank(lines)[k]) != [] && '\n' !in Trim(NonBlank(lines)[k])
      && NormalizeRows(lines)[k] == NormalizeLine(Trim(NonBlank(lines)[k]))
  {
    NonBlankKeepsOut(lines, '\n');
    if |lines| > 0 {
      NormalizeRowsPerLine(lines[1..]);
      if Trim(lines[0]) != [] {
        PerLineStep(lines);
      }
    }
  }

  /** The inductive step of the above for a non-blank first line. */
  lemma PerLineStep(lines: seq<string>)
    requires |lines| > 0 && NoneContains(lines, '\n') && Trim(lines[0]) != []
    requires NoneContains(lines[1..], '\n')
    requires |NormalizeRows(lines[1..])| == |NonBlank(lines[1..])|
    requires forall k | 0 <= k < |NonBlank(lines[1..])| ::
      && Trim(NonBlank(lines[1..])[k]) != [] && '\n' !in Trim(NonBlank(lines[1..])[k])
      && NormalizeRows(lines[1..])[k] == NormalizeLine(Trim(NonBlank(lines[1..])[k]))
    ensures |NormalizeRows(lines)| == |NonBlank(lines)|
    ensures forall k | 0 <= k < |NonBlank(lines)| ::
      && Trim(NonBlank(lines)[k]) != [] && '\n' !in Trim(NonBlank(lines)[k])
      && NormalizeRows(lines)[k] == NormalizeLine(Trim(NonBlank(lines)[k]))
  {
    var nb, nb1 := NonBlank(lines), NonBlank(lines[1..]);
    var rows, rows1 := NormalizeRows(lines), NormalizeRows(lines[1..]);
    assert nb == [lines[0]] + nb1;
    TrimKeepsOut(lines[0], '\n');
    assert rows == [NormalizeLine(Trim(lines[0]))] + rows1;
    NonBlankKeepsOut(lines, '\n');
    forall k | 0 <= k < |nb|
      ensures Trim(nb[k]) != [] && '\n' !in Trim(nb[k])
      ensures rows[k] == NormalizeLine(Trim(nb[k]))
    {
      TrimKeepsOut(nb[k], '\n');
      if k > 0 {
        assert nb[k] == nb1[k - 1];
        assert rows[k] == rows1[k - 1];
      }
    }
  }

  /** Every row the loop produces has the normal shape. */
  lemma NormalizeRowsNormal(lines: seq<string>)
    requires NoneContains(lines, '\n')
    ensures forall i | 0 <= i < |NormalizeRows(lines)| :: NormalRow(NormalizeRows(lines)[i])
  {
    NormalizeRowsPerLine(lines);
    forall i | 0 <= i < |NormalizeRows(lines)| ensures NormalRow(NormalizeRows(lines)[i]) {
      var t := Trim(NonBlank(lines)[i]);
      assert NormalizeRows(lines)[i] == NormalizeLine(t);
    }
  }

  /** Whether any row carries help, the `anyHelp` flag of the loop. */
  function AnyHelp(rows: seq<Row>): (b: bool)
    ensures b <==> exists i | 0 <= i < |rows| :: rows[i].help != []
  {
    if |rows| == 0 then false
    else rows[0].help != [] || (assert forall i | 1 <= i < |rows| :: rows[i] == rows[1..][i - 1]; AnyHelp(rows[1..]))
  }

  const HeaderText: string := "text"
  const HeaderTextHelp: string := "text\thelp"

  /** The regenerated header: two columns exactly when some row carries help. */
  function Header(rows: seq<Row>): string {
    if AnyHelp(rows) then HeaderTextHelp else HeaderText
  }

  function SerializeAll(rows: seq<Row>): (lines: seq<string>)
    ensures |lines| == |rows|
    ensures forall i | 0 <= i < |rows| :: lines[i] == rows[i].Serialize()
  {
    seq(|rows|, i requires 0 <= i < |rows| => rows[i].Serialize())
  }

  /** `outLines.join('\n') + '\n'` with the header in front of the serialised rows. */
  function Render(rows: seq<Row>): (content: string) {
    Join([Header(rows)] + SerializeAll(rows), '\n') + "\n"
  }

  /** What `normalizeTsvFile` writes back, and the `hasHelp` it reports. */
  datatype Normalized = Normalized(content: string, hasHelp: bool)

  /** `normalizeTsvFile` on the content of a file. The first line is discarded whatever it
      holds; the rows come from the remaining lines. */
  function Normalize(content: string): (r: Normalized)
    ensures |r.content| >= 5 && r.content[|r.content| - 1] == '\n'
    ensures r.content[..5] == if r.hasHelp then "text\t" else "text\n"
  {
    var rawLines := Split(content, '\n');
    if |rawLines| == 0 then assert false; Normalized(content, false)
    else
      var rows := NormalizeRows(rawLines[1..]);
      RenderStartsWithHeader(rows);
      Normalized(Render(rows), AnyHelp(rows))
  }

  /** The written file opens with the header line and ends with a newline. */
  lemma RenderStartsWithHeader(rows: seq<Row>)
    ensures |Render(rows)| > |Header(rows)| && Render(rows)[|Render(rows)| - 1] == '\n'
    ensures Render(rows)[..|Header(rows)| + 1] == Header(rows) + "\n"
  {
    var lines := [Header(rows)] + SerializeAll(rows);
    var body := Join(lines, '\n');
    JoinStartsWithFirst(lines, '\n');
    if |lines| > 1 {
      assert body == Header(rows) + ['\n'] + Join(lines[1..], '\n');
    } else {
      assert body == Header(rows);
    }
    assert Render(rows) == body + "\n";
  }

  /** The data rows `Normalize` builds from a file's content. */
  function RowsOf(content: string): (rows: seq<Row>)
  {
    NormalizeRows(Split(content, '\n')[1..])
  }

  /** The written content is the rendering of the rows, and `hasHelp` is their flag. */
  lemma NormalizeIsRender(content: string)
    ensures Normalize(content) == Normalized(Render(RowsOf(content)), AnyHelp(RowsOf(content)))
  {
  }

  /** A normal row's line ends in a non-whitespace character and has one tab field per
      column. */
  lemma SerializeShape(r: Row)
    requires NormalRow(r)
    ensures r.Serialize() != [] && !IsWhitespace(r.Serialize()[|r.Serialize()| - 1])
    ensures '\n' !in r.Serialize()
    ensures Split(r.Serialize(), '\t') == r.Columns()
    ensures Trim(r.Serialize()) != []
  {
    var cols := r.Columns();
    var line := r.Serialize();
    SplitJoin(cols, '\t');
    JoinChars(cols, '\t', '\n');
    if r.help == [] {
      assert line == r.text;
    } else {
      assert line == r.text + ['\t'] + r.help;
      assert line[|line| - 1] == r.help[|r.help| - 1];
    }
    TrimBlank(line);
  }

  lemma SerializeAllShape(rows: seq<Row>)
    requires forall i | 0 <= i < |rows| :: NormalRow(rows[i])
    ensures NoneContains(SerializeAll(rows), '\n')
  {
    forall i | 0 <= i < |rows| ensures '\n' !in SerializeAll(rows)[i] {
      SerializeShape(rows[i]);
    }
  }

  /** The written file, line by line: the header, one line per row, and the empty line the
      trailing newline leaves behind. */
  lemma RenderLines(rows: seq<Row>)
    requires forall i | 0 <= i < |rows| :: NormalRow(rows[i])
    ensures Split(Render(rows), '\n') == [Header(rows)] + SerializeAll(rows) + [[]]
  {
    var lines := [Header(rows)] + SerializeAll(rows);
    JoinAppend(lines, [[]], '\n');
    assert Join([[]], '\n') == [];
    assert Render(rows) == Join(lines + [[]], '\n');
    SerializeAllShape(rows);
    HeaderShape(rows);
    assert NoneContains(lines + [[]], '\n') by {
      forall i | 0 <= i < |lines + [[]]| ensures '\n' !in (lines + [[]])[i] {
        if 0 < i <= |rows| {
          assert (lines + [[]])[i] == SerializeAll(rows)[i - 1];
        }
      }
    }
    SplitJoin(lines + [[]], '\n');
  }

  /** Trimming the written file removes exactly its trailing newline. */
  lemma RenderTrim(rows: seq<Row>)
    requires forall i | 0 <= i < |rows| :: NormalRow(rows[i])
    ensures Trim(Render(rows)) == Join([Header(rows)] + SerializeAll(rows), '\n')
  {
    var lines := [Header(rows)] + SerializeAll(rows);
    HeaderShape(rows);
    if |rows| > 0 {
      SerializeShape(rows[|rows| - 1]);
      assert lines[|lines| - 1] == rows[|rows| - 1].Serialize();
    }
    JoinTrimmed(lines, '\n');
    TrimPadded(Join(lines, '\n'), "\n");
  }

  lemma HeaderShape(rows: seq<Row>)
    ensures Header(rows) != [] && Trimmed(Header(rows)) && '\n' !in Header(rows)
    ensures Header(rows)[0] == 't' && Header(rows)[|Header(rows)| - 1] in "tp"
  {
    var h := Header(rows);
    assert h == "text" || h == "text\thelp";
    assert !IsWhitespace('t') && !IsWhitespace('p');
  }

  /** `hasHelp` reports whether some row carries help, and the written header is
      `text<TAB>help` exactly then and `text` otherwise. The rows are the non-blank lines
      after the first, in order, one row each. */
  lemma NormalizeLayout(content: string)
    ensures var rows := RowsOf(content);
      && (Normalize(content).hasHelp <==> exists i | 0 <= i < |rows| :: rows[i].help != [])
      && Split(Normalize(content).content, '\n') == [Header(rows)] + SerializeAll(rows) + [[]]
      && Header(rows) == (if Normalize(content).hasHelp then "text\thelp" else "text")
    ensures var data := Split(content, '\n')[1..];
      && |RowsOf(content)| == |NonBlank(data)|
      && forall k | 0 <= k < |NonBlank(data)| ::
           && Trim(NonBlank(data)[k]) != [] && '\n' !in Trim(NonBlank(data)[k])
           && RowsOf(content)[k] == NormalizeLine(Trim(NonBlank(data)[k]))
  {
    var data := Split(content, '\n')[1..];
    NormalizeRowsNormal(data);
    NormalizeRowsPerLine(data);
    RenderLines(RowsOf(content));
  }

  /** The first line is discarded whatever it holds: two files that differ only there
      normalise to the same result. */
  lemma FirstLineDiscarded(first1: string, first2: string, rest: string)
    requires '\n' !in first1 && '\n' !in first2
    ensures Normalize(first1 + "\n" + rest) == Normalize(first2 + "\n" + rest)
  {
    SplitField(first1, rest, '\n');
    SplitField(first2, rest, '\n');
    assert Split(first1 + "\n" + rest, '\n')[1..] == Split(rest, '\n');
    assert Split(first2 + "\n" + rest, '\n')[1..] == Split(rest, '\n');
  }

  // ---------------------------------------------------------------------------
  // running the normaliser on its own output

  /** A row that the line rule rebuilds unchanged from its own written line. */
  predicate Stable(r: Row) {
    var line := Trim(r.Serialize());
    line != [] && '\n' !in line && NormalizeLine(line) == r
  }

  /** Replacing the first character of `t` by a string `u` free of `(` moves every group
      opening by the change in length: a group opened in `u + t[1..]` was opened in `t`. */
  lemma GroupShift(t: string, u: string, q: int)
    requires |t| >= 1 && |u| >= 1 && '(' !in u
    requires OpensTrailingGroup(u + t[1..], q)
    ensures q >= |u| && OpensTrailingGroup(t, q - |u| + 1)
  {
    var s := u + t[1..];
    var p := q - |u| + 1;
    forall k | 0 <= k < |u| ensures s[k] != '(' {
      assert s[k] == u[k];
    }
    assert t[1..] == s[|u|..];
    assert t[p] == s[q];
    assert t[|t| - 1] == s[|s| - 1];
    assert t[p + 1..|t| - 1] == s[q + 1..|s| - 1];
  }

  /** With solid first pieces, the first group is free of line terminators after the
      replacement only if it was before. */
  lemma PrefixShift(t: string, u: string, q: int)
    requires |t| >= 1 && !IsWhitespace(t[0])
    requires |u| >= 1 && !IsWhitespace(u[|u| - 1])
    requires |u| <= q <= |u| + |t| - 1
    requires SingleLine(TrimEnd((u + t[1..])[..q]))
    ensures SingleLine(TrimEnd(t[..q - |u| + 1]))
  {
    var p := q - |u| + 1;
    var mid := t[1..p];
    assert TrimEnd(t[..p]) == [t[0]] + TrimEnd(mid) by {
      assert t[..p] == [t[0]] + mid;
      TrimEndAfterSolid([t[0]], mid);
    }
    assert TrimEnd((u + t[1..])[..q]) == u + TrimEnd(mid) by {
      assert (u + t[1..])[..q] == u + mid;
      TrimEndAfterSolid(u, mid);
    }
    SingleLineSwapHead(u, [t[0]], TrimEnd(mid));
  }

  /** Whether a string spans one line does not depend on a single-line head. */
  lemma SingleLineSwapHead(a: string, b: string, x: string)
    requires SingleLine(a + x) && SingleLine(b)
    ensures SingleLine(b + x)
  {
    forall i | 0 <= i < |b + x| ensures !IsLineTerminator((b + x)[i]) {
      if i >= |b| {
        assert (b + x)[i] == (a + x)[|a| + i - |b|];
      }
    }
  }

  /** Upper-casing the first character of a line cannot create a match: the capitals it
      may write are never parentheses or whitespace, so a match in the capitalised line is
      a match in the original, shifted by the change in length. */
  lemma CapitalizeMatchesOnlyIf(t: string, q: int)
    requires t != [] && !IsWhitespace(t[0])
    ensures MatchesAt(CapitalizeFirst(t), q) ==> MatchesAt(t, q - |ToUpper(t[0])| + 1)
  {
    var u := ToUpper(t[0]);
    var s := CapitalizeFirst(t);
    assert s == u + t[1..];
    if u == [t[0]] {
      assert s == t;
    } else if MatchesAt(s, q) {
      assert '(' !in u && !IsWhitespace(u[|u| - 1]) by {
        assert forall k | 0 <= k < |u| :: IsUpperLetter(u[k]);
      }
      GroupShift(t, u, q);
      PrefixShift(t, u, q);
    }
  }

  /** A line the pattern does not match is still not matched once capitalised. */
  lemma CapitalizeKeepsNoMatch(t: string)
    requires t != [] && !IsWhitespace(t[0])
    requires ParenMatch(t).None?
    ensures ParenMatch(CapitalizeFirst(t)).None?
  {
    ParenMatchLeast(t);
    ParenMatchLeast(CapitalizeFirst(t));
    forall q | 0 <= q < |CapitalizeFirst(t)| ensures !MatchesAt(CapitalizeFirst(t), q) {
      CapitalizeMatchesOnlyIf(t, q);
    }
  }

  /** A two-column row with capitalised text is written as `text<TAB>help`, which the tab
      rule splits back into the same two columns. */
  lemma TwoColumnStable(r: Row)
    requires NormalRow(r) && r.text != [] && r.help != []
    requires CapitalizeFirst(r.text) == r.text
    ensures Stable(r)
  {
    var line := r.Serialize();
    SerializeShape(r);
    assert r.Columns() == [r.text, r.help] && [r.text, r.help][1..] == [r.help];
    assert Join([r.text, r.help], '\t') == r.text + ['\t'] + Join([r.help], '\t');
    assert line == r.text + ['\t'] + r.help;
    assert line[0] == r.text[0];
    TrimOfTrimmed(line);
    assert '\t' in line;
    assert Split(line, '\t')[1..] == [r.help];
    TrimOfTrimmed(r.text);
    TrimOfTrimmed(r.help);
  }

  /** A one-column row is written as its text, which capitalising again leaves alone. */
  lemma OneColumnStable(t: string)
    requires t != [] && Trimmed(t) && '\n' !in t && '\t' !in t
    requires ParenMatch(t).None?
    ensures Stable(NormalizeLine(t))
  {
    var r := NormalizeLine(t);
    var s := CapitalizeFirst(t);
    assert r == Row(s, []);
    assert r.Serialize() == s;
    TrimOfTrimmed(s);
    CapitalizeKeepsNoMatch(t);
    CapitalizeIdempotent(t);
  }

  /** A row of help alone is written as `<TAB>(…)`. Trimmed, that is the parenthetical
      again, which the pattern matches at its first character with an empty first group. */
  lemma HelpOnlyStable(r: Row, inner: string)
    requires NormalRow(r) && r.text == []
    requires r.help == "(" + inner + ")" && ')' !in inner && Trimmed(inner)
    ensures Stable(r)
  {
    var h := r.help;
    var line := r.Serialize();
    assert r.Columns() == [[], h] && [[], h][1..] == [h];
    assert Join([[], h], '\t') == [] + ['\t'] + Join([h], '\t');
    assert line == ['\t'] + h;
    assert line[1..] == h;
    assert h[0] == '(' && h[|h| - 1] == ')';
    assert LeadingWhitespace(line) == 1;
    TrimOfTrimmed(h);
    assert Trim(line) == h;
    assert h[1..|h| - 1] == inner;
    assert MatchesAt(h, 0);
    assert ParenMatch(h) == Some(Match([], inner));
    TrimOfTrimmed(inner);
  }

  /** Every row the line rule builds is rebuilt unchanged from its own written line. */
  lemma LineStable(t: string)
    requires t != [] && Trimmed(t) && '\n' !in t
    ensures Stable(NormalizeLine(t))
  {
    if '\t' in t {
      CapitalizeIdempotent(Trim(Split(t, '\t')[0]));
      TwoColumnStable(NormalizeLine(t));
    } else if ParenMatch(t).None? {
      OneColumnStable(t);
    } else {
      ParenLineStable(t);
    }
  }

  /** The row of a line with a trailing parenthetical is rebuilt unchanged. */
  lemma ParenLineStable(t: string)
    requires t != [] && Trimmed(t) && '\n' !in t && '\t' !in t
    requires ParenMatch(t).Some?
    ensures Stable(NormalizeLine(t))
  {
    var r := NormalizeLine(t);
    var m := ParenMatch(t).value;
    assert ')' !in Trim(m.inner) by {
      FindMatchLeast(t, 0);
      var p := FindMatch(t, 0).value;
      assert m.inner == t[p + 1..|t| - 1];
      TrimKeepsOut(m.inner, ')');
    }
    assert r == Row(CapitalizeFirst(Trim(m.before)), "(" + Trim(m.inner) + ")");
    ParenRowStable(Trim(m.before), Trim(m.inner));
  }

  /** A normal row of capitalised text and a parenthetical is stable, with or without
      text. */
  lemma ParenRowStable(before: string, inner: string)
    requires NormalRow(Row(CapitalizeFirst(before), "(" + inner + ")"))
    requires ')' !in inner && Trimmed(inner)
    ensures Stable(Row(CapitalizeFirst(before), "(" + inner + ")"))
  {
    var r := Row(CapitalizeFirst(before), "(" + inner + ")");
    CapitalizeIdempotent(before);
    if r.text == [] {
      HelpOnlyStable(r, inner);
    } else {
      TwoColumnStable(r);
    }
  }

  /** The written lines of some rows, each newline-free, and the empty piece after them. */
  lemma TerminatedLinesClean(rows: seq<Row>)
    requires forall i | 0 <= i < |rows| :: NormalRow(rows[i])
    ensures NoneContains(SerializeAll(rows) + [[]], '\n')
  {
    var lines := SerializeAll(rows) + [[]];
    SerializeAllShape(rows);
    forall i | 0 <= i < |lines| ensures '\n' !in lines[i] {
      if i < |rows| {
        assert lines[i] == SerializeAll(rows)[i];
      }
    }
  }

  /** The loop rebuilds stable rows from their written lines, and skips the empty piece
      after the final newline as blank. */
  lemma {:induction false} RowsStable(rows: seq<Row>)
    requires forall i | 0 <= i < |rows| :: NormalRow(rows[i]) && Stable(rows[i])
    ensures NoneContains(SerializeAll(rows) + [[]], '\n')
    ensures NormalizeRows(SerializeAll(rows) + [[]]) == rows
  {
    var lines := SerializeAll(rows) + [[]];
    TerminatedLinesClean(rows);
    if |rows| == 0 {
      assert lines == [[]];
      assert Trim([]) == [];
    } else {
      RowsStable(rows[1..]);
      RowsStableStep(rows);
    }
  }

  /** The inductive step: a stable first row in front of rows that read back. */
  lemma RowsStableStep(rows: seq<Row>)
    requires |rows| > 0 && NormalRow(rows[0]) && Stable(rows[0])
    requires NoneContains(SerializeAll(rows) + [[]], '\n')
    requires NoneContains(SerializeAll(rows[1..]) + [[]], '\n')
    requires NormalizeRows(SerializeAll(rows[1..]) + [[]]) == rows[1..]
    ensures NormalizeRows(SerializeAll(rows) + [[]]) == rows
  {
    var lines := SerializeAll(rows) + [[]];
    SerializeAllTail(rows);
    NormalizeRowsCons(lines, rows[0]);
    assert [rows[0]] + rows[1..] == rows;
  }

  /** The terminated lines of a non-empty row list: the first row's line, then the
      terminated lines of the rest. */
  lemma SerializeAllTail(rows: seq<Row>)
    requires |rows| > 0
    ensures (SerializeAll(rows) + [[]])[0] == rows[0].Serialize()
    ensures (SerializeAll(rows) + [[]])[1..] == SerializeAll(rows[1..]) + [[]]
  {
  }

  /** A first line that reads back as row `r` contributes exactly `r`. */
  lemma NormalizeRowsCons(lines: seq<string>, r: Row)
    requires |lines| > 0 && NoneContains(lines, '\n')
    requires Trim(lines[0]) != [] && NormalizeLine(Trim(lines[0])) == r
    ensures NormalizeRows(lines) == [r] + NormalizeRows(lines[1..])
  {
  }


  /** Every row built from a file is normal and stable. */
  lemma RowsOfStable(content: string)
    ensures forall k | 0 <= k < |RowsOf(content)| ::
      NormalRow(RowsOf(content)[k]) && Stable(RowsOf(content)[k])
  {
    var data := Split(content, '\n')[1..];
    NormalizeRowsPerLine(data);
    forall k | 0 <= k < |RowsOf(content)|
      ensures NormalRow(RowsOf(content)[k]) && Stable(RowsOf(content)[k])
    {
      LineStable(Trim(NonBlank(data)[k]));
    }
  }

  /** Reading a written file back yields the stable rows it was written from. */
  lemma RenderReadBack(rows: seq<Row>)
    requires forall i | 0 <= i < |rows| :: NormalRow(rows[i]) && Stable(rows[i])
    ensures RowsOf(Render(rows)) == rows
  {
    RenderDataLines(rows);
    RowsStable(rows);
  }

  /** The lines after the header of written content: one per row, then the empty piece
      after the final newline. */
  lemma RenderDataLines(rows: seq<Row>)
    requires forall i | 0 <= i < |rows| :: NormalRow(rows[i])
    ensures Split(Render(rows), '\n')[1..] == SerializeAll(rows) + [[]]
  {
    RenderLines(rows);
  }

  /** Normalising is idempotent: run on its own output, the normaliser writes the same
      content back and reports the same `hasHelp`. */
  lemma NormalizeIdempotent(content: string)
    ensures Normalize(Normalize(content).content) == Normalize(content)
  {
    var rows := RowsOf(content);
    RowsOfStable(content);
    RenderReadBack(rows);
    NormalizeIsRender(content);
    NormalizeIsRender(Render(rows));
  }
}
