/**
 `alphabetizeTsvFile` (build.js:120-139) and `countPrompts` (build.js:75-80) without
 their file access. Both read the content the way the validator does: trimmed as a whole,
 then split on newlines.
 */
module Alphabetizer {
  import opened Text
  import opened Collation
  import opened Validator

  /** The sort key of a data line: its first tab field, lower-cased. */
  function RowKey(line: string): string {
    ToLower(Split(line, '\t')[0])
  }

  /** The content `alphabetizeTsvFile` writes back. With at most one line there is
      nothing to sort and the file is left as it was. */
  function Alphabetize(content: string): (r: string)
  {
    var lines := Split(Trim(content), '\n');
    if |lines| <= 1 then content
    else Join([lines[0]] + SortBy(lines[1..], RowKey), '\n') + "\n"
  }

  /** `countPrompts`: the number of lines after the header, never negative, which is the
      number of newlines left once the content is trimmed. */
  function CountPrompts(content: string): (n: nat)
    ensures n == multiset(Trim(content))['\n']
  {
    SplitCount(Trim(content), '\n');
    MaxZero(|Split(Trim(content), '\n')| - 1)
  }

  /** `Math.max(0, x)`. */
  function MaxZero(x: int): (m: nat)
    ensures m >= x && (m == 0 || m == x)
  {
    if x < 0 then 0 else x
  }

  /** A line whose last character is not whitespace; trimming never reaches into it. */
  predicate EndsSolid(line: string) {
    line != [] && !IsWhitespace(line[|line| - 1])
  }

  /** The count is the number of lines the validator checks as data rows. */
  lemma CountIsDataLines(content: string)
    ensures CountPrompts(content) == |Lines(content)| - 1
    ensures Trim(content) == [] ==> CountPrompts(content) == 0
  {
    assert Trim(content) == [] ==> Lines(content) == [[]];
  }

  /** The written file, line by line: the original first line, then the data lines
      rearranged into order of their keys, then the empty piece after the final newline.
      A file of at most one line is left untouched. */
  lemma AlphabetizeLines(content: string)
    ensures |Lines(content)| <= 1 ==> Alphabetize(content) == content
    ensures var lines := Lines(content);
      |lines| > 1 ==>
        var out := Split(Alphabetize(content), '\n');
        && |out| == |lines| + 1
        && out[0] == lines[0]
        && out[|lines|] == []
        && multiset(out[1..|lines|]) == multiset(lines[1..])
        && SortedBy(out[1..|lines|], RowKey)
  {
    var lines := Lines(content);
    if |lines| > 1 {
      var sorted := SortBy(lines[1..], RowKey);
      var parts := [lines[0]] + sorted;
      SortedLinesClean(lines, sorted);
      JoinTerminated(parts, '\n');
      var out := Split(Alphabetize(content), '\n');
      assert out == parts + [[]];
      assert out[1..|lines|] == sorted;
    }
  }

  /** The sorted data lines hold no newline, like the lines they come from. */
  lemma SortedLinesClean(lines: seq<string>, sorted: seq<string>)
    requires |lines| >= 1
    requires NoneContains(lines, '\n')
    requires multiset(sorted) == multiset(lines[1..])
    ensures NoneContains([lines[0]] + sorted, '\n')
  {
    var parts := [lines[0]] + sorted;
    forall i | 0 <= i < |parts| ensures '\n' !in parts[i] {
      if i > 0 {
        PermutationMember(sorted, lines[1..], i - 1);
        var k :| 0 <= k < |lines[1..]| && lines[1..][k] == sorted[i - 1];
        assert lines[k + 1] == parts[i];
      }
    }
  }

  /** The first line of non-empty trimmed content is non-empty and starts solid. */
  lemma HeaderStartsSolid(content: string)
    requires |Lines(content)| > 1
    ensures Lines(content)[0] != [] && !IsWhitespace(Lines(content)[0][0])
  {
    var t := Trim(content);
    assert t != [];
    assert IsWhitespace('\n');
    SplitFirstStart(t, '\n');
  }

  /** When every data line ends solid, trimming the alphabetised file removes only its
      final newline, so the validator sees the header and the sorted data lines. */
  lemma AlphabetizedLines(content: string)
    requires |Lines(content)| > 1
    requires forall i | 1 <= i < |Lines(content)| :: EndsSolid(Lines(content)[i])
    ensures Lines(Alphabetize(content)) ==
      [Lines(content)[0]] + SortBy(Lines(content)[1..], RowKey)
  {
    var lines := Lines(content);
    var sorted := SortBy(lines[1..], RowKey);
    var parts := [lines[0]] + sorted;
    var body := Join(parts, '\n');
    assert Alphabetize(content) == body + "\n";
    assert Trim(body + "\n") == body by {
      HeaderStartsSolid(content);
      LastSortedEndsSolid(content, sorted);
      JoinTrimmed(parts, '\n');
      assert AllWhitespace("\n");
      TrimPadded(body, "\n");
    }
    assert NoneContains(parts, '\n') by {
      SortedLinesClean(lines, sorted);
    }
    SplitJoin(parts, '\n');
  }

  /** The data line sorted last is one of the original data lines, so it ends solid. */
  lemma LastSortedEndsSolid(content: string, sorted: seq<string>)
    requires |Lines(content)| > 1
    requires forall i | 1 <= i < |Lines(content)| :: EndsSolid(Lines(content)[i])
    requires multiset(sorted) == multiset(Lines(content)[1..])
    ensures |sorted| > 0 && EndsSolid(sorted[|sorted| - 1])
  {
    var lines := Lines(content);
    assert |sorted| == |lines[1..]| by {
      assert |multiset(sorted)| == |multiset(lines[1..])|;
    }
    var n := |sorted| - 1;
    PermutationMember(sorted, lines[1..], n);
    var k :| 0 <= k < |lines[1..]| && lines[1..][k] == sorted[n];
    assert lines[k + 1] == sorted[n];
  }

  /** Rearranging the data lines keeps every row check passing. */
  lemma PermutedRowsOk(lines: seq<string>, out: seq<string>, e: nat)
    requires |lines| >= 1 && |out| == |lines| && out[0] == lines[0]
    requires multiset(out[1..]) == multiset(lines[1..])
    requires forall i | 1 <= i < |lines| :: RowOk(lines, i, e)
    ensures forall i | 1 <= i < |out| :: RowOk(out, i, e)
  {
    forall i | 1 <= i < |out| ensures RowOk(out, i, e) {
      PermutationMember(out[1..], lines[1..], i - 1);
      var k :| 0 <= k < |lines[1..]| && lines[1..][k] == out[1..][i - 1];
      assert out[i] == lines[k + 1];
      assert RowOk(lines, k + 1, e);
    }
  }

  /** Sorting keeps a valid file valid when its data lines end solid: the header stays
      first and each data line is checked on its own. */
  lemma AlphabetizeKeepsValid(content: string)
    requires Validate(content) == Valid
    requires forall i | 1 <= i < |Lines(content)| :: EndsSolid(Lines(content)[i])
    ensures Validate(Alphabetize(content)) == Valid
    ensures CountPrompts(Alphabetize(content)) == CountPrompts(content)
  {
    ValidateIsWellFormed(content);
    AlphabetizeKeepsWellFormed(content);
    ValidateIsWellFormed(Alphabetize(content));
    CountIsDataLines(content);
    CountIsDataLines(Alphabetize(content));
  }

  /** The same, stated over the declarative format: the alphabetised file is well formed
      and has as many lines as the original. */
  lemma AlphabetizeKeepsWellFormed(content: string)
    requires WellFormed(content)
    requires forall i | 1 <= i < |Lines(content)| :: EndsSolid(Lines(content)[i])
    ensures WellFormed(Alphabetize(content))
    ensures |Lines(Alphabetize(content))| == |Lines(content)|
  {
    if |Lines(content)| <= 1 {
      AlphabetizeLines(content);
    } else {
      var after := Alphabetize(content);
      var lines := Lines(content);
      assert |Lines(after)| == |lines| && Lines(after)[0] == lines[0]
        && multiset(Lines(after)[1..]) == multiset(lines[1..]) by {
        var sorted := SortBy(lines[1..], RowKey);
        AlphabetizedLines(content);
        assert Lines(after) == [lines[0]] + sorted;
        assert Lines(after)[1..] == sorted;
      }
      RowsPermutedWellFormed(content, after);
    }
  }

  /** Content whose lines are those of well-formed content, with the header kept and the
      data lines rearranged, is well formed too. */
  lemma RowsPermutedWellFormed(a: string, b: string)
    requires WellFormed(a)
    requires |Lines(b)| == |Lines(a)| && Lines(b)[0] == Lines(a)[0]
    requires multiset(Lines(b)[1..]) == multiset(Lines(a)[1..])
    ensures WellFormed(b)
  {
    var lines, out := Lines(a), Lines(b);
    PermutedRowsOk(lines, out, Expected(Trim(lines[0])));
  }

  /** A valid file can stop being valid once sorted. Here the middle line `b<TAB><space>`
      has a help field of whitespace only. Sorting moves it to the end, where the
      validator's `trim` of the whole file strips its tab along with the final newline,
      leaving that row one column short. */
  lemma AlphabetizeCanBreakValidity(content: string)
    requires content == "text\thelp\nb\t \na\tx\n"
    ensures Validate(content) == Valid
    ensures Validate(Alphabetize(content)) == Invalid(ColumnCount(3, 2, 1))
  {
    var h, b, a := "text\thelp", "b\t ", "a\tx";
    assert content == h + "\n" + b + "\n" + a + "\n";
    ExampleBefore(content, h, b, a);
    ExampleSorted(content, h, b, a);
    ExampleAfter(Alphabetize(content), h, a, b);
  }

  /** Splits `p + "\n" + q + "\n" + r` into its three lines. */
  lemma ThreeLines(p: string, q: string, r: string)
    requires '\n' !in p && '\n' !in q && '\n' !in r
    ensures Split(p + "\n" + q + "\n" + r, '\n') == [p, q, r]
  {
    SplitField(q, r, '\n');
    assert p + "\n" + q + "\n" + r == p + ['\n'] + (q + ['\n'] + r);
    SplitField(p, q + ['\n'] + r, '\n');
  }

  lemma HeaderLineOk(h: string)
    requires h == "text\thelp"
    ensures Trim(h) == h && HeaderOk(h) && Expected(h) == 2
    ensures Trimmed(h) && h[0] == 't' && '\n' !in h
  {
    assert !IsWhitespace('t') && !IsWhitespace('p');
    TrimOfTrimmed(h);
  }

  /** A line `x<TAB>y` with solid `x` has two columns. */
  lemma TwoColumnLine(line: string, x: char, y: string)
    requires line == [x, '\t'] + y
    requires !IsWhitespace(x) && x != '\t' && '\t' !in y
    ensures Split(line, '\t') == [[x], y]
    ensures Trim(line) != []
  {
    assert line == [x] + ['\t'] + y;
    SplitField([x], y, '\t');
    TrimBlank(line);
    assert line[0] == x;
  }

  /** Three newline-free lines, the last ending solid, followed by whitespace. */
  lemma LinesOfThree(c: string, p: string, q: string, r: string, w: string)
    requires '\n' !in p && '\n' !in q && '\n' !in r
    requires p != [] && !IsWhitespace(p[0]) && EndsSolid(r)
    requires AllWhitespace(w)
    requires c == p + "\n" + q + "\n" + r + w
    ensures Lines(c) == [p, q, r]
  {
    var body := p + "\n" + q + "\n" + r;
    assert body[0] == p[0] && body[|body| - 1] == r[|r| - 1];
    assert c == body + w;
    TrimPadded(body, w);
    ThreeLines(p, q, r);
  }

  lemma ExampleBefore(c: string, h: string, b: string, a: string)
    requires h == "text\thelp" && b == "b\t " && a == "a\tx"
    requires c == h + "\n" + b + "\n" + a + "\n"
    ensures Lines(c) == [h, b, a]
    ensures Validate(c) == Valid
  {
    HeaderLineOk(h);
    assert !IsWhitespace('x') && AllWhitespace("\n");
    LinesOfThree(c, h, b, a, "\n");
    ExampleRowsOk(b, a);
    ValidThree(c, h, b, a);
  }

  lemma ExampleRowsOk(b: string, a: string)
    requires b == "b\t " && a == "a\tx"
    ensures Trim(b) != [] && |Split(b, '\t')| == 2
    ensures Trim(a) != [] && |Split(a, '\t')| == 2
    ensures RowKey(b) == "b" && RowKey(a) == "a"
  {
    LetterRow(b, 'b', " ");
    LetterRow(a, 'a', "x");
  }

  /** A row of a single lower-case key character, a tab and a help field. */
  lemma LetterRow(line: string, x: char, y: string)
    requires line == [x, '\t'] + y
    requires !IsWhitespace(x) && x != '\t' && '\t' !in y && !IsUpperLetter(x)
    ensures Trim(line) != [] && |Split(line, '\t')| == 2 && RowKey(line) == [x]
  {
    TwoColumnLine(line, x, y);
    assert ToLower([x])[0] == x;
  }

  /** Content of a two-column header and two two-column rows validates. */
  lemma ValidThree(c: string, h: string, b: string, a: string)
    requires Lines(c) == [h, b, a]
    requires Trim(h) == h && h == "text\thelp"
    requires Trim(b) != [] && |Split(b, '\t')| == 2
    requires Trim(a) != [] && |Split(a, '\t')| == 2
    ensures Validate(c) == Valid
  {
    var lines := Lines(c);
    assert Expected(h) == 2;
    assert RowOk(lines, 1, 2) && RowOk(lines, 2, 2);
    ValidateIsWellFormed(c);
  }

  /** Two lines whose keys are strictly out of order are swapped. */
  lemma SortTwo(b: string, a: string)
    requires LocaleLeq(RowKey(a), RowKey(b)) && !LocaleLeq(RowKey(b), RowKey(a))
    ensures SortBy([b, a], RowKey) == [a, b]
  {
    assert [b, a][0] == b && [b, a][1..] == [a];
    assert SortBy([a], RowKey) == [a] by {
      assert [a][1..] == [];
    }
    assert Insert(b, [a], RowKey) == [a] + Insert(b, [], RowKey);
  }

  lemma JoinThree(p: string, q: string, r: string, d: char)
    ensures Join([p, q, r], d) == p + [d] + q + [d] + r
  {
    assert [p, q, r][1..] == [q, r] && [q, r][1..] == [r];
    assert Join([q, r], d) == q + [d] + r;
  }

  lemma ExampleSorted(c: string, h: string, b: string, a: string)
    requires h == "text\thelp" && b == "b\t " && a == "a\tx"
    requires Lines(c) == [h, b, a]
    ensures Alphabetize(c) == h + "\n" + a + "\n" + b + "\n"
  {
    ExampleRowsOk(b, a);
    assert !LocaleLeq("b", "a") && LocaleLeq("a", "b");
    SortTwo(b, a);
    AlphabetizeThree(c, h, b, a);
  }

  lemma AlphabetizeThree(c: string, h: string, b: string, a: string)
    requires Lines(c) == [h, b, a]
    requires SortBy([b, a], RowKey) == [a, b]
    ensures Alphabetize(c) == h + "\n" + a + "\n" + b + "\n"
  {
    assert Lines(c)[1..] == [b, a];
    assert [h] + [a, b] == [h, a, b];
    JoinThree(h, a, b, '\n');
  }

  lemma ExampleAfter(o: string, h: string, a: string, bl: string)
    requires h == "text\thelp" && a == "a\tx" && bl == "b\t "
    requires o == h + "\n" + a + "\n" + bl + "\n"
    ensures Validate(o) == Invalid(ColumnCount(3, 2, 1))
  {
    var b := "b";
    assert Trim(h) == h by {
      HeaderLineOk(h);
    }
    assert Lines(o) == [h, a, b] by {
      HeaderLineOk(h);
      assert !IsWhitespace('b') && AllWhitespace("\t \n");
      assert bl + "\n" == b + "\t \n";
      LinesOfThree(o, h, a, b, "\t \n");
    }
    assert Trim(a) != [] && |Split(a, '\t')| == 2 by {
      TwoColumnLine(a, 'a', "x");
    }
    assert |Split(b, '\t')| == 1 by {
      assert Split(b, '\t') == [b];
    }
    RejectsThird(o, h, a, b);
  }

  /** A two-column header over a two-column row and a one-column row: refused at line 3. */
  lemma RejectsThird(o: string, h: string, a: string, b: string)
    requires Lines(o) == [h, a, b]
    requires Trim(h) == h && h == "text\thelp"
    requires Trim(a) != [] && |Split(a, '\t')| == 2
    requires |Split(b, '\t')| == 1 && b == "b"
    ensures Validate(o) == Invalid(ColumnCount(3, 2, 1))
  {
    var lines := Lines(o);
    assert Expected(h) == 2;
    assert Trim(b) != [] by {
      assert !IsWhitespace('b');
      TrimBlank(b);
    }
    assert RowOk(lines, 1, 2) && !RowOk(lines, 2, 2);
    FirstBadLineUnique(lines, 1, 2, 2);
    ValidateReportsFirstFailure(o);
  }
}
