/**
 The string primitives the build script leans on, as JavaScript defines them:
 `String.prototype.trim`, `split` on a one-character separator, `Array.prototype.join`,
 and the first-character capitalisation `capitalizeFirst` (build.js:9-12).
 Strings are sequences of Unicode scalar values.
 */
module Text {

  /** The characters `trim` strips and the regular-expression class `\s` matches:
      ECMAScript's WhiteSpace and LineTerminator code points. */
  predicate IsWhitespace(c: char) {
    || c == '\t' || c == '\n' || c == '\U{000B}' || c == '\U{000C}' || c == '\r' || c == ' '
    || c == '\U{00A0}' || c == '\U{1680}' || ('\U{2000}' <= c <= '\U{200A}')
    || c == '\U{2028}' || c == '\U{2029}' || c == '\U{202F}' || c == '\U{205F}'
    || c == '\U{3000}' || c == '\U{FEFF}'
  }

  /** The characters a regular-expression `.` refuses to match. */
  predicate IsLineTerminator(c: char) {
    c == '\n' || c == '\r' || c == '\U{2028}' || c == '\U{2029}'
  }

  predicate AllWhitespace(s: string) {
    forall i | 0 <= i < |s| :: IsWhitespace(s[i])
  }

  /** Neither end of `s` is whitespace, so `trim` leaves it alone. */
  predicate Trimmed(s: string) {
    s == [] || (!IsWhitespace(s[0]) && !IsWhitespace(s[|s| - 1]))
  }

  /** The length of the whitespace run that starts `s`. */
  function LeadingWhitespace(s: string): (n: nat)
    ensures n <= |s|
    ensures forall i | 0 <= i < n :: IsWhitespace(s[i])
    ensures n == |s| || !IsWhitespace(s[n])
  {
    if |s| > 0 && IsWhitespace(s[0]) then 1 + LeadingWhitespace(s[1..]) else 0
  }

  /** The length of the whitespace run that ends `s`. */
  function TrailingWhitespace(s: string): (n: nat)
    ensures n <= |s|
    ensures forall i | |s| - n <= i < |s| :: IsWhitespace(s[i])
    ensures n == |s| || !IsWhitespace(s[|s| - n - 1])
  {
    if |s| > 0 && IsWhitespace(s[|s| - 1]) then 1 + TrailingWhitespace(s[..|s| - 1]) else 0
  }

  /** Drops the leading whitespace. */
  function TrimStart(s: string): (r: string)
    ensures r == [] || !IsWhitespace(r[0])
  {
    s[LeadingWhitespace(s)..]
  }

  /** Drops the trailing whitespace. */
  function TrimEnd(s: string): (r: string)
    ensures r == [] || !IsWhitespace(r[|r| - 1])
  {
    s[..|s| - TrailingWhitespace(s)]
  }

  /** `String.prototype.trim`: what is left once whitespace is cut from both ends. */
  function Trim(s: string): (r: string)
    ensures Trimmed(r)
    ensures |r| <= |s|
  {
    TrimEnd(TrimStart(s))
  }

  /** What `trim` keeps is the input less a whitespace run at each end. */
  lemma TrimCutsEnds(s: string)
    ensures exists a, b :: s == a + Trim(s) + b && AllWhitespace(a) && AllWhitespace(b)
  {
    var t := TrimStart(s);
    TrimStartCut(s);
    TrimEndCut(t);
    var a, b := s[..LeadingWhitespace(s)], t[|TrimEnd(t)|..];
    assert s == a + Trim(s) + b;
    CutWitness(s, Trim(s), a, b);
  }

  lemma TrimStartCut(s: string)
    ensures AllWhitespace(s[..LeadingWhitespace(s)])
    ensures s == s[..LeadingWhitespace(s)] + TrimStart(s)
  {
    var a := s[..LeadingWhitespace(s)];
    forall i | 0 <= i < |a| ensures IsWhitespace(a[i]) {
      assert a[i] == s[i];
    }
  }

  lemma TrimEndCut(t: string)
    ensures AllWhitespace(t[|TrimEnd(t)|..])
    ensures t == TrimEnd(t) + t[|TrimEnd(t)|..]
  {
    var r := TrimEnd(t);
    var b := t[|r|..];
    forall i | 0 <= i < |b| ensures IsWhitespace(b[i]) {
      assert b[i] == t[|r| + i];
    }
  }

  lemma CutWitness(s: string, r: string, a: string, b: string)
    requires s == a + r + b && AllWhitespace(a) && AllWhitespace(b)
    ensures exists a', b' :: s == a' + r + b' && AllWhitespace(a') && AllWhitespace(b')
  {
  }

  /** `trim` blanks a string exactly when every character of it is whitespace. */
  lemma TrimBlank(s: string)
    ensures Trim(s) == [] <==> AllWhitespace(s)
  {
    var n := LeadingWhitespace(s);
    var t := s[n..];
    var m := TrailingWhitespace(t);
    if n < |s| {
      assert t[0] == s[n];
      assert !IsWhitespace(t[0]);
      assert m < |t|;
    }
  }

  /** A string made of whitespace only is trimmed away completely. */
  lemma {:induction false} LeadingAllWhitespace(s: string)
    requires AllWhitespace(s)
    ensures LeadingWhitespace(s) == |s|
  {
    if |s| > 0 {
      LeadingAllWhitespace(s[1..]);
    }
  }

  /** Any string whose ends are not whitespace is its own trim. */
  lemma TrimOfTrimmed(s: string)
    requires Trimmed(s)
    ensures Trim(s) == s
  {
    assert LeadingWhitespace(s) == 0;
    assert TrimStart(s) == s;
    assert TrailingWhitespace(s) == 0;
  }

  /** Cutting a whitespace tail off a string that ends in non-whitespace gives back exactly
      that string. */
  lemma {:induction false} TrimEndOfPadded(x: string, w: string)
    requires x == [] || !IsWhitespace(x[|x| - 1])
    requires AllWhitespace(w)
    ensures TrailingWhitespace(x + w) == |w|
    ensures TrimEnd(x + w) == x
  {
    if w == [] {
      assert x + w == x;
    } else {
      var s := x + w;
      assert s[|s| - 1] == w[|w| - 1];
      assert s[..|s| - 1] == x + w[..|w| - 1];
      TrimEndOfPadded(x, w[..|w| - 1]);
    }
    assert (x + w)[..|x|] == x;
  }

  /** Trailing whitespace does not change what `trim` keeps. */
  lemma TrimPadded(x: string, w: string)
    requires Trimmed(x)
    requires AllWhitespace(w)
    ensures Trim(x + w) == x
  {
    if x == [] {
      assert x + w == w;
      LeadingAllWhitespace(w);
    } else {
      assert (x + w)[0] == x[0];
      assert LeadingWhitespace(x + w) == 0;
      assert TrimStart(x + w) == x + w;
      TrimEndOfPadded(x, w);
    }
  }

  lemma TrimIdempotent(s: string)
    ensures Trim(Trim(s)) == Trim(s)
  {
    TrimOfTrimmed(Trim(s));
  }

  /** A piece that ends in non-whitespace shields what comes before it from `TrimEnd`. */
  lemma {:induction false} TrimEndAfterSolid(a: string, y: string)
    requires a != [] && !IsWhitespace(a[|a| - 1])
    ensures TrailingWhitespace(a + y) == TrailingWhitespace(y)
    ensures TrimEnd(a + y) == a + TrimEnd(y)
  {
    var s := a + y;
    if y == [] {
      assert s == a;
    } else {
      assert s[|s| - 1] == y[|y| - 1];
      assert s[..|s| - 1] == a + y[..|y| - 1];
      TrimEndAfterSolid(a, y[..|y| - 1]);
    }
    assert s[..|s| - TrailingWhitespace(y)] == a + y[..|y| - TrailingWhitespace(y)];
  }

  /** Trimming only removes characters. */
  lemma TrimKeepsOut(s: string, c: char)
    requires c !in s
    ensures c !in Trim(s) && c !in TrimEnd(s) && c !in TrimStart(s)
  {
    var t := TrimStart(s);
    assert forall i | 0 <= i < |t| :: t[i] == s[LeadingWhitespace(s) + i];
    var r := TrimEnd(t);
    assert forall i | 0 <= i < |r| :: r[i] == t[i];
    var e := TrimEnd(s);
    assert forall i | 0 <= i < |e| :: e[i] == s[i];
  }

  // ---------------------------------------------------------------------------
  // split and join

  /** `s.split(d)` for a one-character separator `d`. */
  function Split(s: string, d: char): (r: seq<string>)
    ensures |r| >= 1
    ensures forall i | 0 <= i < |r| :: d !in r[i]
    ensures d !in s ==> r == [s]
  {
    if |s| == 0 then [[]]
    else
      var rest := Split(s[1..], d);
      if s[0] == d then [[]] + rest
      else
        assert d !in s ==> d !in s[1..] && rest == [s[1..]] && [s[0]] + s[1..] == s;
        [[s[0]] + rest[0]] + rest[1..]
  }

  /** `parts.join(d)`; the empty array joins to the empty string. */
  function Join(parts: seq<string>, d: char): (r: string)
  {
    if |parts| == 0 then []
    else if |parts| == 1 then parts[0]
    else parts[0] + [d] + Join(parts[1..], d)
  }

  predicate NoneContains(parts: seq<string>, d: char) {
    forall i | 0 <= i < |parts| :: d !in parts[i]
  }

  lemma {:induction false} JoinSplit(s: string, d: char)
    ensures Join(Split(s, d), d) == s
  {
    if |s| == 0 {
    } else {
      var rest := Split(s[1..], d);
      JoinSplit(s[1..], d);
      assert s == [s[0]] + s[1..];
      if s[0] == d {
        assert Split(s, d) == [[]] + rest;
        JoinEmptyFront(rest, d);
      } else {
        assert Split(s, d) == [[s[0]] + rest[0]] + rest[1..];
        JoinCharFront(s[0], rest, d);
      }
    }
  }

  /** An empty first part contributes only its separator. */
  lemma JoinEmptyFront(rest: seq<string>, d: char)
    requires |rest| >= 1
    ensures Join([[]] + rest, d) == [d] + Join(rest, d)
  {
    assert ([[]] + rest)[1..] == rest;
  }

  /** A character put in front of the first part comes first in the join. */
  lemma JoinCharFront(c: char, rest: seq<string>, d: char)
    requires |rest| >= 1
    ensures Join([[c] + rest[0]] + rest[1..], d) == [c] + Join(rest, d)
  {
    var r := [[c] + rest[0]] + rest[1..];
    if |rest| > 1 {
      assert r[1..] == rest[1..];
    }
  }

  /** A split yields one field more than there are separators. */
  lemma {:induction false} SplitCount(s: string, d: char)
    ensures |Split(s, d)| == multiset(s)[d] + 1
  {
    if |s| > 0 {
      SplitCount(s[1..], d);
      assert s == [s[0]] + s[1..];
      assert multiset(s) == multiset{s[0]} + multiset(s[1..]);
    }
  }

  /** A separator-free piece followed by the separator splits off as one field. */
  lemma {:induction false} SplitField(p: string, t: string, d: char)
    requires d !in p
    ensures Split(p + [d] + t, d) == [p] + Split(t, d)
  {
    if |p| == 0 {
      assert p + [d] + t == [d] + t;
      assert ([d] + t)[1..] == t;
    } else {
      var s := p + [d] + t;
      assert s[0] == p[0];
      assert s[1..] == p[1..] + [d] + t;
      SplitField(p[1..], t, d);
      assert [p[0]] + p[1..] == p;
    }
  }

  /** Splitting undoes joining when no part holds the separator. */
  lemma {:induction false} SplitJoin(parts: seq<string>, d: char)
    requires |parts| >= 1
    requires NoneContains(parts, d)
    ensures Split(Join(parts, d), d) == parts
  {
    if |parts| == 1 {
      assert d !in parts[0];
    } else {
      assert d !in parts[0];
      SplitJoin(parts[1..], d);
      SplitField(parts[0], Join(parts[1..], d), d);
      assert [parts[0]] + parts[1..] == parts;
    }
  }

  lemma {:induction false} JoinAppend(a: seq<string>, b: seq<string>, d: char)
    requires |a| >= 1 && |b| >= 1
    ensures Join(a + b, d) == Join(a, d) + [d] + Join(b, d)
  {
    if |a| == 1 {
      assert (a + b)[1..] == b;
    } else {
      assert (a + b)[1..] == a[1..] + b;
      JoinAppend(a[1..], b, d);
    }
  }

  /** The joined string starts with the first part. */
  lemma {:induction false} JoinStartsWithFirst(parts: seq<string>, d: char)
    requires |parts| >= 1
    ensures |parts[0]| <= |Join(parts, d)|
    ensures Join(parts, d)[..|parts[0]|] == parts[0]
  {
  }

  /** The joined string ends with the last part. */
  lemma {:induction false} JoinEndsWithLast(parts: seq<string>, d: char)
    requires |parts| >= 1
    ensures |parts[|parts| - 1]| <= |Join(parts, d)|
    ensures Join(parts, d)[|Join(parts, d)| - |parts[|parts| - 1]|..] == parts[|parts| - 1]
  {
    if |parts| > 1 {
      JoinEndsWithLast(parts[1..], d);
      var j := Join(parts[1..], d);
      assert Join(parts, d) == (parts[0] + [d]) + j;
    }
  }

  /** A join whose first part starts and whose last part ends in non-whitespace. */
  lemma JoinTrimmed(lines: seq<string>, d: char)
    requires |lines| >= 1 && lines[0] != [] && lines[|lines| - 1] != []
    requires !IsWhitespace(lines[0][0])
    requires !IsWhitespace(lines[|lines| - 1][|lines[|lines| - 1]| - 1])
    ensures Trimmed(Join(lines, d))
  {
    var body := Join(lines, d);
    JoinStartsWithFirst(lines, d);
    assert body[0] == lines[0][0];
    JoinEndsWithLast(lines, d);
    var last := lines[|lines| - 1];
    assert body[|body| - 1] == last[|last| - 1];
  }

  /** Joining and then ending with the separator splits back into the parts and one
      empty piece, as `lines.join('\n') + '\n'` does. */
  lemma JoinTerminated(parts: seq<string>, d: char)
    requires |parts| >= 1
    requires NoneContains(parts, d)
    ensures Split(Join(parts, d) + [d], d) == parts + [[]]
  {
    var all := parts + [[]];
    JoinAppend(parts, [[]], d);
    assert Join(all, d) == Join(parts, d) + [d];
    forall i | 0 <= i < |all| ensures d !in all[i] {
      if i < |parts| {
        assert all[i] == parts[i];
      }
    }
    SplitJoin(all, d);
  }

  /** A string not starting with the separator has a first field starting as it does. */
  lemma SplitFirstStart(s: string, d: char)
    requires s != [] && s[0] != d
    ensures Split(s, d)[0] != [] && Split(s, d)[0][0] == s[0]
  {
  }

  /** A joined string contains only characters of its parts and the separator. */
  lemma {:induction false} JoinChars(parts: seq<string>, d: char, c: char)
    requires c != d
    requires forall i | 0 <= i < |parts| :: c !in parts[i]
    ensures c !in Join(parts, d)
  {
    if |parts| > 1 {
      JoinChars(parts[1..], d, c);
    }
  }

  // ---------------------------------------------------------------------------
  // case mapping

  /** The upper-case letters produced by `ToUpper`: A-Z, the Latin-1 capitals, capital Y
      with diaeresis and Greek capital mu. */
  predicate IsUpperLetter(c: char) {
    || ('A' <= c <= 'Z') || ('\U{00C0}' <= c <= '\U{00DE}' && c != '\U{00D7}')
    || c == '\U{0178}' || c == '\U{039C}'
  }

  /** `toUpperCase` of one character. The mapping is a partial table covering the lower-case
      letters of Latin-1: a-z, the accented letters, y with diaeresis, the micro sign and
      sharp s, which becomes two letters. Every other character maps to itself. */
  function ToUpper(c: char): (r: string)
    ensures |r| >= 1
    ensures r == [c] || forall i | 0 <= i < |r| :: IsUpperLetter(r[i])
    ensures 'a' <= c <= 'z' ==> r == [(c as int - 32) as char]
    ensures IsUpperLetter(c) ==> r == [c]
  {
    if 'a' <= c <= 'z' then [(c as int - 32) as char]
    else if c == '\U{00DF}' then "SS"
    else if c == '\U{00FF}' then ['\U{0178}']
    else if c == '\U{00B5}' then ['\U{039C}']
    else if '\U{00E0}' <= c <= '\U{00FE}' && c != '\U{00F7}' then [(c as int - 32) as char]
    else [c]
  }

  /** `toLowerCase` of one character, over the capitals `ToUpper` produces. Greek capital
      mu lowers to the Greek small mu, not to the micro sign. */
  function LowerChar(c: char): (l: char)
    ensures !IsUpperLetter(c) ==> l == c
    ensures IsUpperLetter(c) ==> !IsUpperLetter(l)
  {
    if c == '\U{0178}' then '\U{00FF}'
    else if c == '\U{039C}' then '\U{03BC}'
    else if IsUpperLetter(c) then (c as int + 32) as char
    else c
  }

  /** `toLowerCase`, character by character. */
  function ToLower(s: string): (r: string)
    ensures |r| == |s|
    ensures forall i | 0 <= i < |s| :: ('A' <= s[i] <= 'Z' ==> r[i] == (s[i] as int + 32) as char)
    ensures forall i | 0 <= i < |s| :: !IsUpperLetter(s[i]) ==> r[i] == s[i]
    ensures forall i | 0 <= i < |r| :: !IsUpperLetter(r[i])
  {
    if |s| == 0 then []
    else [LowerChar(s[0])] + ToLower(s[1..])
  }

  /** `capitalizeFirst`: the empty string stays empty; otherwise the first character is
      replaced by its upper-case form and the rest is kept. */
  function CapitalizeFirst(s: string): (r: string)
    ensures s == [] <==> r == []
    ensures s != [] ==> |r| >= |s| && r[|r| - |s| + 1..] == s[1..]
    ensures s != [] ==> r[..|r| - |s| + 1] == ToUpper(s[0])
  {
    if s == [] then s else ToUpper(s[0]) + s[1..]
  }

  /** A character that capitalisation and the help-column rules treat as ordinary text. */
  predicate Inert(c: char) {
    !IsWhitespace(c) && c != '(' && c != ')'
  }

  /** Capitalising never introduces whitespace, parentheses, tabs or newlines, and it keeps
      the ends of a trimmed string non-blank. */
  lemma CapitalizeKeepsShape(s: string, c: char)
    requires !Inert(c) && c !in s
    ensures c !in CapitalizeFirst(s)
  {
    if s != [] {
      var u := ToUpper(s[0]);
      assert c !in u by {
        if u != [s[0]] {
          assert forall i | 0 <= i < |u| :: IsUpperLetter(u[i]);
        }
      }
      assert s[0] in s;
      assert CapitalizeFirst(s) == u + s[1..];
    }
  }

  lemma CapitalizeKeepsTrimmed(s: string)
    requires Trimmed(s)
    ensures Trimmed(CapitalizeFirst(s))
  {
    if s != [] {
      var u := ToUpper(s[0]);
      var r := CapitalizeFirst(s);
      assert r == u + s[1..];
      ToUpperSolid(s[0]);
      if |s| == 1 {
        assert r == u;
      } else {
        assert r[|r| - 1] == s[|s| - 1];
      }
    }
  }

  /** Upper-casing a character that is not whitespace gives none at either end. */
  lemma ToUpperSolid(c: char)
    requires !IsWhitespace(c)
    ensures !IsWhitespace(ToUpper(c)[0]) && !IsWhitespace(ToUpper(c)[|ToUpper(c)| - 1])
  {
    var u := ToUpper(c);
    if u != [c] {
      assert IsUpperLetter(u[0]);
      assert IsUpperLetter(u[|u| - 1]);
    }
  }

  /** Capitalising twice is capitalising once. */
  lemma CapitalizeIdempotent(s: string)
    ensures CapitalizeFirst(CapitalizeFirst(s)) == CapitalizeFirst(s)
  {
    if s != [] {
      var u := ToUpper(s[0]);
      var r := u + s[1..];
      assert CapitalizeFirst(s) == r;
      assert r[0] == u[0];
      assert ToUpper(u[0]) == [u[0]] by {
        if u == [s[0]] {
          assert u[0] == s[0];
          assert ToUpper(s[0]) == [s[0]];
        } else {
          assert IsUpperLetter(u[0]);
        }
      }
      assert [r[0]] + r[1..] == r;
    }
  }
}
