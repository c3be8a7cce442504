/**
 * `diff_strings` of comics_net/analyzer.py over the lines of
 * `difflib.ndiff`. For two strings `ndiff` compares them character by
 * character and writes one line per character: `"+ c"` for a character
 * only the second string has, `"- c"` for one only the first has and
 * `"  c"` for one they share. How `ndiff` chooses its alignment is not
 * modelled: `IsNdiffOf` only demands that the lines spell out both strings.
 */
module Ndiff {
  import opened PyText

  /** One line of `ndiff`'s output for a one-character element. */
  datatype DiffLine = Added(c: char) | Removed(c: char) | Kept(c: char)

  /** The line as `ndiff` writes it: a tag, a space and the character. */
  function LineText(l: DiffLine): (r: string)
    ensures |r| == 3 && r[2] == l.c && (r[0] == '+' <==> l.Added?)
  {
    match l
    case Added(c) => ['+', ' ', c]
    case Removed(c) => ['-', ' ', c]
    case Kept(c) => [' ', ' ', c]
  }

  /** The first string, as the removed and shared lines spell it. */
  function Before(lines: seq<DiffLine>): string
  {
    if lines == [] then []
    else (if lines[0].Added? then [] else [lines[0].c]) + Before(lines[1..])
  }

  /** The second string, as the added and shared lines spell it. */
  function After(lines: seq<DiffLine>): string
  {
    if lines == [] then []
    else (if lines[0].Removed? then [] else [lines[0].c]) + After(lines[1..])
  }

  /** `lines` is an edit script that turns `a` into `b`. */
  predicate IsNdiffOf(lines: seq<DiffLine>, a: string, b: string)
  {
    Before(lines) == a && After(lines) == b
  }

  /** The characters of the added lines, in order. */
  function Additions(lines: seq<DiffLine>): string
  {
    if lines == [] then []
    else (if lines[0].Added? then [lines[0].c] else []) + Additions(lines[1..])
  }

  /** `diff_strings(string1, string2)`: collect `val[2]` of every line starting with `+`. */
  method DiffStrings(string1: string, string2: string, ndiff: (string, string) -> seq<DiffLine>)
    returns (diff: string)
    ensures diff == Additions(ndiff(string1, string2))
  {
    var lines := ndiff(string1, string2);
    diff := "";
    for i := 0 to |lines|
      invariant diff == Additions(lines[..i])
    {
      var val := LineText(lines[i]);
      AdditionsConcat(lines[..i], [lines[i]]);
      assert lines[..i + 1] == lines[..i] + [lines[i]];
      if val[0] == '+' {
        diff := diff + [val[2]];
      }
    }
    assert lines[..|lines|] == lines;
  }

  // ---------------------------------------------------------------- properties

  /** What `diff_strings` returns is made of characters of the second string, in their order. */
  lemma {:induction false} AdditionsFromAfter(lines: seq<DiffLine>)
    ensures IsSubsequence(Additions(lines), After(lines))
  {
    if lines != [] {
      AdditionsFromAfter(lines[1..]);
      var rest, after := Additions(lines[1..]), After(lines[1..]);
      match lines[0]
      case Added(c) =>
        assert ([c] + rest)[1..] == rest && ([c] + after)[1..] == after;
      case Removed(c) =>
        assert Additions(lines) == rest && After(lines) == after;
      case Kept(c) =>
        SubsequenceCons(rest, after, c);
        assert Additions(lines) == rest && After(lines) == [c] + after;
    }
  }

  /** Against an empty first string every line is an added one, so the result is the second string. */
  lemma {:induction false} AdditionsFromNothing(lines: seq<DiffLine>)
    requires Before(lines) == []
    ensures Additions(lines) == After(lines)
  {
    if lines != [] {
      AdditionsFromNothing(lines[1..]);
    }
  }

  /** At most `|a|` characters of `b` are shared, so at least `|b| - |a|` are added. */
  lemma {:induction false} AdditionsLength(lines: seq<DiffLine>)
    ensures |Additions(lines)| + |Before(lines)| >= |After(lines)|
  {
    if lines != [] {
      AdditionsLength(lines[1..]);
    }
  }

  /** `diff_strings` of the test cases, for any edit script. */
  lemma DiffStringsBounds(lines: seq<DiffLine>, a: string, b: string)
    requires IsNdiffOf(lines, a, b)
    ensures IsSubsequence(Additions(lines), b) && |Additions(lines)| >= |b| - |a|
    ensures a == [] ==> Additions(lines) == b
  {
    AdditionsFromAfter(lines);
    AdditionsLength(lines);
    if a == [] {
      AdditionsFromNothing(lines);
    }
  }

  // ---------------------------------------------------------------- the test cases

  /** Every character of `s` on a line with the same tag. */
  function Lines(s: string, tag: char): (r: seq<DiffLine>)
    requires tag == '+' || tag == '-' || tag == ' '
    ensures |r| == |s|
  {
    if s == [] then []
    else [if tag == '+' then Added(s[0]) else if tag == '-' then Removed(s[0]) else Kept(s[0])] + Lines(s[1..], tag)
  }

  /** The first string of a script split into two parts. */
  lemma {:induction false} BeforeConcat(x: seq<DiffLine>, y: seq<DiffLine>)
    ensures Before(x + y) == Before(x) + Before(y)
  {
    if x == [] {
      assert x + y == y;
    } else {
      assert (x + y)[1..] == x[1..] + y;
      BeforeConcat(x[1..], y);
      var h := if x[0].Added? then [] else [x[0].c];
      assert Before(x + y) == h + (Before(x[1..]) + Before(y));
    }
  }

  /** The second string of a script split into two parts. */
  lemma {:induction false} AfterConcat(x: seq<DiffLine>, y: seq<DiffLine>)
    ensures After(x + y) == After(x) + After(y)
  {
    if x == [] {
      assert x + y == y;
    } else {
      assert (x + y)[1..] == x[1..] + y;
      AfterConcat(x[1..], y);
      var h := if x[0].Removed? then [] else [x[0].c];
      assert After(x + y) == h + (After(x[1..]) + After(y));
    }
  }

  /** The additions of a script split into two parts. */
  lemma {:induction false} AdditionsConcat(x: seq<DiffLine>, y: seq<DiffLine>)
    ensures Additions(x + y) == Additions(x) + Additions(y)
  {
    if x == [] {
      assert x + y == y;
    } else {
      assert (x + y)[1..] == x[1..] + y;
      AdditionsConcat(x[1..], y);
      var h := if x[0].Added? then [x[0].c] else [];
      assert Additions(x + y) == h + (Additions(x[1..]) + Additions(y));
    }
  }

  /** The readings of lines that all carry one tag. */
  lemma {:induction false} LinesReadings(s: string, tag: char)
    requires tag == '+' || tag == '-' || tag == ' '
    ensures Before(Lines(s, tag)) == (if tag == '+' then [] else s)
    ensures After(Lines(s, tag)) == (if tag == '-' then [] else s)
    ensures Additions(Lines(s, tag)) == (if tag == '+' then s else [])
  {
    if s != [] {
      LinesReadings(s[1..], tag);
      assert s == [s[0]] + s[1..];
    }
  }

  /**
   * The script `ndiff` writes when the second string extends the first:
   * the shared prefix, then the added tail, which is all `diff_strings` keeps.
   */
  lemma KeepThenAdd(a: string, b: string)
    ensures IsNdiffOf(Lines(a, ' ') + Lines(b, '+'), a, a + b)
    ensures Additions(Lines(a, ' ') + Lines(b, '+')) == b
  {
    BeforeConcat(Lines(a, ' '), Lines(b, '+'));
    AfterConcat(Lines(a, ' '), Lines(b, '+'));
    AdditionsConcat(Lines(a, ' '), Lines(b, '+'));
    LinesReadings(a, ' ');
    LinesReadings(b, '+');
    assert a + [] == a && [] + b == b;
  }

  /** The script `ndiff` writes when the first string extends the second: nothing is added. */
  lemma KeepThenRemove(a: string, b: string)
    ensures IsNdiffOf(Lines(a, ' ') + Lines(b, '-'), a + b, a)
    ensures Additions(Lines(a, ' ') + Lines(b, '-')) == []
  {
    BeforeConcat(Lines(a, ' '), Lines(b, '-'));
    AfterConcat(Lines(a, ' '), Lines(b, '-'));
    AdditionsConcat(Lines(a, ' '), Lines(b, '-'));
    LinesReadings(a, ' ');
    LinesReadings(b, '-');
    assert a + [] == a;
  }

  /**
   * The test cases: `diff_strings("Hello", "Hello World!")` is `" World!"`
   * and `diff_strings("Hello World!", "Hello")` is empty.
   */
  lemma ExampleDiffStrings(s1: string, s2: string)
    requires s1 == "Hello World!" && s2 == "Hello"
    ensures IsNdiffOf(Lines(s2, ' ') + Lines(" World!", '+'), s2, s1)
    ensures Additions(Lines(s2, ' ') + Lines(" World!", '+')) == " World!"
    ensures IsNdiffOf(Lines(s2, ' ') + Lines(" World!", '-'), s1, s2)
    ensures Additions(Lines(s2, ' ') + Lines(" World!", '-')) == []
  {
    assert s2 + " World!" == s1;
    KeepThenAdd(s2, " World!");
    KeepThenRemove(s2, " World!");
  }
}
