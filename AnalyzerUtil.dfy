/**
 * The small helpers of comics_net/analyzer.py that work on titles and on
 * the lines of the labels file: `get_issue_number_from_title`, and
 * `search_row` and `replace_line` over the file's lines (the reading and
 * writing of the file itself is not modelled).
 */
module AnalyzerUtil {
  import opened PyText

  // ---------------------------------------------------------------- issue numbers

  /**
   * What `get_issue_number_from_title` gives back: `np.nan` when the title
   * has no number, the number, or the `ValueError` that `int` raises when
   * the number is written after a `?`.
   */
  datatype IssueNumber = NaN | Number(n: nat) | Raises

  /** `\d` on ASCII digits. */
  predicate IsDigit(c: char)
  {
    '0' <= c <= '9'
  }

  /** `\w` on ASCII: letters, digits and the underscore. */
  predicate IsWordChar(c: char)
  {
    ('a' <= c <= 'z') || ('A' <= c <= 'Z') || IsDigit(c) || c == '_'
  }

  /** `\b` at index `q`: a word character on exactly one side. */
  predicate WordBoundary(s: string, q: nat)
    requires q <= |s|
  {
    (q > 0 && IsWordChar(s[q - 1])) != (q < |s| && IsWordChar(s[q]))
  }

  /** `([#?])(\d+)\b` matches `s[p..q]`. */
  predicate IsMatch(s: string, p: nat, q: nat)
  {
    && p + 1 < q <= |s|
    && (s[p] == '#' || s[p] == '?')
    && (forall k :: p + 1 <= k < q ==> IsDigit(s[k]))
    && WordBoundary(s, q)
  }

  /** Where the run of digits starting at `i` ends: what the greedy `\d+` takes first. */
  function DigitEnd(s: string, i: nat): (r: nat)
    requires i <= |s|
    ensures i <= r <= |s|
    ensures forall k :: i <= k < r ==> IsDigit(s[k])
    ensures r == |s| || !IsDigit(s[r])
    decreases |s| - i
  {
    if i < |s| && IsDigit(s[i]) then DigitEnd(s, i + 1) else i
  }

  /** The pattern can match at `p`, taking the whole run of digits. */
  predicate MatchAt(s: string, p: nat)
  {
    && p + 1 < |s|
    && (s[p] == '#' || s[p] == '?')
    && DigitEnd(s, p + 1) > p + 1
    && WordBoundary(s, DigitEnd(s, p + 1))
  }

  /** `re.search` for the pattern from index `from`: the leftmost index where it matches. */
  function FindNumber(s: string, from: nat): (r: Option<nat>)
    requires from <= |s|
    ensures r.Some? ==> from <= r.value && MatchAt(s, r.value)
    ensures r.Some? ==> forall p :: from <= p < r.value ==> !MatchAt(s, p)
    ensures r.None? ==> forall p :: from <= p ==> !MatchAt(s, p)
    decreases |s| - from
  {
    if from == |s| then None
    else if MatchAt(s, from) then Some(from)
    else FindNumber(s, from + 1)
  }

  /** `int` of a string of decimal digits. */
  function Decimal(d: string): (n: nat)
    requires forall k :: 0 <= k < |d| ==> IsDigit(d[k])
  {
    if d == [] then 0
    else
      var c := d[|d| - 1];
      assert IsDigit(c);
      10 * Decimal(d[..|d| - 1]) + (c as int - '0' as int)
  }

  /** `str(n)` of a natural number. */
  function ShowNat(n: nat): (d: string)
    ensures |d| >= 1 && forall k :: 0 <= k < |d| ==> IsDigit(d[k])
  {
    var c := ('0' as int + n % 10) as char;
    if n < 10 then [c] else ShowNat(n / 10) + [c]
  }

  /** The title with its commas removed, which is what the pattern searches. */
  function NoCommas(title: string): (s: string)
  {
    Replace(title, ",", "")
  }

  /**
   * `get_issue_number_from_title`: remove the commas, search for
   * `([#?])(\d+)\b` and turn the match, its `#` removed, into an `int`.
   */
  function GetIssueNumberFromTitle(title: string): (r: IssueNumber)
  {
    var s := NoCommas(title);
    match FindNumber(s, 0)
    case None => NaN
    case Some(p) =>
      if s[p] == '?' then Raises
      else Number(Decimal(s[p + 1..DigitEnd(s, p + 1)]))
  }

  // ---------------------------------------------------------------- properties

  /**
   * Backtracking into the digits never helps: the pattern matches at `p`
   * exactly when `MatchAt` says so, and then only with all the digits.
   */
  lemma MatchAtIff(s: string, p: nat, q: nat)
    ensures MatchAt(s, p) ==> IsMatch(s, p, DigitEnd(s, p + 1))
    ensures IsMatch(s, p, q) ==> MatchAt(s, p) && q == DigitEnd(s, p + 1)
  {
  }

  /**
   * What `get_issue_number_from_title` returns: `np.nan` exactly when the
   * pattern matches nowhere in the comma-free title; otherwise the leftmost
   * match decides: a `?` raises, a `#` gives the value of its digits.
   */
  lemma IssueNumberMeaning(title: string) returns (p: nat, q: nat)
    ensures var s := NoCommas(title);
            GetIssueNumberFromTitle(title) == NaN <==> forall p': nat, q': nat :: !IsMatch(s, p', q')
    ensures var s := NoCommas(title);
            GetIssueNumberFromTitle(title) != NaN ==>
              && IsMatch(s, p, q)
              && (forall p': nat, q': nat :: p' < p ==> !IsMatch(s, p', q'))
              && GetIssueNumberFromTitle(title) == if s[p] == '?' then Raises else Number(Decimal(s[p + 1..q]))
  {
    var s := NoCommas(title);
    forall p': nat, q': nat | IsMatch(s, p', q')
      ensures MatchAt(s, p') && p' < |s|
    {
      MatchAtIff(s, p', q');
    }
    match FindNumber(s, 0)
    case None =>
      p, q := 0, 0;
    case Some(first) =>
      p, q := first, DigitEnd(s, first + 1);
      MatchAtIff(s, p, q);
  }

  /** Reading back the digits `str` writes gives the number. */
  lemma {:induction false} DecimalShow(n: nat)
    ensures Decimal(ShowNat(n)) == n
  {
    var d := ShowNat(n);
    if n >= 10 {
      DecimalShow(n / 10);
      assert d[..|d| - 1] == ShowNat(n / 10);
    }
  }

  /**
   * A title ending in `#` or `?` and a number, with neither mark nor a comma
   * before it: `#` gives the number back, `?` raises.
   */
  lemma TitleWithNumber(prefix: string, mark: char, n: nat)
    requires mark == '#' || mark == '?'
    requires forall k :: 0 <= k < |prefix| ==> prefix[k] != '#' && prefix[k] != '?' && prefix[k] != ','
    ensures GetIssueNumberFromTitle(prefix + [mark] + ShowNat(n)) == if mark == '#' then Number(n) else Raises
  {
    var d := ShowNat(n);
    var s := prefix + [mark] + d;
    MarkedNumber(prefix, mark, d);
    IssueAt(s, |prefix|);
    assert s[|prefix| + 1..] == d;
    DecimalShow(n);
  }

  /** A comma-free title whose first number starts at `m` and runs to the end. */
  lemma IssueAt(s: string, m: nat)
    requires ',' !in s && m + 1 < |s| && (s[m] == '#' || s[m] == '?')
    requires forall k :: m + 1 <= k < |s| ==> IsDigit(s[k])
    requires forall p :: 0 <= p < m ==> !MatchAt(s, p)
    ensures GetIssueNumberFromTitle(s) == if s[m] == '?' then Raises else Number(Decimal(s[m + 1..]))
  {
    ReplaceAbsentChar(s, ',', "");
    assert NoCommas(s) == s;
    DigitEndAll(s, m + 1);
    assert MatchAt(s, m);
    assert FindNumber(s, 0) == Some(m);
    assert s[m + 1..DigitEnd(s, m + 1)] == s[m + 1..];
  }

  /** The characters of a title made of a prefix, a mark and digits. */
  lemma MarkedNumber(prefix: string, mark: char, d: string)
    requires mark == '#' || mark == '?'
    requires forall k :: 0 <= k < |prefix| ==> prefix[k] != '#' && prefix[k] != '?' && prefix[k] != ','
    requires |d| >= 1 && forall k :: 0 <= k < |d| ==> IsDigit(d[k])
    ensures var s := prefix + [mark] + d;
            && ',' !in s && s[|prefix|] == mark
            && (forall k :: |prefix| + 1 <= k < |s| ==> IsDigit(s[k]))
            && (forall p :: 0 <= p < |prefix| ==> !MatchAt(s, p))
  {
    var s := prefix + [mark] + d;
    var m := |prefix|;
    assert forall k :: 0 <= k < m ==> s[k] == prefix[k];
    assert forall k :: m < k < |s| ==> s[k] == d[k - m - 1];
  }

  /** A run of digits up to the end is taken whole. */
  lemma {:induction false} DigitEndAll(s: string, i: nat)
    requires i <= |s| && forall k :: i <= k < |s| ==> IsDigit(s[k])
    ensures DigitEnd(s, i) == |s|
    decreases |s| - i
  {
    if i < |s| {
      DigitEndAll(s, i + 1);
    }
  }

  /** Commas, as in `"#1,000"`, are dropped before the search. */
  lemma CommaIgnored(a: string, b: string)
    ensures GetIssueNumberFromTitle(a + "," + b) == GetIssueNumberFromTitle(a + b)
  {
    var comma := [','];
    ReplaceCharConcat(a + comma, b, ',', "");
    ReplaceCharConcat(a, comma, ',', "");
    ReplaceCharConcat(a, b, ',', "");
    ReplaceStep(comma, comma, "");
    assert comma[1..] == [] && comma[..1] == comma;
    assert Replace(comma, comma, "") == "";
    assert NoCommas(a + comma + b) == Replace(a, comma, "") + Replace(b, comma, "");
  }

  /** The test case: `"Superman #12"` gives 12. */
  lemma ExampleSuperman(title: string)
    requires title == "Superman #12"
    ensures GetIssueNumberFromTitle(title) == Number(12)
  {
    var prefix := "Superman ";
    assert ShowNat(12) == "12" by {
      assert ShowNat(1) == "1";
    }
    assert title == prefix + ['#'] + ShowNat(12);
    TitleWithNumber(prefix, '#', 12);
  }

  // ---------------------------------------------------------------- the labels file

  /**
   * `search_row` over the lines of the file (each with its newline): the
   * index of the first line holding `substring`, or `None`.
   */
  method SearchRow(lines: seq<string>, substring: string) returns (r: Option<nat>)
    ensures r.Some? ==> r.value < |lines| && Contains(lines[r.value], substring)
    ensures r.Some? ==> forall j :: 0 <= j < r.value ==> !Contains(lines[j], substring)
    ensures r.None? ==> forall j :: 0 <= j < |lines| ==> !Contains(lines[j], substring)
  {
    for i := 0 to |lines|
      invariant forall j :: 0 <= j < i ==> !Contains(lines[j], substring)
    {
      if Contains(lines[i], substring) {
        return Some(i);
      }
    }
    return None;
  }

  /**
   * `lines[row] = text + "\n"` on the file's lines: a negative `row` counts
   * from the end, and one out of range raises `IndexError` (`None` here).
   */
  function ReplaceLine(lines: seq<string>, row: int, text: string): (r: Option<seq<string>>)
    ensures r.Some? <==> -|lines| <= row < |lines|
    ensures r.Some? ==> |r.value| == |lines|
    ensures r.Some? ==> var i := if row < 0 then |lines| + row else row;
                        r.value[i] == text + "\n" &&
                        forall j :: 0 <= j < |lines| && j != i ==> r.value[j] == lines[j]
  {
    if row < -|lines| || row >= |lines| then None
    else
      var i := if row < 0 then |lines| + row else row;
      Some(lines[i := text + "\n"])
  }

  /** `replace_line` on the lines held in an array, updated in place; `false` when it raises. */
  method ReplaceLineInPlace(lines: array<string>, row: int, text: string) returns (ok: bool)
    modifies lines
    ensures ok <==> ReplaceLine(old(lines[..]), row, text).Some?
    ensures ok ==> lines[..] == ReplaceLine(old(lines[..]), row, text).value
    ensures !ok ==> lines[..] == old(lines[..])
  {
    if row < -lines.Length || row >= lines.Length {
      return false;
    }
    var i := if row < 0 then lines.Length + row else row;
    lines[i] := text + "\n";
    return true;
  }

  /** Appending to a line keeps what it contains. */
  lemma ContainsExtended(text: string, tail: string, sub: string)
    requires Contains(text, sub)
    ensures Contains(text + tail, sub)
  {
    var k := ContainsWitness(text, sub);
    assert (text + tail)[k..k + |sub|] == text[k..k + |sub|];
    ContainsAt(text + tail, sub, k);
  }

  /**
   * The use `update_label` makes of the two: rewriting the first row that
   * holds a file name with a line that still holds it leaves that row the
   * first one `search_row` finds.
   */
  lemma ReplaceFoundRow(lines: seq<string>, i: nat, name: string, text: string)
    requires i < |lines| && Contains(lines[i], name)
    requires forall j :: 0 <= j < i ==> !Contains(lines[j], name)
    requires Contains(text, name)
    ensures ReplaceLine(lines, i, text).Some?
    ensures var updated := ReplaceLine(lines, i, text).value;
            Contains(updated[i], name) && forall j :: 0 <= j < i ==> !Contains(updated[j], name)
  {
    ContainsExtended(text, "\n", name);
  }
}
