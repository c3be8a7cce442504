/**
 * The title helpers of comicvision/webscraper.py: they read an issue or
 * cover title as text, pick out its first bracketed group, strip it, and
 * decide from substrings whether a cover is a reprint, a newsstand or
 * foreign edition, or a variant, which makes it redundant next to the
 * direct-sale cover. Also the filter over the cover gallery's links and
 * the string pipeline of `get_issue_title`.
 */
module Webscraper {
  import opened PyText
  import opened BracketPattern

  // ---------------------------------------------------------------- brackets

  /** `get_brackets`: the text of the first match of `\[(.*?)\]`, brackets included. */
  function GetBrackets(title: string): (r: Option<string>)
    ensures r.Some? ==> BracketText(r.value)
  {
    match Search(title, 0)
    case None => None
    case Some(sp) =>
      MatchAtIff(title, sp.start, sp.end);
      Some(title[sp.start..sp.end])
  }

  /** No bracket text occurs anywhere in `title`. */
  predicate NoBracketText(title: string)
  {
    forall p, q :: 0 <= p <= q <= |title| ==> !BracketText(title[p..q])
  }

  /**
   * `get_brackets` returns `None` exactly when no bracket text occurs in
   * the title; otherwise it returns the bracket text that starts first.
   */
  lemma GetBracketsMeaning(title: string) returns (p: nat)
    ensures GetBrackets(title).None? <==> NoBracketText(title)
    ensures GetBrackets(title).Some? ==>
              && IsOccurrence(title, GetBrackets(title).value, p)
              && forall p', q' :: 0 <= p' < p && p' <= q' <= |title| ==> !BracketText(title[p'..q'])
  {
    forall p', q' | 0 <= p' <= q' <= |title| && BracketText(title[p'..q'])
      ensures MatchAt(title, p') == Some(q')
    {
      MatchAtIff(title, p', q');
    }
    match Search(title, 0)
    case None =>
      p := 0;
    case Some(sp) =>
      p := sp.start;
      MatchAtIff(title, sp.start, sp.end);
  }

  /** The bracket text `get_brackets` returns occurs first where it was found. */
  lemma GetBracketsFirstOccurrence(title: string)
    requires GetBrackets(title).Some?
    ensures IndexOf(title, GetBrackets(title).value) == Some(Search(title, 0).value.start)
  {
    var sp := Search(title, 0).value;
    var w := GetBrackets(title).value;
    assert IsOccurrence(title, w, sp.start);
    forall j | 0 <= j < sp.start
      ensures !IsOccurrence(title, w, j)
    {
      if IsOccurrence(title, w, j) {
        MatchAtIff(title, j, j + |w|);
      }
    }
  }

  /** Whatever comes before the first `--`, trimmed; the text itself when there is none. */
  function CutDash(s: string): (r: string)
  {
    if Contains(s, "--") then Strip(Split(s, "--")[0]) else s
  }

  /** `strip_brackets`: the title before its first bracket group, trimmed, and cut at `--`. */
  function StripBrackets(title: string): (r: string)
  {
    match GetBrackets(title)
    case None => CutDash(title)
    case Some(brackets) => CutDash(Strip(Split(title, brackets)[0]))
  }

  // ---------------------------------------------------------------- properties of strip_brackets

  /** The text `CutDash` leaves never holds `--`. */
  lemma CutDashNoDash(s: string)
    ensures !Contains(CutDash(s), "--")
  {
    if Contains(s, "--") {
      var first := Split(s, "--")[0];
      SplitPiecesLackSep(s, "--");
      assert first in Split(s, "--");
      if Contains(Strip(first), "--") {
        ContainsInfix(Strip(first), first, "--", SkipSpace(first, 0));
      }
    }
  }

  /** `strip_brackets` never returns a title holding `--`. */
  lemma StripBracketsNoDash(title: string)
    ensures !Contains(StripBrackets(title), "--")
  {
    match GetBrackets(title)
    case None => CutDashNoDash(title);
    case Some(brackets) => CutDashNoDash(Strip(Split(title, brackets)[0]));
  }

  /** A title with no bracket text and no `--` is returned unchanged. */
  lemma StripBracketsPlain(title: string)
    requires NoBracketText(title) && !Contains(title, "--")
    ensures StripBrackets(title) == title
  {
    var _ := GetBracketsMeaning(title);
  }

  /**
   * With a bracket group, `strip_brackets` keeps the trimmed text before
   * the group (the first occurrence of its text is the group itself), cut
   * at the first `--`.
   */
  lemma StripBracketsBefore(title: string)
    requires GetBrackets(title).Some?
    ensures StripBrackets(title) == CutDash(Strip(title[..Search(title, 0).value.start]))
  {
    var w := GetBrackets(title).value;
    GetBracketsFirstOccurrence(title);
    SplitAt(title, w, Search(title, 0).value.start);
  }

  /** `re.search` finds the first `[` when its `]` follows before any other `]` or newline. */
  lemma SearchFirst(s: string, a: nat, b: nat)
    requires a + 1 < b <= |s| && s[a] == '[' && s[b - 1] == ']'
    requires forall k :: a < k < b - 1 ==> s[k] != ']' && s[k] != '\n'
    requires forall k :: 0 <= k < a ==> s[k] != '['
    ensures Search(s, 0) == Some(Span(a, b))
  {
    CloseFromIff(s, a + 1, b);
    assert MatchAt(s, a) == Some(b);
  }

  /** The example: `"Action Comics [Direct]"` gives `"Action Comics"`. */
  lemma ExampleStripBrackets(title: string)
    requires title == "Action Comics [Direct]"
    ensures StripBrackets(title) == "Action Comics"
  {
    SearchFirst(title, 14, 22);
    StripBracketsBefore(title);
    var before := title[..14];
    assert before == "Action Comics ";
    ExampleTrailingSpace(before);
  }

  /** The text before the group of the example, trimmed and without `--`. */
  lemma ExampleTrailingSpace(before: string)
    requires before == "Action Comics "
    ensures CutDash(Strip(before)) == "Action Comics"
  {
    assert SkipSpace(before, 0) == 0;
    assert SkipSpaceBack(before, 14) == 13;
    var stripped := Strip(before);
    assert stripped == before[..13];
    assert '-' !in stripped;
    NoCharNoContains(stripped, "--", 0);
  }

  /** A text lacking some character of `sub` does not contain `sub`. */
  lemma NoCharNoContains(s: string, sub: string, j: nat)
    requires j < |sub| && sub[j] !in s
    ensures !Contains(s, sub)
  {
    if Contains(s, sub) {
      var k := ContainsWitness(s, sub);
    }
  }

  // ---------------------------------------------------------------- reprints, editions, variants

  /** Some phrase of `phrases` occurs in `s`. */
  predicate AnyIn(s: string, phrases: seq<string>)
  {
    phrases != [] && (Contains(s, phrases[0]) || AnyIn(s, phrases[1..]))
  }

  lemma {:induction false} AnyInIff(s: string, phrases: seq<string>)
    ensures AnyIn(s, phrases) <==> exists i :: 0 <= i < |phrases| && Contains(s, phrases[i])
  {
    if phrases != [] {
      AnyInIff(s, phrases[1..]);
      if exists i :: 0 <= i < |phrases| && Contains(s, phrases[i]) {
        var i :| 0 <= i < |phrases| && Contains(s, phrases[i]);
        if i > 0 {
          assert phrases[1..][i - 1] == phrases[i];
        }
      }
      if AnyIn(s, phrases[1..]) {
        var i :| 0 <= i < |phrases[1..]| && Contains(s, phrases[1..][i]);
        assert phrases[i + 1] == phrases[1..][i];
      }
    }
  }

  /** The phrases `is_reprinting` looks for, with their letter case. */
  const Printings: seq<string> := [
    "2nd Printing", "Second Printing", "3rd Printing", "Third Printing",
    "4th Printing", "Fourth Printing", "5th Printing", "Fifth Printing",
    "6th Printing", "7th Printing", "8th Printing", "9th Printing", "10th Printing"]

  /** `is_reprinting`: the title holds one of the printing phrases. */
  predicate IsReprinting(title: string)
  {
    AnyIn(title, Printings)
  }

  /** The editions `is_newsstand_or_canadian` looks for in the lower-cased title. */
  const Editions: seq<string> := ["newsstand", "canadian", "whitman", "british "]

  /** `is_newsstand_or_canadian`: the lower-cased title holds one of the edition words. */
  predicate IsNewsstandOrCanadian(title: string)
  {
    AnyIn(Lower(title), Editions)
  }

  /** `is_variant`: the lower-cased title holds `variant`. */
  predicate IsVariant(title: string)
  {
    Contains(Lower(title), "variant")
  }

  /**
   * `is_redundant`: no title is not redundant; a title is when it is a
   * reprint, a newsstand or foreign edition or a variant, or when it
   * mentions a cover but not the direct one.
   */
  predicate IsRedundant(title: Option<string>)
  {
    match title
    case None => false
    case Some(t) =>
      || IsReprinting(t) || IsNewsstandOrCanadian(t) || IsVariant(t)
      || (Contains(Lower(t), "cover") && !Contains(Lower(t), "direct"))
  }

  // ---------------------------------------------------------------- properties of the tests

  /** `is_reprinting` holds exactly when one of the phrases occurs. */
  lemma IsReprintingIff(title: string)
    ensures IsReprinting(title) <==> exists i :: 0 <= i < |Printings| && Contains(title, Printings[i])
  {
    AnyInIff(title, Printings);
  }

  /** `in` needs room for the phrase. */
  lemma ContainsLength(s: string, sub: string)
    requires Contains(s, sub)
    ensures |sub| <= |s|
  {
    var k := ContainsWitness(s, sub);
  }

  /** Every printing phrase is at least 12 characters long and holds a capital `P`. */
  lemma PrintingsShape(i: nat)
    requires i < |Printings|
    ensures |Printings[i]| >= 12 && 'P' in Printings[i]
  {
    var p := Printings[i];
    assert p[|p| - 8] == 'P';
  }

  /** A title without a capital `P`, or shorter than any phrase, is no reprint. */
  lemma NotReprinting(title: string)
    requires 'P' !in title || |title| < 12
    ensures !IsReprinting(title)
  {
    IsReprintingIff(title);
    forall i | 0 <= i < |Printings|
      ensures !Contains(title, Printings[i])
    {
      PrintingsShape(i);
      var p := Printings[i];
      if Contains(title, p) {
        ContainsLength(title, p);
        var j :| 0 <= j < |p| && p[j] == 'P';
        NoCharNoContains(title, p, j);
      }
    }
  }

  /** The edition and variant tests do not see letter case. */
  lemma CaseInsensitive(title: string)
    ensures IsNewsstandOrCanadian(Lower(title)) == IsNewsstandOrCanadian(title)
    ensures IsVariant(Lower(title)) == IsVariant(title)
  {
    LowerIdempotent(title);
  }

  /** A lower-cased title has no capital `P`, so it is never a reprint. */
  lemma LowerNotReprinting(title: string)
    ensures !IsReprinting(Lower(title))
  {
    var l := Lower(title);
    assert 'P' !in l;
    NotReprinting(l);
  }

  /** Only the reprint test of `is_redundant` depends on letter case. */
  lemma RedundantCase(title: string)
    ensures IsRedundant(Some(title)) == (IsReprinting(title) || IsRedundant(Some(Lower(title))))
  {
    LowerIdempotent(title);
    LowerNotReprinting(title);
  }

  /** The test cases: `"[2nd Printing]"` is a reprint and `"[Direct]"` is not. */
  lemma ExampleReprinting(a: string, b: string)
    requires a == "[2nd Printing]" && b == "[Direct]"
    ensures IsReprinting(a) && !IsReprinting(b)
  {
    assert a[1..13] == Printings[0];
    ContainsAt(a, Printings[0], 1);
    NotReprinting(b);
  }

  /** A lower-case letter that occurs in neither case in `s` does not occur in `s.lower()`. */
  lemma NotInLower(s: string, c: char)
    requires 'a' <= c <= 'z' && forall k :: 0 <= k < |s| ==> s[k] != c && s[k] != (c as int - 32) as char
    ensures c !in Lower(s)
  {
  }

  /** The first two characters of an occurrence. */
  lemma OccurrenceStart(s: string, sub: string, k: nat)
    requires IsOccurrence(s, sub, k) && |sub| >= 2
    ensures s[k] == sub[0] && s[k + 1] == sub[1]
  {
    assert s[k..k + |sub|][0] == s[k] && s[k..k + |sub|][1] == s[k + 1];
  }

  /**
   * The example: `"Action Comics #854 [Direct]"` is no reprint, no special
   * edition and no variant, and mentions no cover, so it is not redundant.
   */
  lemma ExampleDirect(title: string)
    requires title == "Action Comics #854 [Direct]"
    ensures !IsRedundant(Some(title))
  {
    ExampleDirectChars(title);
    ExampleNotCanadian(title);
    AvoidsLetters(title);
  }

  lemma ExampleDirectChars(title: string)
    requires title == "Action Comics #854 [Direct]"
    ensures forall k :: 0 <= k < |title| ==> title[k] !in "PwWbBvV"
  {
  }

  /** A title without `P`, `w`, `b` or `v` (but for a lower-case `p`) and without `canadian` is not redundant. */
  lemma AvoidsLetters(title: string)
    requires forall k :: 0 <= k < |title| ==> title[k] !in "PwWbBvV"
    requires !Contains(Lower(title), "canadian")
    ensures !IsRedundant(Some(title))
  {
    NotInLower(title, 'w');
    NotInLower(title, 'b');
    NotInLower(title, 'v');
    NotRedundantLetters(title);
  }

  /**
   * Without a capital `P` no printing phrase occurs; without a `w`, `b` or
   * `v` in either case no edition word but `canadian` occurs, nor `variant`,
   * nor `cover`.
   */
  lemma NotRedundantLetters(title: string)
    requires 'P' !in title
    requires 'w' !in Lower(title) && 'b' !in Lower(title) && 'v' !in Lower(title)
    requires !Contains(Lower(title), "canadian")
    ensures !IsRedundant(Some(title))
  {
    NotReprinting(title);
    var l := Lower(title);
    AnyInIff(l, Editions);
    forall i | 0 <= i < |Editions|
      ensures !Contains(l, Editions[i])
    {
      if i == 0 {
        NoCharNoContains(l, Editions[0], 2);
      } else if i == 2 {
        NoCharNoContains(l, Editions[2], 0);
      } else if i == 3 {
        NoCharNoContains(l, Editions[3], 0);
      }
    }
    NoCharNoContains(l, "variant", 0);
    NoCharNoContains(l, "cover", 2);
  }

  /** `canadian` would need a `c` followed by an `a` in the lower-cased example title. */
  lemma ExampleNotCanadian(title: string)
    requires title == "Action Comics #854 [Direct]"
    ensures !Contains(Lower(title), "canadian")
  {
    var l := Lower(title);
    if Contains(l, "canadian") {
      var k := ContainsWitness(l, "canadian");
      OccurrenceStart(l, "canadian", k);
      assert false;
    }
  }

  // ---------------------------------------------------------------- variant cover names

  /** `get_variant_cover_name`: the first bracket group without its brackets, or `"Original"`. */
  function GetVariantCoverName(coverName: string): (r: string)
  {
    match GetBrackets(coverName)
    case None => "Original"
    case Some(variantName) => Replace(Replace(variantName, "[", ""), "]", "")
  }

  /** A variant cover name never holds a bracket. */
  lemma VariantNameNoBrackets(coverName: string)
    ensures '[' !in GetVariantCoverName(coverName) && ']' !in GetVariantCoverName(coverName)
  {
    match GetBrackets(coverName)
    case None =>
    case Some(v) =>
      ReplaceCharElems(v, '[', "");
      ReplaceCharElems(Replace(v, "[", ""), ']', "");
  }

  /** When the content of the first group holds no `[`, the name is that content. */
  lemma VariantNameContent(coverName: string)
    requires GetBrackets(coverName).Some?
    requires '[' !in GetBrackets(coverName).value[1..|GetBrackets(coverName).value| - 1]
    ensures GetVariantCoverName(coverName) == GetBrackets(coverName).value[1..|GetBrackets(coverName).value| - 1]
  {
    var v := GetBrackets(coverName).value;
    var c := v[1..|v| - 1];
    var open, close := ['['], [']'];
    assert v == open + c + close;
    assert ']' !in c by {
      assert forall k :: 0 <= k < |c| ==> c[k] == v[k + 1];
    }
    ReplaceCharConcat(open + c, close, '[', "");
    ReplaceCharConcat(open, c, '[', "");
    ReplaceAbsentChar(c, '[', "");
    ReplaceAbsentChar(close, '[', "");
    ReplaceStep(open, open, "");
    assert open[1..] == [] && open[..1] == open;
    assert Replace(v, "[", "") == c + close;
    ReplaceCharConcat(c, close, ']', "");
    ReplaceAbsentChar(c, ']', "");
    ReplaceStep(close, close, "");
    assert close[1..] == [] && close[..1] == close;
    assert c + [] == c;
  }

  /** A cover name without a bracket text is the original cover. */
  lemma VariantNameOriginal(coverName: string)
    requires NoBracketText(coverName)
    ensures GetVariantCoverName(coverName) == "Original"
  {
    var _ := GetBracketsMeaning(coverName);
  }

  /** The example: `"Action Comics [Sean MacRae Variant]"` gives `"Sean MacRae Variant"`. */
  lemma ExampleVariantName(coverName: string)
    requires coverName == "Action Comics [Sean MacRae Variant]"
    ensures GetVariantCoverName(coverName) == "Sean MacRae Variant"
  {
    VariantNameAt(coverName, 14, 35);
    ExampleVariantText(coverName);
  }

  lemma ExampleVariantText(coverName: string)
    requires coverName == "Action Comics [Sean MacRae Variant]"
    ensures coverName[15..34] == "Sean MacRae Variant"
  {
  }

  /** The name of a cover whose first group runs from `a` to `b` holding no other bracket. */
  lemma VariantNameAt(coverName: string, a: nat, b: nat)
    requires a + 1 < b <= |coverName| && coverName[a] == '[' && coverName[b - 1] == ']'
    requires forall k :: a < k < b - 1 ==> coverName[k] != ']' && coverName[k] != '\n' && coverName[k] != '['
    requires forall k :: 0 <= k < a ==> coverName[k] != '['
    ensures GetVariantCoverName(coverName) == coverName[a + 1..b - 1]
  {
    SearchFirst(coverName, a, b);
    var v := coverName[a..b];
    assert GetBrackets(coverName) == Some(v);
    SliceOfSlice(coverName, a, b, 1, b - a - 1);
    VariantNameContent(coverName);
  }

  // ---------------------------------------------------------------- the cover gallery's links

  /** An issue page link that is not a cover page link. */
  predicate IssueHref(href: string)
  {
    Contains(href, "/issue/") && !Contains(href, "/cover/")
  }

  /** The first `filter`: the `(text, href)` pairs whose href is an issue page. */
  function IssueLinks(refs: seq<(string, string)>): (r: seq<(string, string)>)
    ensures forall i :: 0 <= i < |r| ==> IssueHref(r[i].1)
  {
    if refs == [] then []
    else if IssueHref(refs[0].1) then [refs[0]] + IssueLinks(refs[1..])
    else IssueLinks(refs[1..])
  }

  /** The comprehension: each link text replaced by its bracket group. */
  function WithBrackets(refs: seq<(string, string)>): (r: seq<(Option<string>, string)>)
    ensures |r| == |refs|
  {
    if refs == [] then [] else [(GetBrackets(refs[0].0), refs[0].1)] + WithBrackets(refs[1..])
  }

  /** The second `filter`: the pairs whose bracket group is not redundant. */
  function NotRedundant(refs: seq<(Option<string>, string)>): (r: seq<(Option<string>, string)>)
    ensures forall i :: 0 <= i < |r| ==> !IsRedundant(r[i].0)
  {
    if refs == [] then []
    else if !IsRedundant(refs[0].0) then [refs[0]] + NotRedundant(refs[1..])
    else NotRedundant(refs[1..])
  }

  /** `get_non_redundant_hrefs_from_cover_gallery` once the `(text, href)` pairs are read off the page. */
  function NonRedundantHrefs(refs: seq<(string, string)>): seq<(Option<string>, string)>
  {
    NotRedundant(WithBrackets(IssueLinks(refs)))
  }

  /** The link `(text, href)` is kept. */
  predicate Kept(ref: (string, string))
  {
    IssueHref(ref.1) && !IsRedundant(GetBrackets(ref.0))
  }

  /** A single pass over the links: the bracket group and href of every kept link, in order. */
  function KeptLinks(refs: seq<(string, string)>): (r: seq<(Option<string>, string)>)
    ensures |r| <= |refs|
  {
    if refs == [] then []
    else if Kept(refs[0]) then [(GetBrackets(refs[0].0), refs[0].1)] + KeptLinks(refs[1..])
    else KeptLinks(refs[1..])
  }

  /** The pipeline of two filters around a comprehension is the single pass. */
  lemma {:induction false} NonRedundantHrefsIsKept(refs: seq<(string, string)>)
    ensures NonRedundantHrefs(refs) == KeptLinks(refs)
  {
    if refs != [] {
      NonRedundantHrefsIsKept(refs[1..]);
      var rest := IssueLinks(refs[1..]);
      if IssueHref(refs[0].1) {
        assert IssueLinks(refs) == [refs[0]] + rest;
        assert WithBrackets(IssueLinks(refs)) == [(GetBrackets(refs[0].0), refs[0].1)] + WithBrackets(rest) by {
          assert ([refs[0]] + rest)[1..] == rest;
        }
        var head := (GetBrackets(refs[0].0), refs[0].1);
        assert ([head] + WithBrackets(rest))[1..] == WithBrackets(rest);
      }
    }
  }

  /**
   * Every pair `get_non_redundant_hrefs_from_cover_gallery` returns comes
   * from a kept link, and every kept link is returned.
   */
  lemma {:induction false} KeptLinksMembers(refs: seq<(string, string)>)
    ensures forall x :: x in KeptLinks(refs) ==>
              exists i :: 0 <= i < |refs| && Kept(refs[i]) && x == (GetBrackets(refs[i].0), refs[i].1)
    ensures forall i :: 0 <= i < |refs| && Kept(refs[i]) ==> (GetBrackets(refs[i].0), refs[i].1) in KeptLinks(refs)
  {
    if refs != [] {
      KeptLinksMembers(refs[1..]);
      var tail := refs[1..];
      assert forall i :: 0 < i < |refs| ==> refs[i] == tail[i - 1];
      forall x | x in KeptLinks(tail)
        ensures exists i :: 0 <= i < |refs| && Kept(refs[i]) && x == (GetBrackets(refs[i].0), refs[i].1)
      {
        var i :| 0 <= i < |tail| && Kept(tail[i]) && x == (GetBrackets(tail[i].0), tail[i].1);
        assert refs[i + 1] == tail[i];
      }
    }
  }

  // ---------------------------------------------------------------- issue titles

  /**
   * `get_issue_title` on the text of the page's `<title>`: newlines
   * removed, trimmed, the last `" :: "` segment, `/` written as `|`.
   */
  function GetIssueTitle(contents: string): (r: string)
  {
    var pieces := Split(Strip(Replace(contents, "\n", "")), " :: ");
    Replace(pieces[|pieces| - 1], "/", "|")
  }

  /** The issue title holds no `/` and no newline. */
  lemma IssueTitleChars(contents: string)
    ensures '/' !in GetIssueTitle(contents) && '\n' !in GetIssueTitle(contents)
  {
    var joined := Replace(contents, "\n", "");
    ReplaceCharElems(contents, '\n', "");
    var stripped := Strip(joined);
    StripChars(joined);
    var pieces := Split(stripped, " :: ");
    SplitPieceChars(stripped, " :: ");
    var last := pieces[|pieces| - 1];
    assert last in pieces;
    ReplaceCharElems(last, '/', "|");
  }

  /** A title that is one trimmed segment without newlines or `/` is its own issue title. */
  lemma IssueTitlePlain(contents: string)
    requires '\n' !in contents && '/' !in contents && !Contains(contents, " :: ")
    requires Strip(contents) == contents
    ensures GetIssueTitle(contents) == contents
  {
    ReplaceAbsentChar(contents, '\n', "");
    ContainsIsFound(contents, " :: ");
    ReplaceAbsentChar(contents, '/', "|");
  }

  /**
   * The issue title is the text after the `" :: "` the title was last cut
   * at, with `/` written as `|`, and it holds no `" :: "` itself.
   */
  lemma IssueTitleSegment(contents: string) returns (k: nat)
    ensures var s := Strip(Replace(contents, "\n", ""));
            && k <= |s| && (k == 0 || (4 <= k && IsOccurrence(s, " :: ", k - 4)))
            && !Contains(s[k..], " :: ")
            && GetIssueTitle(contents) == Replace(s[k..], "/", "|")
    ensures !Contains(GetIssueTitle(contents), " :: ")
  {
    var s := Strip(Replace(contents, "\n", ""));
    SeparatorLacksBar();
    k := LastPieceSwapped(s, " :: ", '/', '|');
  }

  /** `|` is not part of the segment separator. */
  lemma SeparatorLacksBar()
    ensures '|' !in " :: " && |" :: "| == 4
  {
  }

  /**
   * A trimmed title without newlines and with a single `" :: "`, at `p`,
   * gives the text after it, with `/` written as `|`.
   */
  lemma IssueTitleOneCut(contents: string, p: nat)
    requires Strip(Replace(contents, "\n", "")) == contents
    requires IsOccurrence(contents, " :: ", p)
    requires forall q :: IsOccurrence(contents, " :: ", q) ==> q == p
    ensures GetIssueTitle(contents) == Replace(contents[p + 4..], "/", "|")
  {
    var k := IssueTitleSegment(contents);
    ContainsAt(contents, " :: ", p);
    assert contents[0..] == contents;
  }

  /** The example: `"Comics :: Batman / Superman"` gives the title `"Batman | Superman"`. */
  lemma ExampleIssueTitle(contents: string)
    requires contents == "Comics :: Batman / Superman"
    ensures GetIssueTitle(contents) == "Batman | Superman"
  {
    ExampleTitleTrimmed(contents);
    ExampleTitleCut(contents);
    IssueTitleOneCut(contents, 6);
    ExampleTitleSwap(contents[10..]);
  }

  /** The example has no newline and no surrounding space. */
  lemma ExampleTitleTrimmed(contents: string)
    requires contents == "Comics :: Batman / Superman"
    ensures Strip(Replace(contents, "\n", "")) == contents
  {
    assert '\n' !in contents;
    ReplaceAbsentChar(contents, '\n', "");
    StripTrimmed(contents);
  }

  /** The only `" :: "` of the example starts at index 6, and `Batman / Superman` follows it. */
  lemma ExampleTitleCut(contents: string)
    requires contents == "Comics :: Batman / Superman"
    ensures IsOccurrence(contents, " :: ", 6) && contents[10..] == "Batman / Superman"
    ensures forall q :: IsOccurrence(contents, " :: ", q) ==> q == 6
  {
    assert contents[6..10] == " :: ";
    assert contents[10..] == "Batman / Superman";
    ExampleTitleColons(contents);
    forall q | IsOccurrence(contents, " :: ", q) ensures q == 6 {
      SeparatorColons(contents, q);
    }
  }

  /** The colons of the example are at indices 7 and 8. */
  lemma ExampleTitleColons(contents: string)
    requires contents == "Comics :: Batman / Superman"
    ensures forall i :: 0 <= i < |contents| && contents[i] == ':' ==> i == 7 || i == 8
  {
  }

  /** An occurrence of `" :: "` at `q` puts colons at `q + 1` and `q + 2`. */
  lemma SeparatorColons(s: string, q: int)
    requires IsOccurrence(s, " :: ", q)
    ensures s[q + 1] == ':' && s[q + 2] == ':'
  {
    assert s[q..q + 4][1] == ':' && s[q..q + 4][2] == ':';
  }

  /** The text after the cut of the example, with `/` written as `|`. */
  lemma ExampleTitleSwap(segment: string)
    requires segment == "Batman / Superman"
    ensures Replace(segment, "/", "|") == "Batman | Superman"
  {
    ReplaceCharIndex(segment, '/', '|');
  }
}
