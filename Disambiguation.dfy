/**
 * `replace_semicolons_in_brackets` of comics_net/analyzer.py.
 *
 * A character string separates characters with `;`, but some aliases
 * written in brackets contain a `;` of their own (`Superman [Clark Kent;
 * Kal-El]`).  For every bracketed span of the original string, in order,
 * the current text at that span is inspected; when it holds exactly one
 * `;` and mentions one of a fixed list of alias fragments, every
 * occurrence of that text in the current string has its `;` turned into
 * `/`.  The spans are those of the original string: the replacement keeps
 * the length, so they stay valid.
 */
module Disambiguation {
  import opened PyText
  import opened BracketPattern

  /** The alias fragments looked for, in the order analyzer.py lists them. */
  const AliasPatterns: seq<string> := [
    "also as", "Kal-El", "Kal-L", "Kara Zor-El", "Martin Stein", "Etrigan",
    "James Howlett", "Gwendolyne Stacy", "Gwen Stacy", "Katar Hol", "Shayera Hol",
    "Kon-El", "Laura Kinney", "Kory Ander", "Bruce Banner", "Eobard Thawne",
    "Victor von Doom", "as Cat-Woman", "also as Task Force X", "Diana Prince",
    "Nathan Dayspring", "Susan Storm; Susan Richards", "Warren Worthington III",
    "Copycat", "Tornado Tyrant", "Bro'Dee Walker", "Ke'Haan", "Flash; Barry Allen",
    "Jennie-Lynn Hayden", "Donald Blake", "Thor Odinson; "
  ]

  /** Whether the text contains one of the alias fragments (the chain of `in` tests). */
  predicate MentionsAlias(sub: string, aliases: seq<string>)
  {
    MentionsAliasFrom(sub, aliases, 0)
  }

  /** Whether the text contains one of the alias fragments from index `i` of the list on. */
  predicate MentionsAliasFrom(sub: string, aliases: seq<string>, i: nat)
    decreases |aliases| - i
  {
    i < |aliases| && (Contains(sub, aliases[i]) || MentionsAliasFrom(sub, aliases, i + 1))
  }

  /** The condition under which a bracketed span is rewritten. */
  predicate Triggers(sub: string, aliases: seq<string>)
  {
    CountChar(sub, ';') == 1 && MentionsAlias(sub, aliases)
  }

  /** `sub.replace(";", "/")`. */
  function Neutralize(sub: string): (r: string)
    ensures |r| == |sub|
  {
    ReplaceSameLength(sub, ";", "/");
    Replace(sub, ";", "/")
  }

  /** Every semicolon becomes a slash, nothing else moves. */
  lemma NeutralizeChars(sub: string)
    ensures |Neutralize(sub)| == |sub| && ';' !in Neutralize(sub)
    ensures forall j :: 0 <= j < |sub| ==> Neutralize(sub)[j] == if sub[j] == ';' then '/' else sub[j]
  {
    ReplaceCharIndex(sub, ';', '/');
  }

  /** `r` is `t` with some of its semicolons turned into slashes. */
  predicate Neutralized(t: string, r: string)
  {
    |r| == |t| && forall i :: 0 <= i < |t| ==> r[i] == t[i] || (t[i] == ';' && r[i] == '/')
  }

  lemma NeutralizedTrans(a: string, b: string, c: string)
    requires Neutralized(a, b) && Neutralized(b, c)
    ensures Neutralized(a, c)
  {
  }

  /** Turning semicolons into slashes moves no bracket and no newline. */
  lemma NeutralizedSameBrackets(t: string, r: string)
    requires Neutralized(t, r)
    ensures SameBrackets(t, r)
  {
  }

  /** `t.replace(sub, Neutralize(sub))` only turns semicolons into slashes. */
  lemma ReplaceNeutralized(t: string, sub: string)
    requires |sub| > 0
    ensures Neutralized(t, Replace(t, sub, Neutralize(sub)))
  {
    var rep := Neutralize(sub);
    var r := Replace(t, sub, rep);
    NeutralizeChars(sub);
    ReplaceSameLength(t, sub, rep);
    forall i | 0 <= i < |t|
      ensures r[i] == t[i] || (t[i] == ';' && r[i] == '/')
    {
      if r[i] != t[i] {
        var p := ReplaceChanged(t, sub, rep, i);
        assert sub[i - p] == t[i];
      }
    }
  }

  function Substring(s: string, a: nat, b: nat): (r: string)
    requires a <= b <= |s|
    ensures |r| == b - a
    decreases b - a
  {
    if a == b then [] else [s[a]] + Substring(s, a + 1, b)
  }

  lemma {:induction false} SubstringIs(s: string, a: nat, b: nat)
    requires a <= b <= |s|
    ensures Substring(s, a, b) == s[a..b]
    decreases b - a
  {
    if a < b {
      SubstringIs(s, a + 1, b);
      assert s[a..b] == [s[a]] + s[a + 1..b];
    }
  }

  /** One iteration of the loop: the span's current text, rewritten everywhere if it triggers. */
  function Step(t: string, sp: Span, aliases: seq<string>): (r: string)
    requires sp.start < sp.end <= |t|
    ensures |r| == |t|
  {
    var sub := Substring(t, sp.start, sp.end);
    if Triggers(sub, aliases) then
      ReplaceSameLength(t, sub, Neutralize(sub));
      Replace(t, sub, Neutralize(sub))
    else
      t
  }

  /** A step only turns semicolons into slashes. */
  lemma StepNeutralized(t: string, sp: Span, aliases: seq<string>)
    requires sp.start < sp.end <= |t|
    ensures Neutralized(t, Step(t, sp, aliases))
  {
    var sub := Substring(t, sp.start, sp.end);
    if Triggers(sub, aliases) {
      ReplaceNeutralized(t, sub);
    }
  }

  /** The string after the loop has handled the first `n` spans of `ms`, in order. */
  function Apply(t: string, ms: seq<Span>, n: nat, aliases: seq<string>): (r: string)
    requires SpansWithin(t, ms) && n <= |ms|
    ensures |r| == |t|
    decreases n, 0
  {
    if n == 0 then t else StepAt(t, ms, n - 1, aliases)
  }

  /** The string after the iteration for the span `ms[k]`. */
  function StepAt(t: string, ms: seq<Span>, k: nat, aliases: seq<string>): (r: string)
    requires SpansWithin(t, ms) && k < |ms|
    ensures |r| == |t|
    decreases k, 1
  {
    Step(Apply(t, ms, k, aliases), ms[k], aliases)
  }

  /**
   * The rewriting of `replace_semicolons_in_brackets` with the list of
   * alias fragments as a parameter: every bracketed span of `s`, in order.
   */
  function DisambiguateWith(s: string, aliases: seq<string>): (r: string)
    ensures |r| == |s|
  {
    Apply(s, Matches(s), |Matches(s)|, aliases)
  }

  /** The result of `replace_semicolons_in_brackets`, with the fragments analyzer.py lists. */
  function Disambiguate(s: string): (r: string)
    ensures |r| == |s|
  {
    DisambiguateWith(s, AliasPatterns)
  }

  /** The result differs from the input only where a semicolon became a slash. */
  lemma DisambiguateNeutralized(s: string, aliases: seq<string>)
    ensures Neutralized(s, DisambiguateWith(s, aliases))
  {
    PrefixesNeutralized(s, Matches(s), 0, |Matches(s)|, aliases);
  }

  /** The rewritten string keeps the bracketed spans of the original. */
  lemma DisambiguateKeepsMatches(s: string, aliases: seq<string>)
    ensures Matches(DisambiguateWith(s, aliases)) == Matches(s)
  {
    var r := DisambiguateWith(s, aliases);
    PrefixesNeutralized(s, Matches(s), 0, |Matches(s)|, aliases);
    NeutralizedSameBrackets(s, r);
    FindAllRespects(s, r, 0);
  }

  /** `replace_semicolons_in_brackets`, whose fragment list is a literal of its body. */
  method ReplaceSemicolonsInBrackets(characters: string) returns (r: string)
    ensures r == Disambiguate(characters)
  {
    r := RewriteBrackets(characters, AliasPatterns);
  }

  /** The loop of `replace_semicolons_in_brackets` over the spans of the original string. */
  method RewriteBrackets(characters: string, aliases: seq<string>) returns (r: string)
    ensures r == DisambiguateWith(characters, aliases)
  {
    var matches := Matches(characters);
    assert SpansWithin(characters, matches);
    r := characters;
    for i := 0 to |matches|
      invariant r == Apply(characters, matches, i, aliases)
    {
      r := RewriteSpan(r, matches[i], aliases);
    }
  }

  /** The body of the loop for one span. */
  method RewriteSpan(t: string, m: Span, aliases: seq<string>) returns (r: string)
    requires m.start < m.end <= |t|
    ensures r == Step(t, m, aliases)
  {
    r := t;
    var substring := r[m.start..m.end];
    SubstringIs(r, m.start, m.end);
    if CountChar(substring, ';') == 1 && MentionsAlias(substring, aliases) {
      r := Replace(r, substring, Neutralize(substring));
    }
  }

  // ---------------------------------------------------------------- properties

  /** Later states only turn more semicolons into slashes. */
  lemma {:induction false} PrefixesNeutralized(t: string, ms: seq<Span>, n: nat, m: nat, aliases: seq<string>)
    requires SpansWithin(t, ms) && n <= m <= |ms|
    ensures Neutralized(Apply(t, ms, n, aliases), Apply(t, ms, m, aliases))
    decreases m
  {
    if n < m {
      var sp := ms[m - 1];
      assert sp.start < sp.end <= |t|;
      var a, b := Apply(t, ms, n, aliases), Apply(t, ms, m - 1, aliases);
      PrefixesNeutralized(t, ms, n, m - 1, aliases);
      StepNeutralized(b, sp, aliases);
      NeutralizedTrans(a, b, Step(b, sp, aliases));
      assert Apply(t, ms, m, aliases) == Step(b, sp, aliases);
    }
  }

  /**
   * A position that one step changes lies inside a bracketed span of the
   * original string: every occurrence of a bracketed text is itself
   * covered by a match of the pattern.
   */
  lemma StepChangeCovered(s: string, t: string, sp: Span, i: nat, aliases: seq<string>) returns (k: nat)
    requires Neutralized(s, t) && sp.start < sp.end <= |s| && BracketText(s[sp.start..sp.end])
    requires i < |t| && Step(t, sp, aliases)[i] != t[i]
    ensures k < |Matches(s)| && Matches(s)[k].start <= i < Matches(s)[k].end
  {
    NeutralizedSameBrackets(s, t);
    var sub := t[sp.start..sp.end];
    SubstringIs(t, sp.start, sp.end);
    BracketTextRespects(s, t, sp.start, sp.end);
    var rep := Neutralize(sub);
    NeutralizeChars(sub);
    ReplaceSameLength(t, sub, rep);
    var p := ReplaceChanged(t, sub, rep, i);
    k := OccurrenceCovered(t, sub, p);
    FindAllRespects(s, t, 0);
  }

  lemma {:induction false} ChangedInsidePrefix(s: string, n: nat, i: nat, aliases: seq<string>) returns (k: nat)
    requires n <= |Matches(s)| && i < |s| && Apply(s, Matches(s), n, aliases)[i] != s[i]
    ensures k < |Matches(s)| && Matches(s)[k].start <= i < Matches(s)[k].end
    decreases n
  {
    var ms := Matches(s);
    assert n > 0;
    var prev := Apply(s, ms, n - 1, aliases);
    if prev[i] != s[i] {
      k := ChangedInsidePrefix(s, n - 1, i, aliases);
    } else {
      MatchText(s, n - 1);
      PrefixesNeutralized(s, ms, 0, n - 1, aliases);
      k := StepChangeCovered(s, prev, ms[n - 1], i, aliases);
    }
  }

  /** Only characters inside bracketed spans are changed. */
  lemma ChangedInsideMatch(s: string, i: nat, aliases: seq<string>) returns (k: nat)
    requires i < |s| && DisambiguateWith(s, aliases)[i] != s[i]
    ensures k < |Matches(s)| && Matches(s)[k].start <= i < Matches(s)[k].end
  {
    k := ChangedInsidePrefix(s, |Matches(s)|, i, aliases);
  }

  /** No semicolon at the positions `[a, b)`. */
  predicate SemicolonFree(t: string, a: nat, b: nat)
  {
    forall x :: a <= x < b && x < |t| ==> t[x] != ';'
  }

  lemma SemicolonFreeSlice(t: string, a: nat, b: nat)
    requires a <= b <= |t|
    ensures SemicolonFree(t, a, b) <==> ';' !in t[a..b]
  {
    assert forall x :: a <= x < b ==> t[a..b][x - a] == t[x];
  }

  lemma NeutralizedKeepsFree(t: string, r: string, a: nat, b: nat)
    requires Neutralized(t, r) && SemicolonFree(t, a, b)
    ensures SemicolonFree(r, a, b)
  {
  }

  lemma NeutralizedSlice(t: string, r: string, a: nat, b: nat)
    requires Neutralized(t, r) && a <= b <= |t|
    ensures Neutralized(t[a..b], r[a..b])
  {
    assert forall x :: a <= x < b ==> t[a..b][x - a] == t[x] && r[a..b][x - a] == r[x];
  }

  /** Two different texts of one length differ at some index. */
  lemma DiffersAt(u: string, w: string) returns (j: nat)
    requires |u| == |w| && u != w
    ensures j < |w| && u[j] != w[j]
  {
    j :| 0 <= j < |w| && u[j] != w[j];
  }

  /** Rewriting a bracket text leaves no semicolon at its place. */
  lemma ReplaceClears(t: string, w: string, a: nat)
    requires BracketText(w) && IsOccurrence(t, w, a)
    ensures |Replace(t, w, Neutralize(w))| == |t|
    ensures ';' !in Replace(t, w, Neutralize(w))[a..a + |w|]
  {
    BracketBorderFree(w);
    NeutralizeChars(w);
    ReplaceCovers(t, w, Neutralize(w), a);
  }

  /** A triggering bracket text loses its semicolon at its own place. */
  lemma StepClears(t: string, sp: Span, aliases: seq<string>)
    requires sp.start < sp.end <= |t|
    requires BracketText(t[sp.start..sp.end]) && Triggers(t[sp.start..sp.end], aliases)
    ensures ';' !in Step(t, sp, aliases)[sp.start..sp.end]
  {
    var w := t[sp.start..sp.end];
    SubstringIs(t, sp.start, sp.end);
    assert Step(t, sp, aliases) == Replace(t, w, Neutralize(w));
    ReplaceClears(t, w, sp.start);
  }

  /** Once the only semicolon of a text has become a slash, none is left. */
  lemma OnlySemicolonGone(w: string, v: string, j: nat)
    requires Neutralized(w, v) && CountChar(w, ';') == 1 && j < |w| && v[j] != w[j]
    ensures ';' !in v
  {
    forall x | 0 <= x < |w|
      ensures v[x] != ';'
    {
      CountCharTwo(w, ';', x, j);
      CountCharTwo(w, ';', j, x);
    }
  }

  /**
   * The step for a span whose original text triggers leaves no semicolon in
   * it: either the span is still as it was and is rewritten, or an earlier
   * rewrite has already turned its only semicolon into a slash.
   */
  lemma SpanStepClears(s: string, t: string, sp: Span, aliases: seq<string>)
    requires Neutralized(s, t) && sp.start < sp.end <= |s|
    requires BracketText(s[sp.start..sp.end]) && Triggers(s[sp.start..sp.end], aliases)
    ensures SemicolonFree(Step(t, sp, aliases), sp.start, sp.end)
  {
    var a, b := sp.start, sp.end;
    var w, u := s[a..b], t[a..b];
    var next := Step(t, sp, aliases);
    if u == w {
      StepClears(t, sp, aliases);
      SemicolonFreeSlice(next, a, b);
    } else {
      NeutralizedSlice(s, t, a, b);
      var j := DiffersAt(u, w);
      OnlySemicolonGone(w, u, j);
      SemicolonFreeSlice(t, a, b);
      StepNeutralized(t, sp, aliases);
      NeutralizedKeepsFree(t, next, a, b);
    }
  }

  /** Every bracketed span whose original text triggers ends up with no semicolon. */
  lemma TriggeringSpanCleared(s: string, k: nat, aliases: seq<string>)
    requires k < |Matches(s)|
    requires Triggers(s[Matches(s)[k].start..Matches(s)[k].end], aliases)
    ensures ';' !in DisambiguateWith(s, aliases)[Matches(s)[k].start..Matches(s)[k].end]
  {
    var ms := Matches(s);
    var sp := ms[k];
    var prev := Apply(s, ms, k, aliases);
    var cur := StepAt(s, ms, k, aliases);
    var r := DisambiguateWith(s, aliases);
    MatchText(s, k);
    PrefixesNeutralized(s, ms, 0, k, aliases);
    SpanStepClears(s, prev, sp, aliases);
    PrefixesNeutralized(s, ms, k + 1, |ms|, aliases);
    NeutralizedKeepsFree(cur, r, sp.start, sp.end);
    SemicolonFreeSlice(r, sp.start, sp.end);
  }

  // ---------------------------------------------------------------- examples

  /** The only bracketed span of the alias example of the test suite. */
  lemma ExampleSupermanMatches(s: string)
    requires s == "Superman [Clark Kent; Kal-El]"
    ensures Matches(s) == [Span(9, 29)]
  {
    OnlyMatch(s, 9, 29);
  }

  /** Its text holds one semicolon and the alias `Kal-El`. */
  lemma ExampleSupermanTriggers(w: string)
    requires w == "[Clark Kent; Kal-El]"
    ensures Triggers(w, AliasPatterns)
  {
    ExampleSupermanAlias(w);
    ExampleSupermanSemicolon(w);
  }

  lemma ExampleSupermanAlias(w: string)
    requires w == "[Clark Kent; Kal-El]"
    ensures MentionsAlias(w, AliasPatterns)
  {
    assert w[13..19] == "Kal-El";
    ContainsAt(w, "Kal-El", 13);
    KalElListed();
    assert MentionsAliasFrom(w, AliasPatterns, 1);
  }

  lemma ExampleSupermanSemicolon(w: string)
    requires w == "[Clark Kent; Kal-El]"
    ensures CountChar(w, ';') == 1
  {
    CountCharOne(w, ';', 11);

  }

  lemma KalElListed()
    ensures AliasPatterns[1] == "Kal-El"
  {
  }

  /** The alias example of the test suite. */
  lemma ExampleSuperman(s: string)
    requires s == "Superman [Clark Kent; Kal-El]"
    ensures Disambiguate(s) == "Superman [Clark Kent/ Kal-El]"
  {
    ExampleSupermanShape(s);
    NeutralizeChars(s[9..29]);
    ExampleSupermanAssemble(s, Neutralize(s[9..29]));
  }

  lemma ExampleSupermanShape(s: string)
    requires s == "Superman [Clark Kent; Kal-El]"
    ensures Disambiguate(s) == s[..9] + Neutralize(s[9..29]) + s[29..]
  {
    ExampleSupermanMatches(s);
    ExampleSupermanTriggers(s[9..29]);
    OneTriggeringSpan(s, AliasPatterns);
  }

  lemma ExampleSupermanAssemble(s: string, n: string)
    requires s == "Superman [Clark Kent; Kal-El]"
    requires |n| == 20 && forall j :: 0 <= j < 20 ==> n[j] == if s[9 + j] == ';' then '/' else s[9 + j]
    ensures s[..9] + n + s[29..] == "Superman [Clark Kent/ Kal-El]"
  {
  }

  /** With a single bracketed span, which triggers, exactly its semicolons become slashes. */
  lemma OneTriggeringSpan(s: string, aliases: seq<string>)
    requires |Matches(s)| == 1
    requires Triggers(s[Matches(s)[0].start..Matches(s)[0].end], aliases)
    ensures DisambiguateWith(s, aliases) == s[..Matches(s)[0].start] + Neutralize(s[Matches(s)[0].start..Matches(s)[0].end]) + s[Matches(s)[0].end..]
  {
    var a, b := Matches(s)[0].start, Matches(s)[0].end;
    var r := DisambiguateWith(s, aliases);
    TriggeringSpanCleared(s, 0, aliases);
    SemicolonFreeSlice(r, a, b);
    forall x | 0 <= x < |s| && (x < a || b <= x)
      ensures r[x] == s[x]
    {
      UnchangedOutside(s, x, aliases);
    }
    PrefixesNeutralized(s, Matches(s), 0, |Matches(s)|, aliases);
    SingleSpanResult(s, r, a, b);
  }

  /** A character outside every bracketed span is left as it was. */
  lemma UnchangedOutside(s: string, x: nat, aliases: seq<string>)
    requires x < |s|
    requires forall k :: 0 <= k < |Matches(s)| ==> !(Matches(s)[k].start <= x < Matches(s)[k].end)
    ensures DisambiguateWith(s, aliases)[x] == s[x]
  {
    if DisambiguateWith(s, aliases)[x] != s[x] {
      var k := ChangedInsideMatch(s, x, aliases);
    }
  }

  /**
   * When only the span `[a, b)` may change and it loses all its semicolons,
   * the result is the span's text with every semicolon made a slash.
   */
  lemma SingleSpanResult(s: string, r: string, a: nat, b: nat)
    requires Neutralized(s, r) && a <= b <= |s| && SemicolonFree(r, a, b)
    requires forall x :: 0 <= x < |s| && (x < a || b <= x) ==> r[x] == s[x]
    ensures r == s[..a] + Neutralize(s[a..b]) + s[b..]
  {
    var t := s[..a] + Neutralize(s[a..b]) + s[b..];
    NeutralizeChars(s[a..b]);
    assert forall x :: a <= x < b ==> t[x] == Neutralize(s[a..b])[x - a];
  }

  // ---------------------------------------------------------------- what is left alone

  /** While no span's text triggers, the loop changes nothing. */
  lemma {:induction false} UntriggeredApply(t: string, ms: seq<Span>, n: nat, aliases: seq<string>)
    requires SpansWithin(t, ms) && n <= |ms|
    requires forall k :: 0 <= k < n ==> !Triggers(t[ms[k].start..ms[k].end], aliases)
    ensures Apply(t, ms, n, aliases) == t
  {
    if n > 0 {
      UntriggeredApply(t, ms, n - 1, aliases);
      SubstringIs(t, ms[n - 1].start, ms[n - 1].end);
    }
  }

  /** When no bracketed span of the input triggers, the input comes back unchanged. */
  lemma NoTriggerUnchanged(s: string, aliases: seq<string>)
    requires forall k :: 0 <= k < |Matches(s)| ==> !Triggers(s[Matches(s)[k].start..Matches(s)[k].end], aliases)
    ensures DisambiguateWith(s, aliases) == s
  {
    assert SpansWithin(s, Matches(s));
    UntriggeredApply(s, Matches(s), |Matches(s)|, aliases);
  }

  /**
   * A character changed by the first `n` iterations lies in an occurrence,
   * in the string of some iteration `k`, of the text that span `k` had
   * then, and that text triggered.
   */
  lemma {:induction false} ChangedByTriggerPrefix(s: string, ms: seq<Span>, n: nat, i: nat, aliases: seq<string>)
    returns (k: nat, p: nat)
    requires SpansWithin(s, ms) && n <= |ms| && i < |s| && Apply(s, ms, n, aliases)[i] != s[i]
    ensures k < n
    ensures var u := Apply(s, ms, k, aliases);
            var w := u[ms[k].start..ms[k].end];
            Triggers(w, aliases) && IsOccurrence(u, w, p) && p <= i < p + |w|
    decreases n
  {
    assert n > 0;
    var prev := Apply(s, ms, n - 1, aliases);
    if prev[i] != s[i] {
      k, p := ChangedByTriggerPrefix(s, ms, n - 1, i, aliases);
    } else {
      k := n - 1;
      var sp := ms[k];
      var sub := prev[sp.start..sp.end];
      SubstringIs(prev, sp.start, sp.end);
      assert Step(prev, sp, aliases)[i] != prev[i];
      var rep := Neutralize(sub);
      ReplaceSameLength(prev, sub, rep);
      p := ReplaceChanged(prev, sub, rep, i);
    }
  }

  /**
   * Every character `replace_semicolons_in_brackets` changes is a `;` made
   * a `/`, inside an occurrence of a span's text that triggered when its
   * turn came.
   */
  lemma ChangedByTrigger(s: string, i: nat, aliases: seq<string>) returns (k: nat, p: nat)
    requires i < |s| && DisambiguateWith(s, aliases)[i] != s[i]
    ensures s[i] == ';' && DisambiguateWith(s, aliases)[i] == '/'
    ensures k < |Matches(s)|
    ensures var u := Apply(s, Matches(s), k, aliases);
            var w := u[Matches(s)[k].start..Matches(s)[k].end];
            Triggers(w, aliases) && IsOccurrence(u, w, p) && p <= i < p + |w|
  {
    DisambiguateNeutralized(s, aliases);
    assert SpansWithin(s, Matches(s));
    k, p := ChangedByTriggerPrefix(s, Matches(s), |Matches(s)|, i, aliases);
  }

  /** With a single bracketed span, the string changes exactly when that span triggers. */
  lemma OneSpanResult(s: string, aliases: seq<string>)
    requires |Matches(s)| == 1
    ensures var a, b := Matches(s)[0].start, Matches(s)[0].end;
            DisambiguateWith(s, aliases) ==
              if Triggers(s[a..b], aliases) then s[..a] + Neutralize(s[a..b]) + s[b..] else s
    ensures DisambiguateWith(s, aliases) != s <==> Triggers(s[Matches(s)[0].start..Matches(s)[0].end], aliases)
  {
    var a, b := Matches(s)[0].start, Matches(s)[0].end;
    if Triggers(s[a..b], aliases) {
      OneTriggeringSpan(s, aliases);
      var w := s[a..b];
      CountCharAbsent(w, ';');
      var j :| 0 <= j < |w| && w[j] == ';';
      NeutralizeChars(w);
      var r := DisambiguateWith(s, aliases);
      assert r[a + j] == Neutralize(w)[j];
    } else {
      NoTriggerUnchanged(s, aliases);
    }
  }
}
