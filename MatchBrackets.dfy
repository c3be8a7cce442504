/**
 * `match_brackets` of comics_net/analyzer.py: a dict from the text of every
 * bracketed span to its offsets, filled in the order `finditer` yields the
 * spans.  A text that occurs twice keeps the position of its first
 * insertion and the offsets of its last match.
 */
module MatchBrackets {
  import opened PyText
  import opened BracketPattern
  import opened PyDict

  /** The text `s[sp.start:sp.end]` of a span, the `m.group()` of its match. */
  function Text(s: string, sp: Span): (r: string)
    requires sp.start <= sp.end <= |s|
    ensures |r| == sp.end - sp.start
  {
    s[sp.start..sp.end]
  }

  /** The dict after the loop has recorded the first `n` spans. */
  function Record(s: string, ms: seq<Span>, n: nat): (d: Dict<string, Span>)
    requires SpansWithin(s, ms) && n <= |ms|
    ensures |d.items| <= n
  {
    if n == 0 then Empty() else Put(Record(s, ms, n - 1), Text(s, ms[n - 1]), ms[n - 1])
  }

  /** The result of `match_brackets`. */
  function BracketDict(s: string): (d: Dict<string, Span>)
    ensures |d.items| <= |Matches(s)|
  {
    Record(s, Matches(s), |Matches(s)|)
  }

  method MatchBrackets(characters: string) returns (matches: Dict<string, Span>)
    ensures matches == BracketDict(characters)
  {
    var ms := Matches(characters);
    assert SpansWithin(characters, ms);
    matches := Empty();
    for i := 0 to |ms|
      invariant matches == Record(characters, ms, i)
    {
      matches := Put(matches, characters[ms[i].start..ms[i].end], ms[i]);
    }
  }

  // ---------------------------------------------------------------- properties

  /** No text is recorded twice. */
  lemma {:induction false} RecordValid(s: string, ms: seq<Span>, n: nat)
    requires SpansWithin(s, ms) && n <= |ms|
    ensures Valid(Record(s, ms, n))
  {
    if n > 0 {
      RecordValid(s, ms, n - 1);
      PutValid(Record(s, ms, n - 1), Text(s, ms[n - 1]), ms[n - 1]);
    }
  }

  /**
   * Looking a text up gives the offsets of the last of the first `n` spans
   * with that text, and nothing when none of them has it.
   */
  lemma {:induction false} RecordGet(s: string, ms: seq<Span>, n: nat, w: string)
    requires SpansWithin(s, ms) && n <= |ms|
    ensures Get(Record(s, ms, n), w) == LastWithText(s, ms, n, w)
  {
    if n > 0 {
      RecordValid(s, ms, n - 1);
      RecordGet(s, ms, n - 1, w);
      GetPut(Record(s, ms, n - 1), Text(s, ms[n - 1]), ms[n - 1], w);
    }
  }

  /** The last of the first `n` spans whose text is `w`. */
  function LastWithText(s: string, ms: seq<Span>, n: nat, w: string): (r: Option<Span>)
    requires SpansWithin(s, ms) && n <= |ms|
  {
    if n == 0 then None
    else if Text(s, ms[n - 1]) == w then Some(ms[n - 1])
    else LastWithText(s, ms, n - 1, w)
  }

  /** `LastWithText` names a span with that text and no later span has it. */
  lemma {:induction false} LastWithTextIs(s: string, ms: seq<Span>, n: nat, w: string) returns (j: nat)
    requires SpansWithin(s, ms) && n <= |ms| && LastWithText(s, ms, n, w).Some?
    ensures j < n && LastWithText(s, ms, n, w) == Some(ms[j]) && Text(s, ms[j]) == w
    ensures forall j' :: j < j' < n ==> Text(s, ms[j']) != w
  {
    if Text(s, ms[n - 1]) == w {
      j := n - 1;
    } else {
      j := LastWithTextIs(s, ms, n - 1, w);
    }
  }

  /** `LastWithText` is `None` exactly when no span has that text. */
  lemma {:induction false} LastWithTextNone(s: string, ms: seq<Span>, n: nat, w: string)
    requires SpansWithin(s, ms) && n <= |ms|
    ensures LastWithText(s, ms, n, w).None? <==> forall j :: 0 <= j < n ==> Text(s, ms[j]) != w
  {
    if n > 0 {
      LastWithTextNone(s, ms, n - 1, w);
    }
  }

  /** Every recorded item is the text of one of the spans with that span as its offsets. */
  lemma {:induction false} RecordEntry(s: string, ms: seq<Span>, n: nat, i: nat) returns (j: nat)
    requires SpansWithin(s, ms) && n <= |ms| && i < |Record(s, ms, n).items|
    ensures j < n && Record(s, ms, n).items[i] == (Text(s, ms[j]), ms[j])
  {
    var prev := Record(s, ms, n - 1);
    var w := Text(s, ms[n - 1]);
    if Slot(prev, w).Some? && Slot(prev, w).value == i {
      j := n - 1;
    } else if i < |prev.items| {
      j := RecordEntry(s, ms, n - 1, i);
    } else {
      j := n - 1;
    }
  }

  /**
   * Every key of `match_brackets` is a bracket text and maps to offsets
   * that cut exactly that text out of the string.
   */
  lemma BracketDictEntry(s: string, i: nat)
    requires i < |BracketDict(s).items|
    ensures BracketText(BracketDict(s).items[i].0)
    ensures var sp := BracketDict(s).items[i].1;
              sp.start <= sp.end <= |s| && s[sp.start..sp.end] == BracketDict(s).items[i].0
  {
    var j := RecordEntry(s, Matches(s), |Matches(s)|, i);
    MatchText(s, j);
  }

  /**
   * A text that several matches share maps to the offsets of the last of
   * them; a text that no match has is not a key.
   */
  lemma BracketDictGet(s: string, w: string)
    ensures Get(BracketDict(s), w).None? <==> forall j :: 0 <= j < |Matches(s)| ==> Text(s, Matches(s)[j]) != w
    ensures Get(BracketDict(s), w).Some? ==>
              exists j :: 0 <= j < |Matches(s)| && Get(BracketDict(s), w) == Some(Matches(s)[j]) && Text(s, Matches(s)[j]) == w &&
                (forall j' :: j < j' < |Matches(s)| ==> Text(s, Matches(s)[j']) != w)
  {
    var ms := Matches(s);
    RecordGet(s, ms, |ms|, w);
    LastWithTextNone(s, ms, |ms|, w);
    if LastWithText(s, ms, |ms|, w).Some? {
      var j := LastWithTextIs(s, ms, |ms|, w);
    }
  }

  // ---------------------------------------------------------------- examples

  /** With a single match, the dict holds its text and offsets only. */
  lemma BracketDictSingle(s: string, a: nat, b: nat)
    requires Matches(s) == [Span(a, b)]
    ensures a < b <= |s| && BracketDict(s) == Dict([(s[a..b], Span(a, b))])
  {
    var ms := Matches(s);
    assert ms[0] == Span(a, b);
    var item := (s[a..b], Span(a, b));
    assert Record(s, ms, 0) == Empty();
    assert Empty<string, Span>().items + [item] == [item];
  }

  /** The first example of the test suite. */
  lemma ExampleBatman(s: string)
    requires s == "Batman [Bruce Wayne]"
    ensures BracketDict(s) == Dict([("[Bruce Wayne]", Span(7, 20))])
  {
    OnlyMatch(s, 7, 20);
    BracketDictSingle(s, 7, 20);
    assert s[7..20] == "[Bruce Wayne]";
  }
}
