/**
 * The regular expression `\[(.*?)\]` as Python's `re` module runs it
 * (no DOTALL flag, so `.` refuses a newline): `MatchAt` is one match
 * attempt, `FindAll` is `finditer` and `Search` is `re.search`.
 */
module BracketPattern {
  import opened PyText

  /** A half-open range `[start, end)` of a string, as `m.start()` and `m.end()` give it. */
  datatype Span = Span(start: nat, end: nat)

  /**
   * The text of one match: `[`, then characters that are neither `]` nor a
   * newline, then `]`.
   */
  predicate BracketText(w: string)
  {
    && |w| >= 2 && w[0] == '[' && w[|w| - 1] == ']'
    && forall k :: 1 <= k < |w| - 1 ==> w[k] != ']' && w[k] != '\n'
  }

  /** The lazy `(.*?)\]` from index `j`: just past the first `]`, unless a newline comes first. */
  function CloseFrom(s: string, j: nat): (r: Option<nat>)
    requires j <= |s|
    ensures r.Some? ==> j < r.value <= |s| && s[r.value - 1] == ']'
    decreases |s| - j
  {
    if j == |s| then None
    else if s[j] == ']' then Some(j + 1)
    else if s[j] == '\n' then None
    else CloseFrom(s, j + 1)
  }

  /** One attempt of the pattern at index `p`: the end of the match, if there is one. */
  function MatchAt(s: string, p: nat): Option<nat>
  {
    if p < |s| && s[p] == '[' then CloseFrom(s, p + 1) else None
  }

  /** `CloseFrom` stops at `q` exactly when `s[q - 1]` is the first `]` and no newline comes before it. */
  lemma {:induction false} CloseFromIff(s: string, j: nat, q: nat)
    requires j < q <= |s|
    ensures CloseFrom(s, j) == Some(q) <==>
              s[q - 1] == ']' && forall k :: j <= k < q - 1 ==> s[k] != ']' && s[k] != '\n'
    decreases q - j
  {
    if j < q - 1 {
      CloseFromIff(s, j + 1, q);
    }
  }

  /** A match at `p` ending at `q` is exactly a bracket text `s[p..q]`. */
  lemma MatchAtIff(s: string, p: nat, q: nat)
    requires p <= q <= |s|
    ensures MatchAt(s, p) == Some(q) <==> BracketText(s[p..q])
  {
    var w := s[p..q];
    if p + 1 < q {
      CloseFromIff(s, p + 1, q);
    }
    assert forall k :: 0 <= k < |w| ==> w[k] == s[p + k];
  }

  /** `finditer` from index `from`: each successful attempt resumes at the end of its match. */
  function FindAll(s: string, from: nat): (r: seq<Span>)
    ensures forall k :: 0 <= k < |r| ==> from <= r[k].start < r[k].end <= |s|
    decreases |s| - from
  {
    if from >= |s| then []
    else match MatchAt(s, from)
      case Some(e) => [Span(from, e)] + FindAll(s, e)
      case None => FindAll(s, from + 1)
  }

  /** Every span `finditer` yields is a successful match attempt. */
  lemma {:induction false} FindAllMatch(s: string, from: nat, k: nat)
    requires k < |FindAll(s, from)|
    ensures MatchAt(s, FindAll(s, from)[k].start) == Some(FindAll(s, from)[k].end)
    decreases |s| - from
  {
    match MatchAt(s, from)
    case Some(e) =>
      if k > 0 {
        FindAllMatch(s, e, k - 1);
      }
    case None =>
      FindAllMatch(s, from + 1, k);
  }

  /** The matches of `finditer` come in order and do not overlap. */
  lemma {:induction false} FindAllOrdered(s: string, from: nat)
    ensures forall k :: 0 < k < |FindAll(s, from)| ==> FindAll(s, from)[k - 1].end <= FindAll(s, from)[k].start
    decreases |s| - from
  {
    if from < |s| {
      match MatchAt(s, from)
      case Some(e) =>
        FindAllOrdered(s, e);
        var r := FindAll(s, from);
        assert r[1..] == FindAll(s, e);
      case None =>
        FindAllOrdered(s, from + 1);
    }
  }

  /** All the matches in `s`, as `finditer` yields them. */
  function Matches(s: string): (r: seq<Span>)
    ensures forall k :: 0 <= k < |r| ==> r[k].start < r[k].end <= |s|
  {
    FindAll(s, 0)
  }

  /** The spans are non-empty and lie inside `t`, as those of `Matches` do. */
  predicate SpansWithin(t: string, ms: seq<Span>)
  {
    forall k :: 0 <= k < |ms| ==> ms[k].start < ms[k].end <= |t|
  }

  /** The text of every match is a bracket text. */
  lemma MatchText(s: string, k: nat)
    requires k < |Matches(s)|
    ensures BracketText(s[Matches(s)[k].start..Matches(s)[k].end])
  {
    FindAllMatch(s, 0, k);
    MatchAtIff(s, Matches(s)[k].start, Matches(s)[k].end);
  }

  /** `re.search`: the leftmost match at or after `from`. */
  function Search(s: string, from: nat): (r: Option<Span>)
    ensures r.Some? ==> from <= r.value.start < r.value.end <= |s|
    ensures r.Some? ==> MatchAt(s, r.value.start) == Some(r.value.end)
    ensures r.Some? ==> forall p :: from <= p < r.value.start ==> MatchAt(s, p).None?
    ensures r.None? ==> forall p :: from <= p ==> MatchAt(s, p).None?
    decreases |s| - from
  {
    if from >= |s| then None
    else match MatchAt(s, from)
      case Some(e) => Some(Span(from, e))
      case None => Search(s, from + 1)
  }

  /** `re.search` finds the first match that `finditer` yields. */
  lemma {:induction false} SearchIsFirstMatch(s: string, from: nat)
    ensures Search(s, from) == if FindAll(s, from) == [] then None else Some(FindAll(s, from)[0])
    decreases |s| - from
  {
    if from < |s| && MatchAt(s, from).None? {
      SearchIsFirstMatch(s, from + 1);
    }
  }

  /**
   * A match attempt that would succeed at `p` is never skipped by `finditer`:
   * either it is yielded itself or `p` falls inside a yielded match that ends
   * at the same place.
   */
  lemma {:induction false} CoveredByFindAll(s: string, from: nat, p: nat) returns (k: nat)
    requires from <= p && MatchAt(s, p).Some?
    ensures k < |FindAll(s, from)|
    ensures FindAll(s, from)[k].start <= p && FindAll(s, from)[k].end == MatchAt(s, p).value
    decreases |s| - from
  {
    if from == p {
      k := 0;
    } else {
      match MatchAt(s, from)
      case Some(e') =>
        if e' <= p {
          var k' := CoveredByFindAll(s, e', p);
          k := k' + 1;
        } else {
          // p lies inside the match that starts at `from`; both end at the first `]` after p
          ClosingsAgree(s, from, p, e', MatchAt(s, p).value);
          k := 0;
        }
      case None =>
        var k' := CoveredByFindAll(s, from + 1, p);
        k := k';
    }
  }

  /** A match attempt from inside another match ends where that match ends. */
  lemma ClosingsAgree(s: string, a: nat, p: nat, ea: nat, ep: nat)
    requires a < p < ea
    requires MatchAt(s, a) == Some(ea) && MatchAt(s, p) == Some(ep)
    ensures ea == ep
  {
    CloseFromFirst(s, a + 1, ep - 1);
    assert s[p] == '[' && s[ea - 1] == ']';
    CloseFromFirst(s, p + 1, ea - 1);
  }

  /** `CloseFrom` stops at the first `]`. */
  lemma {:induction false} CloseFromFirst(s: string, j: nat, m: nat)
    requires j <= m < |s| && s[m] == ']' && CloseFrom(s, j).Some?
    ensures CloseFrom(s, j).value <= m + 1
    decreases m - j
  {
    if j < m && s[j] != ']' {
      CloseFromFirst(s, j + 1, m);
    }
  }

  /** Two strings agree on where their `[`, `]` and newlines are. */
  predicate SameBrackets(s: string, t: string)
  {
    && |s| == |t|
    && forall i :: 0 <= i < |s| ==>
         (s[i] == '[' <==> t[i] == '[') && (s[i] == ']' <==> t[i] == ']') && (s[i] == '\n' <==> t[i] == '\n')
  }

  lemma {:induction false} CloseFromRespects(s: string, t: string, j: nat)
    requires SameBrackets(s, t) && j <= |s|
    ensures CloseFrom(s, j) == CloseFrom(t, j)
    decreases |s| - j
  {
    if j < |s| {
      CloseFromRespects(s, t, j + 1);
    }
  }

  /** The pattern only looks at brackets and newlines, so it matches the same spans. */
  lemma {:induction false} FindAllRespects(s: string, t: string, from: nat)
    requires SameBrackets(s, t)
    ensures FindAll(s, from) == FindAll(t, from)
    decreases |s| - from
  {
    if from < |s| {
      CloseFromRespects(s, t, from + 1);
      assert MatchAt(s, from) == MatchAt(t, from);
      match MatchAt(s, from)
      case Some(e) => FindAllRespects(s, t, e);
      case None => FindAllRespects(s, t, from + 1);
    }
  }

  /** Bracket-agreeing strings have their bracket texts at the same places. */
  lemma BracketTextRespects(s: string, t: string, a: nat, b: nat)
    requires SameBrackets(s, t) && a <= b <= |s| && BracketText(s[a..b])
    ensures BracketText(t[a..b])
  {
    assert forall k :: a <= k < b ==> s[a..b][k - a] == s[k] && t[a..b][k - a] == t[k];
  }

  /** Two occurrences of one bracket text never overlap: its last `]` would sit inside the other. */
  lemma BracketBorderFree(w: string)
    requires BracketText(w)
    ensures BorderFree(w)
  {
    forall d | 0 < d < |w|
      ensures w[d..] != w[..|w| - d]
    {
      assert w[d..][|w| - d - 1] == ']';
      assert w[..|w| - d][|w| - d - 1] == w[|w| - d - 1];
    }
  }

  /** `finditer` passes over text without a `[` without yielding anything. */
  lemma {:induction false} SkipNoBracket(s: string, from: nat, to: nat)
    requires from <= to <= |s|
    requires forall k :: from <= k < to ==> s[k] != '['
    ensures FindAll(s, from) == FindAll(s, to)
    decreases |s| - from
  {
    if from < to {
      SkipNoBracket(s, from + 1, to);
    }
  }

  /**
   * A string with a single bracketed span `[a, b)` and no other `[` has
   * exactly that match.
   */
  lemma OnlyMatch(s: string, a: nat, b: nat)
    requires a + 1 < b <= |s| && s[a] == '[' && s[b - 1] == ']'
    requires forall k :: a < k < b - 1 ==> s[k] != ']' && s[k] != '\n'
    requires forall k :: 0 <= k < |s| && (k < a || b <= k) ==> s[k] != '['
    ensures Matches(s) == [Span(a, b)]
  {
    SkipNoBracket(s, 0, a);
    CloseFromIff(s, a + 1, b);
    SkipNoBracket(s, b, |s|);
    assert FindAll(s, a) == [Span(a, b)] + FindAll(s, b);
  }

  /**
   * Every occurrence of a bracket text in `s` ends where a match ends, and
   * that match starts no later than the occurrence.
   */
  lemma OccurrenceCovered(s: string, w: string, p: nat) returns (k: nat)
    requires BracketText(w) && IsOccurrence(s, w, p)
    ensures k < |Matches(s)|
    ensures Matches(s)[k].start <= p && Matches(s)[k].end == p + |w|
  {
    MatchAtIff(s, p, p + |w|);
    k := CoveredByFindAll(s, 0, p);
  }
}
