/**
 * The bracket scan of `convert_characters_to_list` in comics_net/analyzer.py:
 * a depth counter that goes up at `[` and down at `]` (and may go below
 * zero), remembers where the content after a `[` at depth zero begins, and
 * records the content range `(startIndex, i)` whenever a `]` brings the
 * depth back to zero.
 */
module DepthScan {
  import opened BracketPattern

  /** The loop's variables: `stack`, `startIndex` and `matches`. */
  datatype ScanState = ScanState(depth: int, start: nat, spans: seq<Span>)

  /** One iteration of the loop, on the character at index `i`. */
  function ScanStep(t: string, i: nat, st: ScanState): (r: ScanState)
    requires i < |t|
    ensures |r.spans| <= |st.spans| + 1
  {
    if t[i] == '[' then
      ScanState(st.depth + 1, if st.depth == 0 then i + 1 else st.start, st.spans)
    else if t[i] == ']' then
      if st.depth - 1 == 0 then ScanState(0, st.start, st.spans + [Span(st.start, i)])
      else ScanState(st.depth - 1, st.start, st.spans)
    else st
  }

  /** The state after the loop has read the first `n` characters. */
  function Scan(t: string, n: nat): (r: ScanState)
    requires n <= |t|
    ensures |r.spans| <= n
  {
    if n == 0 then ScanState(0, 0, []) else ScanStep(t, n - 1, Scan(t, n - 1))
  }

  /** The content ranges the scan records over the whole string. */
  function ContentSpans(t: string): (r: seq<Span>)
    ensures |r| <= |t|
  {
    Scan(t, |t|).spans
  }

  method BracketContents(t: string) returns (matches: seq<Span>)
    ensures matches == ContentSpans(t)
  {
    var stack: int := 0;
    var startIndex: nat := 0;
    matches := [];
    for i := 0 to |t|
      invariant Scan(t, i) == ScanState(stack, startIndex, matches)
    {
      if t[i] == '[' {
        if stack == 0 {
          startIndex := i + 1;
        }
        stack := stack + 1;
      } else if t[i] == ']' {
        stack := stack - 1;
        if stack == 0 {
          matches := matches + [Span(startIndex, i)];
        }
      }
    }
  }

  // ---------------------------------------------------------------- balance

  /** The number of `[` minus the number of `]` in `t[a..b]`. */
  function Net(t: string, a: nat, b: nat): (r: int)
    requires a <= b <= |t|
    ensures -(b - a) <= r <= b - a
    decreases b
  {
    if a == b then 0
    else Net(t, a, b - 1) + (if t[b - 1] == '[' then 1 else if t[b - 1] == ']' then -1 else 0)
  }

  /** `t[a..b]` is a well-nested bracket word: no prefix closes more than it opened, and all is closed. */
  predicate Balanced(t: string, a: nat, b: nat)
    requires a <= b <= |t|
  {
    Net(t, a, b) == 0 && forall j :: a <= j <= b ==> Net(t, a, j) >= 0
  }

  /** A recorded range: the content strictly between a `[` and its matching `]`. */
  predicate Enclosed(t: string, sp: Span)
  {
    && 1 <= sp.start <= sp.end < |t|
    && t[sp.start - 1] == '[' && t[sp.end] == ']'
    && Balanced(t, sp.start, sp.end)
  }

  /** Ranges that come in order, each bracket pair after the previous one. */
  predicate Separated(spans: seq<Span>)
  {
    forall k :: 0 < k < |spans| ==> spans[k - 1].end + 1 < spans[k].start
  }

  /**
   * While the depth is positive, `startIndex` follows an opening `[` that
   * comes after every recorded range, and the depth counts what is still
   * open since then.
   */
  predicate Pending(t: string, n: nat, st: ScanState)
    requires n <= |t|
  {
    st.depth > 0 ==>
      && 1 <= st.start <= n && t[st.start - 1] == '['
      && Net(t, st.start, n) == st.depth - 1
      && (forall j :: st.start <= j <= n ==> Net(t, st.start, j) >= 0)
      && (|st.spans| > 0 ==> st.spans[|st.spans| - 1].end + 1 < st.start)
  }

  /** A range recorded by the time `n` characters are read. */
  predicate Recorded(t: string, n: nat, sp: Span)
  {
    sp.end < n && Enclosed(t, sp)
  }

  /** What the loop maintains after reading `n` characters. */
  predicate ScanInv(t: string, n: nat, st: ScanState)
    requires n <= |t|
  {
    && (forall k :: 0 <= k < |st.spans| ==> Recorded(t, n, st.spans[k]))
    && Separated(st.spans)
    && Pending(t, n, st)
  }

  /** An opening `[` keeps `ScanInv`. */
  lemma OpenKeepsInv(t: string, i: nat, st: ScanState)
    requires i < |t| && t[i] == '[' && ScanInv(t, i, st)
    ensures ScanInv(t, i + 1, ScanState(st.depth + 1, if st.depth == 0 then i + 1 else st.start, st.spans))
  {
    if st.depth == 0 {
      assert Net(t, i + 1, i + 1) == 0;
      if |st.spans| > 0 {
        assert st.spans[|st.spans| - 1].end < i;
      }
    } else if st.depth > 0 {
      assert Net(t, st.start, i + 1) == Net(t, st.start, i) + 1;
    }
  }

  /** A closing `]` that brings the depth back to zero records a range and keeps `ScanInv`. */
  lemma CloseKeepsInv(t: string, i: nat, st: ScanState)
    requires i < |t| && t[i] == ']' && st.depth == 1 && ScanInv(t, i, st)
    ensures ScanInv(t, i + 1, ScanState(0, st.start, st.spans + [Span(st.start, i)]))
  {
    assert Net(t, st.start, i + 1) == Net(t, st.start, i) - 1;
    assert Enclosed(t, Span(st.start, i));
  }

  /** Any other closing `]` keeps `ScanInv`. */
  lemma DropKeepsInv(t: string, i: nat, st: ScanState)
    requires i < |t| && t[i] == ']' && st.depth != 1 && ScanInv(t, i, st)
    ensures ScanInv(t, i + 1, ScanState(st.depth - 1, st.start, st.spans))
  {
    if st.depth > 1 {
      assert Net(t, st.start, i + 1) == Net(t, st.start, i) - 1;
    }
  }

  /** A character other than a bracket keeps `ScanInv`. */
  lemma OtherKeepsInv(t: string, i: nat, st: ScanState)
    requires i < |t| && t[i] != '[' && t[i] != ']' && ScanInv(t, i, st)
    ensures ScanInv(t, i + 1, st)
  {
    if st.depth > 0 {
      assert Net(t, st.start, i + 1) == Net(t, st.start, i);
    }
  }

  /** Every iteration of the loop keeps `ScanInv`. */
  lemma StepKeepsInv(t: string, n: nat, st: ScanState)
    requires 0 < n <= |t| && ScanInv(t, n - 1, st)
    ensures ScanInv(t, n, ScanStep(t, n - 1, st))
  {
    var i := n - 1;
    if t[i] == '[' {
      OpenKeepsInv(t, i, st);
    } else if t[i] == ']' {
      if st.depth == 1 {
        CloseKeepsInv(t, i, st);
      } else {
        DropKeepsInv(t, i, st);
      }
    } else {
      OtherKeepsInv(t, i, st);
    }
  }

  /** The loop's state always satisfies `ScanInv`. */
  lemma {:induction false} ScanKeepsInv(t: string, n: nat)
    requires n <= |t|
    ensures ScanInv(t, n, Scan(t, n))
  {
    if n > 0 {
      ScanKeepsInv(t, n - 1);
      StepKeepsInv(t, n, Scan(t, n - 1));
    }
  }

  /**
   * Every content range of `convert_characters_to_list` lies between a `[`
   * and the `]` that closes it, holds a well-nested bracket word, and the
   * ranges come in order without sharing a bracket.
   */
  lemma ContentSpansEnclosed(t: string)
    ensures forall k :: 0 <= k < |ContentSpans(t)| ==> Enclosed(t, ContentSpans(t)[k])
    ensures Separated(ContentSpans(t))
  {
    ScanKeepsInv(t, |t|);
  }

  /** Characters that are not brackets leave the scan's state alone. */
  lemma {:induction false} ScanSkip(t: string, a: nat, b: nat)
    requires a <= b <= |t|
    requires forall k :: a <= k < b ==> t[k] != '[' && t[k] != ']'
    ensures Scan(t, b) == Scan(t, a)
    decreases b
  {
    if a < b {
      ScanSkip(t, a, b - 1);
    }
  }

  /** Without a `]` nothing more is recorded, so a `[` that is never closed yields no range. */
  lemma {:induction false} NoCloseNoSpan(t: string, a: nat, b: nat)
    requires a <= b <= |t|
    requires forall k :: a <= k < b ==> t[k] != ']'
    ensures Scan(t, b).spans == Scan(t, a).spans
    decreases b
  {
    if a < b {
      NoCloseNoSpan(t, a, b - 1);
    }
  }

  /** The malformed credit `"Team [A; B"`: the dangling bracket is dropped and no range is recorded. */
  lemma ExampleDangling(t: string)
    requires t == "Team [A; B"
    ensures ContentSpans(t) == []
  {
    assert forall k :: 0 <= k < |t| ==> t[k] != ']';
    NoCloseNoSpan(t, 0, |t|);
  }

  /** One pair of brackets `t[a]` and `t[b]` with no other bracket in `t` gives the one range `(a + 1, b)`. */
  lemma SinglePair(t: string, a: nat, b: nat)
    requires a < b < |t| && t[a] == '[' && t[b] == ']'
    requires forall k :: 0 <= k < |t| && k != a && k != b ==> t[k] != '[' && t[k] != ']'
    ensures ContentSpans(t) == [Span(a + 1, b)]
  {
    ScanSkip(t, 0, a);
    ScanSkip(t, a + 1, b);
    ScanSkip(t, b + 1, |t|);
    assert Scan(t, a + 1) == ScanState(1, a + 1, []);
    assert Scan(t, b + 1) == ScanState(0, a + 1, [Span(a + 1, b)]);
  }

  /** A nested pair is one range: `"A [b [c] d]"` gives the content `"b [c] d"`. */
  lemma ExampleNested(t: string)
    requires t == "A [b [c] d]"
    ensures ContentSpans(t) == [Span(3, 10)]
  {
    ScanSkip(t, 0, 2);
    assert Scan(t, 3) == ScanState(1, 3, []);
    ScanSkip(t, 3, 5);
    assert Scan(t, 6) == ScanState(2, 3, []);
    assert Scan(t, 8) == ScanState(1, 3, []);
    ScanSkip(t, 8, 10);
    assert Scan(t, 11) == ScanState(0, 3, [Span(3, 10)]);
  }

  // ---------------------------------------------------------------- completeness

  /** The depth counter is the number of `[` minus the number of `]` read so far. */
  lemma {:induction false} DepthIsNet(t: string, n: nat)
    requires n <= |t|
    ensures Scan(t, n).depth == Net(t, 0, n)
  {
    if n > 0 {
      DepthIsNet(t, n - 1);
    }
  }

  /** The scan only ever appends ranges. */
  lemma {:induction false} SpansGrow(t: string, m: nat, n: nat)
    requires m <= n <= |t|
    ensures Scan(t, m).spans <= Scan(t, n).spans
    decreases n
  {
    if m < n {
      SpansGrow(t, m, n - 1);
    }
  }

  /** The content starting at `p` follows a `[` read at depth zero. */
  predicate OpensAtTop(t: string, p: nat)
  {
    1 <= p <= |t| && Net(t, 0, p - 1) == 0
  }

  /** Every recorded range, and the pending one, starts after a `[` read at depth zero. */
  lemma {:induction false} ScanOpensAtTop(t: string, n: nat)
    requires n <= |t|
    ensures forall k :: 0 <= k < |Scan(t, n).spans| ==> OpensAtTop(t, Scan(t, n).spans[k].start)
    ensures Scan(t, n).depth > 0 ==> OpensAtTop(t, Scan(t, n).start)
  {
    if n > 0 {
      var i := n - 1;
      ScanOpensAtTop(t, i);
      ScanKeepsInv(t, i);
      DepthIsNet(t, i);
      var st := Scan(t, i);
      if t[i] == '[' && st.depth == 0 {
        assert OpensAtTop(t, i + 1);
      } else if t[i] == ']' && st.depth == 1 {
        assert OpensAtTop(t, st.start);
      }
    }
  }

  /**
   * Inside a pair opened at depth zero just before `c` whose prefixes never
   * close more than they open, the scan keeps the start `c`, counts the
   * depth from there and records nothing.
   */
  lemma {:induction false} InsidePair(t: string, c: nat, b: nat, j: nat)
    requires 0 < c <= j <= b < |t| && t[c - 1] == '[' && Net(t, 0, c - 1) == 0
    requires forall m :: c <= m <= b ==> Net(t, c, m) >= 0
    ensures Scan(t, j) == ScanState(1 + Net(t, c, j), c, Scan(t, c - 1).spans)
    decreases j
  {
    if j == c {
      DepthIsNet(t, c - 1);
    } else {
      InsidePair(t, c, b, j - 1);
    }
  }

  /** A recorded range follows a `[` read at depth zero and ends at the `]` that closes it. */
  lemma RecordedPair(t: string, a: nat, b: nat)
    requires a < b < |t| && Span(a + 1, b) in ContentSpans(t)
    ensures t[a] == '[' && t[b] == ']' && Net(t, 0, a) == 0 && Balanced(t, a + 1, b)
  {
    var k :| 0 <= k < |ContentSpans(t)| && ContentSpans(t)[k] == Span(a + 1, b);
    ContentSpansEnclosed(t);
    ScanOpensAtTop(t, |t|);
    assert OpensAtTop(t, a + 1);
  }

  /** A well-nested pair opened at depth zero is recorded. */
  lemma PairRecorded(t: string, a: nat, b: nat)
    requires a < b < |t| && t[a] == '[' && t[b] == ']' && Net(t, 0, a) == 0 && Balanced(t, a + 1, b)
    ensures Span(a + 1, b) in ContentSpans(t)
  {
    InsidePair(t, a + 1, b, b);
    assert Scan(t, b + 1).spans == Scan(t, a).spans + [Span(a + 1, b)];
    SpansGrow(t, b + 1, |t|);
    assert Scan(t, b + 1).spans[|Scan(t, a).spans|] == Span(a + 1, b);
  }

  /**
   * The ranges recorded are exactly the top-level bracket pairs: a range
   * `(a + 1, b)` is recorded precisely when `t[a]` is a `[` read at depth
   * zero, `t[b]` is a `]` and the text between them is well nested.
   */
  lemma ContentSpansIff(t: string, a: nat, b: nat)
    requires a < b < |t|
    ensures Span(a + 1, b) in ContentSpans(t) <==>
              t[a] == '[' && t[b] == ']' && Net(t, 0, a) == 0 && Balanced(t, a + 1, b)
  {
    if Span(a + 1, b) in ContentSpans(t) {
      RecordedPair(t, a, b);
    }
    if t[a] == '[' && t[b] == ']' && Net(t, 0, a) == 0 && Balanced(t, a + 1, b) {
      PairRecorded(t, a, b);
    }
  }
}
