/**
 * The few Python `str` operations the credit parser and the title helpers are
 * built from, with the semantics CPython gives them: `strip()`, `in`,
 * `find`, `count` of one character, `replace`, `split(sep)`, `join`,
 * `lower()` (on ASCII letters) and slicing with negative indices.
 */
module PyText {

  datatype Option<T> = None | Some(value: T)

  /** `c.isspace()`: the characters CPython treats as whitespace. */
  predicate IsSpace(c: char)
  {
    || ('\t' <= c <= '\r')
    || ('\U{1c}' <= c <= '\U{1f}')
    || c == ' ' || c == '\U{85}' || c == '\U{a0}' || c == '\U{1680}'
    || ('\U{2000}' <= c <= '\U{200a}')
    || c == '\U{2028}' || c == '\U{2029}' || c == '\U{202f}' || c == '\U{205f}' || c == '\U{3000}'
  }

  /** `s[k:k+|sub|] == sub` with the slice inside `s`. */
  predicate IsOccurrence(s: string, sub: string, k: int)
  {
    0 <= k && k + |sub| <= |s| && s[k..k + |sub|] == sub
  }

  /** `s` appears somewhere inside `t`. */
  ghost predicate IsInfix(s: string, t: string)
  {
    exists k :: IsOccurrence(t, s, k)
  }

  // ---------------------------------------------------------------- strip

  /** The first index at or after `i` that does not hold whitespace (or `|s|`). */
  function SkipSpace(s: string, i: nat): (r: nat)
    requires i <= |s|
    ensures i <= r <= |s| && (r < |s| ==> !IsSpace(s[r]))
    ensures forall k :: i <= k < r ==> IsSpace(s[k])
    decreases |s| - i
  {
    if i < |s| && IsSpace(s[i]) then SkipSpace(s, i + 1) else i
  }

  /** The end of `s[..j]` once its trailing whitespace is dropped. */
  function SkipSpaceBack(s: string, j: nat): (r: nat)
    requires j <= |s|
    ensures r <= j && (r > 0 ==> !IsSpace(s[r - 1]))
    ensures forall k :: r <= k < j ==> IsSpace(s[k])
  {
    if j > 0 && IsSpace(s[j - 1]) then SkipSpaceBack(s, j - 1) else j
  }

  /** `s.strip()`: drops the leading and trailing whitespace and nothing else. */
  function Strip(s: string): (r: string)
    ensures r == [] || (!IsSpace(r[0]) && !IsSpace(r[|r| - 1]))
    ensures IsOccurrence(s, r, SkipSpace(s, 0))
  {
    var a, b := SkipSpace(s, 0), SkipSpaceBack(s, |s|);
    if a < b then s[a..b] else []
  }

  /** A text that neither starts nor ends with whitespace is its own `strip()`. */
  lemma StripTrimmed(s: string)
    requires |s| > 0 && !IsSpace(s[0]) && !IsSpace(s[|s| - 1])
    ensures Strip(s) == s
  {
    assert SkipSpace(s, 0) == 0;
    assert SkipSpaceBack(s, |s|) == |s|;
    assert s[0..|s|] == s;
  }

  /** Every character `strip()` keeps comes from the text. */
  lemma StripChars(s: string)
    ensures forall c :: c in Strip(s) ==> c in s
  {
    var i := SkipSpace(s, 0);
    var r := Strip(s);
    forall c | c in r ensures c in s {
      var k :| 0 <= k < |r| && r[k] == c;
      assert s[i + k] == r[k];
    }
  }

  /** A string that starts and ends with non-whitespace is its own `strip()`. */
  lemma StripStripped(s: string)
    requires s == [] || (!IsSpace(s[0]) && !IsSpace(s[|s| - 1]))
    ensures Strip(s) == s
  {
  }

  // ---------------------------------------------------------------- find / in

  function FindFrom(s: string, sub: string, i: nat): (r: Option<nat>)
    requires i <= |s|
    ensures r.Some? ==> i <= r.value && IsOccurrence(s, sub, r.value)
    ensures r.Some? ==> forall j :: i <= j < r.value ==> !IsOccurrence(s, sub, j)
    ensures r.None? ==> forall j :: i <= j ==> !IsOccurrence(s, sub, j)
    decreases |s| - i
  {
    if i + |sub| > |s| then None
    else if s[i..i + |sub|] == sub then Some(i)
    else if i == |s| then None
    else FindFrom(s, sub, i + 1)
  }

  /** `s.find(sub)`, with -1 as `None`: the leftmost occurrence. */
  function IndexOf(s: string, sub: string): (r: Option<nat>)
    ensures r.Some? ==> IsOccurrence(s, sub, r.value)
    ensures r.Some? ==> forall j :: 0 <= j < r.value ==> !IsOccurrence(s, sub, j)
    ensures r.None? ==> forall j :: !IsOccurrence(s, sub, j)
  {
    FindFrom(s, sub, 0)
  }

  /** `s[i + j..i + |p|] == p[j..]`, compared character by character. */
  predicate AgreesFrom(s: string, i: nat, p: string, j: nat)
    requires i + |p| <= |s| && j <= |p|
    decreases |p| - j
  {
    j == |p| || (s[i + j] == p[j] && AgreesFrom(s, i, p, j + 1))
  }

  /** `p` occurs in `s` at index `i`. */
  predicate OccursAt(s: string, p: string, i: nat)
  {
    i + |p| <= |s| && AgreesFrom(s, i, p, 0)
  }

  lemma {:induction false} AgreesFromIff(s: string, i: nat, p: string, j: nat)
    requires i + |p| <= |s| && j <= |p|
    ensures AgreesFrom(s, i, p, j) <==> forall k :: j <= k < |p| ==> s[i + k] == p[k]
    decreases |p| - j
  {
    if j < |p| {
      AgreesFromIff(s, i, p, j + 1);
    }
  }

  /** The character-by-character test is the slice comparison. */
  lemma OccursAtIff(s: string, p: string, i: nat)
    ensures OccursAt(s, p, i) <==> IsOccurrence(s, p, i)
  {
    if i + |p| <= |s| {
      AgreesFromIff(s, i, p, 0);
      var w := s[i..i + |p|];
      assert forall k :: 0 <= k < |p| ==> w[k] == s[i + k];
    }
  }

  /** `sub in s`: some occurrence of `sub` starts at or after `i`. */
  predicate ContainsFrom(s: string, sub: string, i: nat)
    decreases |s| - i
  {
    i + |sub| <= |s| && (OccursAt(s, sub, i) || (i < |s| && ContainsFrom(s, sub, i + 1)))
  }

  /** `sub in s`. */
  predicate Contains(s: string, sub: string)
  {
    ContainsFrom(s, sub, 0)
  }

  lemma {:induction false} ContainsFromAt(s: string, sub: string, i: nat, k: int)
    requires i <= k && IsOccurrence(s, sub, k)
    ensures ContainsFrom(s, sub, i)
    decreases k - i
  {
    if i < k {
      ContainsFromAt(s, sub, i + 1, k);
    } else {
      OccursAtIff(s, sub, i);
    }
  }

  lemma {:induction false} ContainsFromWitness(s: string, sub: string, i: nat) returns (k: nat)
    requires ContainsFrom(s, sub, i)
    ensures i <= k && IsOccurrence(s, sub, k)
    decreases |s| - i
  {
    OccursAtIff(s, sub, i);
    if OccursAt(s, sub, i) {
      k := i;
    } else {
      k := ContainsFromWitness(s, sub, i + 1);
    }
  }

  lemma ContainsAt(s: string, sub: string, k: int)
    requires IsOccurrence(s, sub, k)
    ensures Contains(s, sub)
  {
    ContainsFromAt(s, sub, 0, k);
  }

  /** An occurrence of `sub` in `s`, when `sub in s`. */
  lemma ContainsWitness(s: string, sub: string) returns (k: nat)
    requires Contains(s, sub)
    ensures IsOccurrence(s, sub, k)
  {
    k := ContainsFromWitness(s, sub, 0);
  }

  /** `sub in s` exactly when `s.find(sub)` does not return -1. */
  lemma ContainsIsFound(s: string, sub: string)
    ensures Contains(s, sub) <==> IndexOf(s, sub).Some?
  {
    if Contains(s, sub) {
      var k := ContainsWitness(s, sub);
    }
    if IndexOf(s, sub).Some? {
      ContainsAt(s, sub, IndexOf(s, sub).value);
    }
  }

  lemma SliceOfSlice(t: string, a: nat, b: nat, c: nat, d: nat)
    requires a <= b <= |t| && c <= d <= b - a
    ensures t[a..b][c..d] == t[a + c..a + d]
  {
    forall x | 0 <= x < d - c
      ensures t[a..b][c..d][x] == t[a + c..a + d][x]
    {
    }
  }

  /** `in` is monotone in the text: a substring of a substring is a substring. */
  lemma ContainsInfix(s: string, t: string, sub: string, k: nat)
    requires IsOccurrence(t, s, k) && Contains(s, sub)
    ensures Contains(t, sub)
  {
    var j := ContainsWitness(s, sub);
    SliceOfSlice(t, k, k + |s|, j, j + |sub|);
    ContainsAt(t, sub, k + j);
  }

  lemma ContainsChar(s: string, c: char)
    ensures Contains(s, [c]) <==> c in s
  {
    if c in s {
      var k :| 0 <= k < |s| && s[k] == c;
      assert s[k..k + 1] == [c];
      ContainsAt(s, [c], k);
    }
    if Contains(s, [c]) {
      var k := ContainsWitness(s, [c]);
      assert s[k] == s[k..k + 1][0];
    }
  }

  // ---------------------------------------------------------------- count

  /** `s.count(c)` for a one-character argument. */
  function CountChar(s: string, c: char): (n: nat)
    ensures n <= |s|
  {
    if s == [] then 0 else (if s[0] == c then 1 else 0) + CountChar(s[1..], c)
  }

  /** The count is zero exactly when the character does not occur. */
  lemma {:induction false} CountCharAbsent(s: string, c: char)
    ensures CountChar(s, c) == 0 <==> c !in s
  {
    if s != [] {
      CountCharAbsent(s[1..], c);
      assert s == [s[0]] + s[1..];
    }
  }

  lemma {:induction false} CountCharConcat(a: string, b: string, c: char)
    ensures CountChar(a + b, c) == CountChar(a, c) + CountChar(b, c)
  {
    if a != [] {
      assert (a + b)[1..] == a[1..] + b;
      CountCharConcat(a[1..], b, c);
    } else {
      assert a + b == b;
    }
  }

  /** Two different positions holding `c` make a count of at least two. */
  lemma CountCharTwo(s: string, c: char, a: int, b: int)
    ensures 0 <= a < b < |s| && s[a] == c && s[b] == c ==> CountChar(s, c) >= 2
  {
    if 0 <= a < b < |s| && s[a] == c && s[b] == c {
      assert s == s[..b] + s[b..];
      CountCharConcat(s[..b], s[b..], c);
      assert s[..b][a] == c;
      assert s[b..][0] == c;
      CountCharAbsent(s[..b], c);
      CountCharAbsent(s[b..], c);
    }
  }

  /** A character found at exactly one position is counted once. */
  lemma {:induction false} CountCharOne(s: string, c: char, j: nat)
    requires j < |s| && s[j] == c
    requires forall k :: 0 <= k < |s| && k != j ==> s[k] != c
    ensures CountChar(s, c) == 1
    decreases |s|
  {
    if j == 0 {
      CountCharNone(s[1..], c);
    } else {
      CountCharOne(s[1..], c, j - 1);
    }
  }

  /** A character found nowhere is counted zero times. */
  lemma {:induction false} CountCharNone(s: string, c: char)
    requires forall k :: 0 <= k < |s| ==> s[k] != c
    ensures CountChar(s, c) == 0
    decreases |s|
  {
    if s != [] {
      CountCharNone(s[1..], c);
    }
  }

  // ---------------------------------------------------------------- replace

  /**
   * `s.replace(pat, rep)`: scans left to right and replaces each
   * non-overlapping occurrence of `pat`, resuming after it.
   */
  function Replace(s: string, pat: string, rep: string): string
    requires |pat| > 0
    decreases |s|
  {
    if |s| < |pat| then s
    else if OccursAt(s, pat, 0) then rep + Replace(s[|pat|..], pat, rep)
    else [s[0]] + Replace(s[1..], pat, rep)
  }

  /** With a replacement as long as the pattern, `replace` keeps the length. */
  lemma {:induction false} ReplaceSameLength(s: string, pat: string, rep: string)
    requires |pat| > 0 && |rep| == |pat|
    ensures |Replace(s, pat, rep)| == |s|
    decreases |s|
  {
    if |s| < |pat| {
    } else if s[..|pat|] == pat {
      ReplaceStep(s, pat, rep);
      ReplaceSameLength(s[|pat|..], pat, rep);
    } else {
      ReplaceStep(s, pat, rep);
      ReplaceSameLength(s[1..], pat, rep);
    }
  }

  /**
   * With a replacement as long as the pattern, a position that `replace`
   * changes lies inside an occurrence `p` of the pattern and takes the
   * replacement's character at that offset.
   */
  lemma {:induction false} ReplaceChanged(s: string, pat: string, rep: string, i: nat) returns (p: nat)
    requires |pat| > 0 && |rep| == |pat| && i < |s|
    requires |Replace(s, pat, rep)| == |s| && Replace(s, pat, rep)[i] != s[i]
    ensures IsOccurrence(s, pat, p) && p <= i < p + |pat|
    ensures Replace(s, pat, rep)[i] == rep[i - p]
    decreases |s|
  {
    var r := Replace(s, pat, rep);
    var front := s[..|pat|] == pat;
    var head, d := ReplaceUnfold(s, pat, rep);
    var rest := s[d..];
    var rr := Replace(rest, pat, rep);
    ReplaceSameLength(rest, pat, rep);
    if front && i < |pat| {
      assert s[0..|pat|] == s[..|pat|];
      p := 0;
    } else {
      assert rr[i - d] == r[i] && rest[i - d] == s[i];
      var q := ReplaceChanged(rest, pat, rep, i - d);
      OccurrenceShift(s, d, pat, q);
      p := q + d;
    }
  }

  /** `replace` as the part it writes for the front of `s`, then the rest after `d` characters. */
  lemma ReplaceUnfold(s: string, pat: string, rep: string) returns (head: string, d: nat)
    requires |pat| > 0 && |s| >= |pat|
    ensures s[..|pat|] == pat ==> head == rep && d == |pat|
    ensures s[..|pat|] != pat ==> head == [s[0]] && d == 1
    ensures Replace(s, pat, rep) == head + Replace(s[d..], pat, rep)
  {
    ReplaceStep(s, pat, rep);
    if s[..|pat|] == pat {
      head, d := rep, |pat|;
    } else {
      head, d := [s[0]], 1;
    }
  }

  /** One step of `replace`: either an occurrence at the front or one character kept. */
  lemma ReplaceStep(s: string, pat: string, rep: string)
    requires |pat| > 0 && |s| >= |pat|
    ensures s[..|pat|] == pat ==> Replace(s, pat, rep) == rep + Replace(s[|pat|..], pat, rep)
    ensures s[..|pat|] != pat ==> Replace(s, pat, rep) == [s[0]] + Replace(s[1..], pat, rep)
  {
    OccursAtIff(s, pat, 0);
    assert s[..|pat|] == s[0..|pat|];
  }

  lemma OccurrenceShift(s: string, d: nat, pat: string, q: int)
    requires d <= |s| && IsOccurrence(s[d..], pat, q)
    ensures IsOccurrence(s, pat, q + d)
  {
    assert s[q + d..q + d + |pat|] == s[d..][q..q + |pat|];
  }

  /** Replacing one character: what is left is either an untouched other character or comes from `rep`. */
  lemma {:induction false} ReplaceCharElems(s: string, c: char, rep: string)
    ensures forall x :: x in Replace(s, [c], rep) ==> (x in s && x != c) || x in rep
    decreases |s|
  {
    if |s| >= 1 {
      ReplaceStep(s, [c], rep);
      ReplaceCharElems(s[1..], c, rep);
      if s[..1] == [c] {
        assert s[1..] == s[|[c]|..];
      } else {
        assert s[0] != c by { assert s[..1] == [s[0]]; }
      }
    }
  }

  /** Replacing one character distributes over concatenation. */
  lemma {:induction false} ReplaceCharConcat(a: string, b: string, c: char, rep: string)
    ensures Replace(a + b, [c], rep) == Replace(a, [c], rep) + Replace(b, [c], rep)
    decreases |a|
  {
    if a == [] {
      assert a + b == b;
    } else {
      assert (a + b)[..1] == a[..1];
      assert (a + b)[1..] == a[1..] + b;
      ReplaceStep(a + b, [c], rep);
      ReplaceStep(a, [c], rep);
      ReplaceCharConcat(a[1..], b, c, rep);
    }
  }

  /** A character that does not occur is left alone by `replace`. */
  lemma {:induction false} ReplaceAbsentChar(s: string, c: char, rep: string)
    requires c !in s
    ensures Replace(s, [c], rep) == s
    decreases |s|
  {
    if |s| >= 1 {
      assert s[..1] == [s[0]];
      ReplaceAbsentChar(s[1..], c, rep);
    }
  }

  /** Replacing one character by another changes exactly the positions that held it. */
  lemma {:induction false} ReplaceCharIndex(s: string, c: char, d: char)
    ensures |Replace(s, [c], [d])| == |s|
    ensures forall j :: 0 <= j < |s| ==> Replace(s, [c], [d])[j] == if s[j] == c then d else s[j]
    decreases |s|
  {
    if |s| >= 1 {
      assert s[..1] == [s[0]];
      ReplaceStep(s, [c], [d]);
      ReplaceCharIndex(s[1..], c, d);
    }
  }

  /** No proper suffix of `w` is also a prefix of it, so two occurrences of `w` never overlap. */
  predicate BorderFree(w: string)
  {
    forall d :: 0 < d < |w| ==> NotBorder(w, d)
  }

  /** The suffix from `d` on is not also a prefix. */
  predicate NotBorder(w: string, d: nat)
    requires d <= |w|
  {
    w[d..] != w[..|w| - d]
  }

  /** Two occurrences closer than the pattern's length make a border of the pattern. */
  lemma OverlapBorder(s: string, pat: string, p: nat, q: nat)
    requires IsOccurrence(s, pat, p) && IsOccurrence(s, pat, q) && p < q
    ensures q >= p + |pat| || !NotBorder(pat, q - p)
  {
    if q < p + |pat| {
      assert pat[q - p..] == s[q..p + |pat|];
      assert pat[..|pat| - (q - p)] == s[q..p + |pat|];
    }
  }

  /** Swapping one character for another that the text `sub` lacks cannot make `sub` appear. */
  lemma ReplaceCharKeepsAbsent(x: string, c: char, d: char, sub: string)
    requires d !in sub && !Contains(x, sub)
    ensures !Contains(Replace(x, [c], [d]), sub)
  {
    var r := Replace(x, [c], [d]);
    if Contains(r, sub) {
      var p := ContainsWitness(r, sub);
      ReplaceCharIndex(x, c, d);
      forall i | 0 <= i < |sub| ensures x[p + i] == sub[i] {
        assert r[p + i] == sub[i];
      }
      assert x[p..p + |sub|] == sub;
      ContainsAt(x, sub, p);
    }
  }

  /**
   * An occurrence of a border-free pattern is always replaced: with a
   * replacement of the same length, the result holds `rep` at its place.
   */
  lemma {:induction false} ReplaceCovers(s: string, pat: string, rep: string, p: nat)
    requires |pat| > 0 && |rep| == |pat| && BorderFree(pat) && IsOccurrence(s, pat, p)
    ensures |Replace(s, pat, rep)| == |s|
    ensures Replace(s, pat, rep)[p..p + |pat|] == rep
    decreases |s|
  {
    ReplaceSameLength(s, pat, rep);
    var front := s[..|pat|] == pat;
    var head, d := ReplaceUnfold(s, pat, rep);
    var rest := s[d..];
    var rr := Replace(rest, pat, rep);
    ReplaceSameLength(rest, pat, rep);
    if p == 0 {
      assert s[0..|pat|] == s[..|pat|];
      ConcatSlice(head, rr, 0, |pat|);
    } else {
      if front {
        NoOverlap(s, pat, 0, p);
      }
      OccurrenceUnshift(s, d, pat, p);
      ReplaceCovers(rest, pat, rep, p - d);
      ConcatSlice(head, rr, p, p + |pat|);
    }
  }

  /** An occurrence past the first `d` characters is one of `s[d..]`. */
  lemma OccurrenceUnshift(s: string, d: nat, pat: string, p: nat)
    requires d <= p && IsOccurrence(s, pat, p)
    ensures IsOccurrence(s[d..], pat, p - d)
  {
    assert s[d..][p - d..p - d + |pat|] == s[p..p + |pat|];
  }

  /** A slice of a concatenation that lies within one side. */
  lemma ConcatSlice(a: string, b: string, i: nat, j: nat)
    requires i <= j <= |a| + |b|
    ensures j <= |a| ==> (a + b)[i..j] == a[i..j]
    ensures |a| <= i ==> (a + b)[i..j] == b[i - |a|..j - |a|]
  {
  }

  /** Occurrences of a border-free pattern do not overlap. */
  lemma NoOverlap(s: string, pat: string, p: nat, q: nat)
    requires BorderFree(pat) && IsOccurrence(s, pat, p) && IsOccurrence(s, pat, q) && p < q
    ensures q >= p + |pat|
  {
    OverlapBorder(s, pat, p, q);
  }

  // ---------------------------------------------------------------- split / join

  /** `s.split(sep)` for a non-empty separator (Python raises on an empty one). */
  function Split(s: string, sep: string): (r: seq<string>)
    requires |sep| > 0
    ensures |r| >= 1
    decreases |s|
  {
    match IndexOf(s, sep)
    case None => [s]
    case Some(k) => [s[..k]] + Split(s[k + |sep|..], sep)
  }

  /** `sep.join(pieces)`. */
  function Join(pieces: seq<string>, sep: string): string
  {
    if |pieces| == 0 then []
    else if |pieces| == 1 then pieces[0]
    else pieces[0] + sep + Join(pieces[1..], sep)
  }

  /** Splitting and joining again with the same separator gives the text back. */
  lemma {:induction false} SplitJoin(s: string, sep: string)
    requires |sep| > 0
    ensures Join(Split(s, sep), sep) == s
    decreases |s|
  {
    var idx := IndexOf(s, sep);
    if idx.Some? {
      var k := idx.value;
      var rest := s[k + |sep|..];
      SplitJoin(rest, sep);
      SplitAt(s, sep, k);
      JoinCons(s[..k], Split(rest, sep), sep);
    }
  }

  /** One step of `split`: the text up to the leftmost separator, then the split of the rest. */
  lemma SplitAt(s: string, sep: string, k: nat)
    requires |sep| > 0 && IndexOf(s, sep) == Some(k)
    ensures Split(s, sep) == [s[..k]] + Split(s[k + |sep|..], sep)
    ensures s == s[..k] + sep + s[k + |sep|..]
  {
    assert s == s[..k] + s[k..k + |sep|] + s[k + |sep|..];
  }

  lemma JoinCons(head: string, tail: seq<string>, sep: string)
    requires |tail| >= 1
    ensures Join([head] + tail, sep) == head + sep + Join(tail, sep)
  {
    assert ([head] + tail)[1..] == tail;
  }

  /** No piece of a split holds the separator. */
  lemma {:induction false} SplitPiecesLackSep(s: string, sep: string)
    requires |sep| > 0
    ensures forall x :: x in Split(s, sep) ==> !Contains(x, sep)
    decreases |s|
  {
    var idx := IndexOf(s, sep);
    if idx.Some? {
      var k := idx.value;
      SplitPiecesLackSep(s[k + |sep|..], sep);
      var head := s[..k];
      forall j ensures !IsOccurrence(head, sep, j) {
        if 0 <= j && j + |sep| <= k {
          assert !IsOccurrence(s, sep, j);
          assert head[j..j + |sep|] == s[j..j + |sep|];
        }
      }
      if Contains(head, sep) {
        var j := ContainsWitness(head, sep);
      }
    } else {
      if Contains(s, sep) {
        var j := ContainsWitness(s, sep);
      }
    }
  }

  /** Joining with one more piece at the end adds the separator and that piece. */
  lemma {:induction false} JoinSnoc(xs: seq<string>, x: string, sep: string)
    requires |xs| >= 1
    ensures Join(xs + [x], sep) == Join(xs, sep) + sep + x
    decreases |xs|
  {
    if |xs| == 1 {
      assert (xs + [x])[1..] == [x];
    } else {
      assert (xs + [x])[1..] == xs[1..] + [x];
      JoinSnoc(xs[1..], x, sep);
    }
  }

  /**
   * The last piece of a split is the text after the separator occurrence it
   * was cut at (the whole text when nothing was cut), and no occurrence of
   * the separator starts inside it.
   */
  lemma SplitLast(s: string, sep: string) returns (k: nat)
    requires |sep| > 0
    ensures k <= |s| && Split(s, sep)[|Split(s, sep)| - 1] == s[k..]
    ensures k == 0 || (|sep| <= k && IsOccurrence(s, sep, k - |sep|))
    ensures !Contains(s[k..], sep)
  {
    var ps := Split(s, sep);
    var last := ps[|ps| - 1];
    SplitJoin(s, sep);
    SplitPiecesLackSep(s, sep);
    assert last in ps;
    if |ps| == 1 {
      k := 0;
      assert s[0..] == s;
    } else {
      var init := ps[..|ps| - 1];
      assert ps == init + [last];
      JoinSnoc(init, last, sep);
      var front := Join(init, sep);
      assert s == front + sep + last;
      k := |front| + |sep|;
      assert s[k..] == last;
      assert s[k - |sep|..k] == sep;
    }
  }

  /**
   * The last piece of a split with one character swapped for another that
   * the separator lacks: the swapped text after the last cut, still free of
   * the separator.
   */
  lemma LastPieceSwapped(s: string, sep: string, c: char, d: char) returns (k: nat)
    requires |sep| > 0 && d !in sep
    ensures k <= |s| && (k == 0 || (|sep| <= k && IsOccurrence(s, sep, k - |sep|)))
    ensures !Contains(s[k..], sep)
    ensures var ps := Split(s, sep);
            Replace(ps[|ps| - 1], [c], [d]) == Replace(s[k..], [c], [d])
    ensures var ps := Split(s, sep);
            !Contains(Replace(ps[|ps| - 1], [c], [d]), sep)
  {
    k := SplitLast(s, sep);
    ReplaceCharKeepsAbsent(s[k..], c, d, sep);
  }

  /** Every character of every piece comes from the text. */
  lemma {:induction false} SplitPieceChars(s: string, sep: string)
    requires |sep| > 0
    ensures forall x, c :: x in Split(s, sep) && c in x ==> c in s
    decreases |s|
  {
    match IndexOf(s, sep)
    case None =>
    case Some(k) =>
      var rest := s[k + |sep|..];
      SplitPieceChars(rest, sep);
      forall c | c in rest ensures c in s {
        var i :| 0 <= i < |rest| && rest[i] == c;
        assert s[k + |sep| + i] == c;
      }
      forall c | c in s[..k] ensures c in s {
        var i :| 0 <= i < k && s[..k][i] == c;
        assert s[i] == c;
      }
  }

  /** `list(filter(lambda x: x != "", pieces))`. */
  function NonEmpty(pieces: seq<string>): (r: seq<string>)
    ensures forall x :: x in r ==> x != [] && x in pieces
    ensures forall x :: x in pieces && x != [] ==> x in r
    ensures |r| <= |pieces|
  {
    if pieces == [] then []
    else if pieces[0] == [] then NonEmpty(pieces[1..])
    else [pieces[0]] + NonEmpty(pieces[1..])
  }

  // ---------------------------------------------------------------- lower

  function LowerChar(c: char): char
  {
    if 'A' <= c <= 'Z' then (c as int + 32) as char else c
  }

  /** `s.lower()` on the ASCII letters. */
  function Lower(s: string): (r: string)
    ensures |r| == |s|
    ensures forall i :: 0 <= i < |s| ==> r[i] == LowerChar(s[i])
  {
    seq(|s|, i requires 0 <= i < |s| => LowerChar(s[i]))
  }

  /** Lower-casing twice is lower-casing once. */
  lemma LowerIdempotent(s: string)
    ensures Lower(Lower(s)) == Lower(s)
  {
  }

  // ---------------------------------------------------------------- slicing

  /** How Python normalises a slice bound against a length `n`. */
  function PyIndex(n: nat, k: int): (r: nat)
    ensures r <= n
    ensures 0 <= k <= n ==> r == k
    ensures k < 0 ==> r == if n + k < 0 then 0 else n + k
    ensures k > n ==> r == n
  {
    if k < 0 then (if n + k < 0 then 0 else n + k)
    else if k > n then n
    else k
  }

  /** `s[i:j]`. */
  function PySlice(s: string, i: int, j: int): (r: string)
    ensures |r| <= |s|
  {
    var lo, hi := PyIndex(|s|, i), PyIndex(|s|, j);
    if lo < hi then s[lo..hi] else []
  }

  // ---------------------------------------------------------------- subsequences

  /** `a` can be obtained from `b` by deleting characters. */
  predicate IsSubsequence<T(==)>(a: seq<T>, b: seq<T>)
    decreases |b|
  {
    if a == [] then true
    else if b == [] then false
    else if a[0] == b[0] then IsSubsequence(a[1..], b[1..])
    else IsSubsequence(a, b[1..])
  }

  lemma {:induction false} SubsequenceRefl<T>(a: seq<T>)
    ensures IsSubsequence(a, a)
    decreases |a|
  {
    if a != [] {
      SubsequenceRefl(a[1..]);
    }
  }

  lemma {:induction false} SubsequenceLength<T>(a: seq<T>, b: seq<T>)
    requires IsSubsequence(a, b)
    ensures |a| <= |b|
    decreases |b|
  {
    if a != [] && b != [] {
      if a[0] == b[0] {
        SubsequenceLength(a[1..], b[1..]);
      } else {
        SubsequenceLength(a, b[1..]);
      }
    }
  }

  /** A subsequence of `b` is a subsequence of `b` with anything put in front. */
  lemma {:induction false} SubsequenceCons<T>(a: seq<T>, b: seq<T>, c: T)
    requires IsSubsequence(a, b)
    ensures IsSubsequence(a, [c] + b)
    decreases |a| + |b|
  {
    var cb := [c] + b;
    assert cb[1..] == b;
    if a != [] && a[0] == c {
      assert b != [];
      var bt := b[1..];
      assert [b[0]] + bt == b;
      if a[0] == b[0] {
        SubsequenceCons(a[1..], bt, b[0]);
      } else {
        SubsequenceCons(a, bt, c);
        assert ([c] + bt)[1..] == bt;
        SubsequenceCons(a[1..], bt, b[0]);
      }
    }
  }
}
