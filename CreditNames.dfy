/**
 * `look_behind` of comics_net/analyzer.py: the name written before a
 * bracket, that is the text after the last `;` that comes before it,
 * stripped of whitespace.
 */
module CreditNames {
  import opened PyText

  /**
   * The index just after the last `;` of `t`, or 0 when `t` has none: where
   * the last zero-width match of `(?<=(;))` sits.
   */
  function AfterLast(t: string): (k: nat)
    ensures k <= |t| && (k == 0 || t[k - 1] == ';')
    ensures forall j :: k <= j < |t| ==> t[j] != ';'
  {
    if t == [] then 0
    else if t[|t| - 1] == ';' then |t|
    else AfterLast(t[..|t| - 1])
  }

  /** The two properties of `AfterLast` single it out. */
  lemma {:induction false} AfterLastIs(t: string, k: nat)
    requires k <= |t| && (k == 0 || t[k - 1] == ';')
    requires forall j :: k <= j < |t| ==> t[j] != ';'
    ensures AfterLast(t) == k
  {
    if k < |t| {
      var u := t[..|t| - 1];
      assert forall j :: k <= j < |u| ==> u[j] == t[j];
      AfterLastIs(u, k);
    }
  }

  /**
   * `look_behind(s, end_idx)`: `span = s[:end_idx - 1]`, then
   * `span[start:end_idx].strip()` from just after its last `;`.
   */
  function LookBehind(s: string, endIdx: int): (r: string)
  {
    var span := PySlice(s, 0, endIdx - 1);
    Strip(PySlice(span, AfterLast(span), endIdx))
  }

  /** The name never holds a `;` and never starts or ends with whitespace. */
  lemma LookBehindShape(s: string, endIdx: int)
    ensures forall i :: 0 <= i < |LookBehind(s, endIdx)| ==> LookBehind(s, endIdx)[i] != ';'
    ensures var r := LookBehind(s, endIdx); r == [] || (!IsSpace(r[0]) && !IsSpace(r[|r| - 1]))
  {
    var span := PySlice(s, 0, endIdx - 1);
    var k := AfterLast(span);
    var tail := PySlice(span, k, endIdx);
    assert forall i :: 0 <= i < |tail| ==> tail[i] != ';' by {
      var lo, hi := PyIndex(|span|, k), PyIndex(|span|, endIdx);
      if lo < hi {
        assert forall i :: 0 <= i < |tail| ==> tail[i] == span[lo + i];
      }
    }
    var r := Strip(tail);
    var a := SkipSpace(tail, 0);
    assert forall i :: 0 <= i < |r| ==> r[i] == tail[a + i];
  }

  /**
   * For an index at the start of a bracket's content, as the parser passes
   * it, the name is the stripped text between the last `;` before the
   * bracket and the bracket itself.
   */
  lemma LookBehindBefore(s: string, endIdx: int)
    requires 1 <= endIdx <= |s| + 1
    ensures var span := s[..endIdx - 1];
            LookBehind(s, endIdx) == Strip(span[AfterLast(span)..])
  {
    var span := s[..endIdx - 1];
    assert PySlice(s, 0, endIdx - 1) == span;
    var k := AfterLast(span);
    if k < |span| {
      assert PySlice(span, k, endIdx) == span[k..];
    } else {
      assert PySlice(span, k, endIdx) == [] == span[k..];
    }
  }

  /** `strip()` of a text that starts with whitespace up to `a` and ends without any. */
  lemma StripLeading(s: string, k: nat, a: nat)
    requires k <= a < |s| && !IsSpace(s[a]) && !IsSpace(s[|s| - 1])
    requires forall j :: k <= j < a ==> IsSpace(s[j])
    ensures Strip(s[k..]) == s[a..]
  {
    var t := s[k..];
    assert t[a - k] == s[a] && t[|t| - 1] == s[|s| - 1];
    assert forall j :: 0 <= j < a - k ==> t[j] == s[k + j];
    assert SkipSpace(t, 0) == a - k;
    assert t[a - k..] == s[a..];
  }

  /** For the whole string, the name is the stripped text after its last `;`. */
  lemma LookBehindWhole(s: string)
    ensures LookBehind(s, |s| + 1) == Strip(s[AfterLast(s)..])
  {
    LookBehindBefore(s, |s| + 1);
    var span := s[..|s| + 1 - 1];
    assert span == s;
    assert Strip(span[AfterLast(span)..]) == Strip(s[AfterLast(s)..]);
  }

  /**
   * A name that follows the last `;` after some whitespace and does not end
   * in whitespace is what `look_behind` returns for the whole string.
   */
  lemma LookBehindLast(s: string, k: nat, a: nat)
    requires 0 < k <= a < |s| && s[k - 1] == ';' && !IsSpace(s[a]) && !IsSpace(s[|s| - 1])
    requires forall j :: k <= j < a ==> IsSpace(s[j])
    requires forall j :: k <= j < |s| ==> s[j] != ';'
    ensures LookBehind(s, |s| + 1) == s[a..]
  {
    LookBehindWhole(s);
    AfterLastIs(s, k);
    StripLeading(s, k, a);
  }

  /** The test case: the name after the last `;` of a list of names. */
  lemma ExampleLookBehind(s: string)
    requires s == "Superman; Batman; Wonder Woman"
    ensures LookBehind(s, |s| + 1) == "Wonder Woman"
  {
    assert s[18..] == "Wonder Woman";
    assert s[16] == ';' && s[17] == ' ' && s[18] == 'W' && s[|s| - 1] == 'n';
    LookBehindLast(s, 17, 18);
  }
}
