/**
 * Python's `str()` of the values the credit parser builds: strings, lists
 * and dicts with string keys, rendered as `repr` renders them.
 */
module PyRepr {
  /** A string, a list, or a dict whose keys are strings, in insertion order. */
  datatype Value = Str(s: string) | List(elems: seq<Value>) | Dict(entries: seq<(string, Value)>)

  /** The lower-case hexadecimal digit of `d`. */
  function HexDigit(d: nat): (c: char)
    requires d < 16
    ensures '0' <= c <= '9' || 'a' <= c <= 'f'
  {
    if d < 10 then (48 + d) as char else (87 + d) as char
  }

  /** Characters below U+0100 that `repr` writes as `\xhh`: the control characters and the two non-printables of Latin-1. */
  predicate NeedsHex(c: char)
  {
    c as int < 0x20 || 0x7f <= c as int <= 0xa0 || c as int == 0xad
  }

  /** `repr` quotes with `"` only when the text has a `'` and no `"`. */
  function QuoteOf(s: string): (q: char)
    ensures q == '"' <==> '\'' in s && '"' !in s
    ensures q == '"' || q == '\''
  {
    if '\'' in s && '"' !in s then '"' else '\''
  }

  /** A character that `repr` writes as itself inside quotes `q`. */
  predicate Verbatim(c: char, q: char)
  {
    c != q && c != '\\' && c != '\t' && c != '\n' && c != '\r' && !NeedsHex(c)
  }

  /** How `repr` writes one character inside quotes `q`. */
  function EscapeChar(c: char, q: char): (r: string)
    ensures Verbatim(c, q) <==> r == [c]
    ensures |r| >= 1 && (|r| == 1 <==> Verbatim(c, q))
  {
    if c == q || c == '\\' then ['\\', c]
    else if c == '\t' then "\\t"
    else if c == '\n' then "\\n"
    else if c == '\r' then "\\r"
    else if NeedsHex(c) then ['\\', 'x', HexDigit(c as int / 16), HexDigit(c as int % 16)]
    else [c]
  }

  /** The body of a string's `repr`. */
  function Escape(s: string, q: char): (r: string)
    ensures |r| >= |s|
  {
    if s == [] then [] else EscapeChar(s[0], q) + Escape(s[1..], q)
  }

  /** `repr(s)` of a string. */
  function ReprStr(s: string): (r: string)
    ensures |r| >= 2 && r[0] == QuoteOf(s) && r[|r| - 1] == QuoteOf(s)
  {
    var q := QuoteOf(s);
    [q] + Escape(s, q) + [q]
  }

  /** `str(v)`, which for lists and dicts is `repr` of every element joined with `", "`. */
  function Repr(v: Value): (r: string)
    ensures |r| >= 2
    decreases v, 1
  {
    match v
    case Str(s) => ReprStr(s)
    case List(es) => "[" + ReprElems(es) + "]"
    case Dict(es) => "{" + ReprEntries(es) + "}"
  }

  function ReprElems(es: seq<Value>): string
    decreases es, 0
  {
    if es == [] then ""
    else if |es| == 1 then Repr(es[0])
    else Repr(es[0]) + ", " + ReprElems(es[1..])
  }

  function ReprEntries(es: seq<(string, Value)>): string
    decreases es, 0
  {
    if es == [] then ""
    else
      var (k, v) := es[0];
      assert v < es[0];
      if |es| == 1 then ReprStr(k) + ": " + Repr(v)
      else ReprStr(k) + ": " + Repr(v) + ", " + ReprEntries(es[1..])
  }

  // ---------------------------------------------------------------- properties

  /** The body of a `repr` is the text itself exactly when no character of it needs an escape. */
  lemma {:induction false} EscapeIdentity(s: string, q: char)
    ensures Escape(s, q) == s <==> forall i :: 0 <= i < |s| ==> Verbatim(s[i], q)
  {
    if s != [] {
      EscapeIdentity(s[1..], q);
      var head := EscapeChar(s[0], q);
      if Verbatim(s[0], q) {
        assert s == [s[0]] + s[1..];
        if Escape(s[1..], q) != s[1..] {
          assert Escape(s, q)[1..] == Escape(s[1..], q);
        }
      } else {
        assert |Escape(s, q)| == |head| + |Escape(s[1..], q)| > |s|;
      }
    }
  }

  /** A string without quotes, backslashes or unprintable characters is written between single quotes as it is. */
  lemma ReprPlainStr(s: string)
    requires forall i :: 0 <= i < |s| ==> Verbatim(s[i], '\'')
    ensures ReprStr(s) == "'" + s + "'"
  {
    assert forall i :: 0 <= i < |s| ==> s[i] != '\'';
    EscapeIdentity(s, '\'');
  }

  /** A string holding a `'` but no `"` is written between double quotes, its `'` as it is. */
  lemma ExampleReprApostrophe(s: string)
    requires s == "O'Neil"
    ensures ReprStr(s) == "\"O'Neil\""
  {
    assert s[1] == '\'';
    assert QuoteOf(s) == '"';
    EscapeIdentity(s, '"');
  }
}
