/**
 * `convert_character_dict_to_str` of comics_net/analyzer.py: `str()` of the
 * teams dict with the braces and quotes deleted and every comma turned into
 * a semicolon, so that it reads like the credit string it came from.
 */
module DictText {
  import opened PyText
  import opened PyRepr

  /** `.replace("{", "").replace("}", "").replace("'", "").replace(",", ";")`. */
  function Clean(s: string): (r: string)
  {
    Replace(Replace(Replace(Replace(s, "{", ""), "}", ""), "'", ""), ",", ";")
  }

  /** The value of the first entry with key `k`: `d[k]`. */
  function Lookup(es: seq<(string, Value)>, k: string): (r: Option<Value>)
    ensures r.Some? <==> exists i :: 0 <= i < |es| && es[i].0 == k
  {
    if es == [] then None
    else if es[0].0 == k then Some(es[0].1)
    else Lookup(es[1..], k)
  }

  /**
   * `convert_character_dict_to_str(character_dict)`; `None` where
   * `character_dict["Teams"]` raises, because the argument is not a dict or
   * has no `"Teams"` key.  `str()` of a string is the string itself, without
   * the quotes `repr` adds; any other value is written as `repr` writes it.
   */
  function ConvertCharacterDictToStr(characterDict: Value): (r: Option<string>)
    ensures r.Some? <==> characterDict.Dict? && Lookup(characterDict.entries, "Teams").Some?
  {
    match characterDict
    case Dict(es) =>
      (match Lookup(es, "Teams")
       case Some(teams) => Some(Clean(if teams.Str? then teams.s else Repr(teams)))
       case None => None)
    case _ => None
  }

  /** A `"Teams"` value that is a string is cleaned as it stands, with no quotes around it. */
  lemma ConvertStrTeams(d: Value, s: string)
    requires d.Dict? && Lookup(d.entries, "Teams") == Some(Str(s))
    ensures ConvertCharacterDictToStr(d) == Some(Clean(s))
  {
  }

  /** A string `"Teams"` value whose only quote lies between two plain texts loses the quote. */
  lemma ConvertQuotedName(d: Value, a: string, b: string)
    requires d == Dict([("Teams", Str(a + "'" + b))])
    requires PlainStr(a) && PlainStr(b)
    ensures ConvertCharacterDictToStr(d) == Some(a + b)
  {
    assert d.entries[0].0 == "Teams";
    ConvertStrTeams(d, a + "'" + b);
    CleanDropsQuote(a, b);
  }

  /** `{"Teams": "O'Neil"}` gives `ONeil`: the apostrophe goes, and no quotes appear. */
  lemma ExampleStrTeams(d: Value)
    requires d == Dict([("Teams", Str("O'Neil"))])
    ensures ConvertCharacterDictToStr(d) == Some("ONeil")
  {
    assert "O'Neil" == "O" + "'" + "Neil" && "ONeil" == "O" + "Neil";
    assert PlainStr("O") && PlainStr("Neil");
    ConvertQuotedName(d, "O", "Neil");
  }

  /** A quote between two plain texts is dropped. */
  lemma CleanDropsQuote(a: string, b: string)
    requires PlainStr(a) && PlainStr(b)
    ensures Clean(a + "'" + b) == a + b
  {
    CleanConcat(a + "'", b);
    CleanConcat(a, "'");
    CleanChar('\'');
    CleanPlain(a);
    CleanPlain(b);
  }

  // ---------------------------------------------------------------- the text as a credit string

  /** A character that neither `repr` escapes nor the clean-up touches. */
  predicate PlainChar(c: char)
  {
    Verbatim(c, '\'') && c != '{' && c != '}' && c != ','
  }

  predicate PlainStr(s: string)
  {
    forall i :: 0 <= i < |s| ==> PlainChar(s[i])
  }

  /** Every string in the value, keys included, is plain. */
  predicate Plain(v: Value)
    decreases v, 1
  {
    match v
    case Str(s) => PlainStr(s)
    case List(es) => PlainElems(es)
    case Dict(es) => PlainEntries(es)
  }

  predicate PlainElems(es: seq<Value>)
    decreases es, 0
  {
    es != [] ==> Plain(es[0]) && PlainElems(es[1..])
  }

  predicate PlainEntries(es: seq<(string, Value)>)
    decreases es, 0
  {
    es != [] ==>
      var (k, v) := es[0];
      assert v < es[0];
      PlainStr(k) && Plain(v) && PlainEntries(es[1..])
  }

  /**
   * The credit-string reading of a value: a string as it is, a list as
   * `[a; b]`, a dict as `k: v; k2: v2` without braces.
   */
  function Flat(v: Value): (r: string)
    decreases v, 1
  {
    match v
    case Str(s) => s
    case List(es) => "[" + FlatElems(es) + "]"
    case Dict(es) => FlatEntries(es)
  }

  function FlatElems(es: seq<Value>): string
    decreases es, 0
  {
    if es == [] then ""
    else if |es| == 1 then Flat(es[0])
    else Flat(es[0]) + "; " + FlatElems(es[1..])
  }

  function FlatEntries(es: seq<(string, Value)>): string
    decreases es, 0
  {
    if es == [] then ""
    else
      var (k, v) := es[0];
      assert v < es[0];
      if |es| == 1 then k + ": " + Flat(v)
      else k + ": " + Flat(v) + "; " + FlatEntries(es[1..])
  }

  // ---------------------------------------------------------------- properties

  /** The clean-up works character by character, so it distributes over concatenation. */
  lemma CleanConcat(a: string, b: string)
    ensures Clean(a + b) == Clean(a) + Clean(b)
  {
    ReplaceCharConcat(a, b, '{', "");
    var a1, b1 := Replace(a, "{", ""), Replace(b, "{", "");
    ReplaceCharConcat(a1, b1, '}', "");
    var a2, b2 := Replace(a1, "}", ""), Replace(b1, "}", "");
    ReplaceCharConcat(a2, b2, '\'', "");
    var a3, b3 := Replace(a2, "'", ""), Replace(b2, "'", "");
    ReplaceCharConcat(a3, b3, ',', ";");
  }

  /** A plain text comes through the clean-up unchanged. */
  lemma CleanPlain(s: string)
    requires PlainStr(s)
    ensures Clean(s) == s
  {
    assert '{' !in s && '}' !in s && '\'' !in s && ',' !in s by {
      assert forall i :: 0 <= i < |s| ==> s[i] != '{' && s[i] != '}' && s[i] != '\'' && s[i] != ',';
    }
    ReplaceAbsentChar(s, '{', "");
    ReplaceAbsentChar(s, '}', "");
    ReplaceAbsentChar(s, '\'', "");
    ReplaceAbsentChar(s, ',', ";");
  }

  /** Replacing a character in a one-character text. */
  lemma ReplaceOne(c: char, d: char, rep: string)
    ensures Replace([c], [d], rep) == if c == d then rep else [c]
  {
    ReplaceStep([c], [d], rep);
    assert [c][..1] == [c] && [c][1..] == [];
  }

  /** The clean-up of one character: braces and quotes go, a comma becomes `;`. */
  lemma CleanChar(c: char)
    ensures Clean([c]) == if c == '{' || c == '}' || c == '\'' then [] else if c == ',' then ";" else [c]
  {
    ReplaceOne(c, '{', "");
    var r1 := Replace([c], "{", "");
    if r1 == [c] {
      ReplaceOne(c, '}', "");
      var r2 := Replace(r1, "}", "");
      if r2 == [c] {
        ReplaceOne(c, '\'', "");
        var r3 := Replace(r2, "'", "");
        if r3 == [c] {
          ReplaceOne(c, ',', ";");
        } else {
          ReplaceAbsentChar(r3, ',', ";");
        }
      } else {
        ReplaceAbsentChar(r2, '\'', "");
        ReplaceAbsentChar(r2, ',', ";");
      }
    } else {
      ReplaceAbsentChar(r1, '}', "");
      ReplaceAbsentChar(r1, '\'', "");
      ReplaceAbsentChar(r1, ',', ";");
    }
  }

  /** The clean-up of the separators and brackets `repr` writes. */
  lemma CleanPunctuation()
    ensures Clean("'") == [] && Clean("{") == [] && Clean("}") == []
    ensures Clean(", ") == "; " && Clean(": ") == ": " && Clean("[") == "[" && Clean("]") == "]"
  {
    CleanChar('\'');
    CleanChar('{');
    CleanChar('}');
    CleanChar('[');
    CleanChar(']');
    CleanChar(',');
    CleanChar(':');
    CleanChar(' ');
    assert ", " == [','] + [' '] && ": " == [':'] + [' '];
    CleanConcat([','], [' ']);
    CleanConcat([':'], [' ']);
  }

  /** A plain string's `repr`, cleaned, is the string. */
  lemma CleanReprStr(s: string)
    requires PlainStr(s)
    ensures Clean(ReprStr(s)) == s
  {
    ReprPlainStr(s);
    CleanConcat("'" + s, "'");
    CleanConcat("'", s);
    CleanPlain(s);
    CleanPunctuation();
  }

  /**
   * The text of a dict of plain strings is its credit-string reading: what
   * `str()` adds, the braces, quotes and commas, is deleted or turned into
   * the `;` the credits use.
   */
  lemma {:induction false} CleanRepr(v: Value)
    requires Plain(v)
    ensures Clean(Repr(v)) == Flat(v)
    decreases v, 1
  {
    CleanPunctuation();
    match v
    case Str(s) =>
      CleanReprStr(s);
    case List(es) =>
      CleanReprElems(es);
      CleanConcat("[" + ReprElems(es), "]");
      CleanConcat("[", ReprElems(es));
    case Dict(es) =>
      CleanReprEntries(es);
      CleanConcat("{" + ReprEntries(es), "}");
      CleanConcat("{", ReprEntries(es));
  }

  lemma {:induction false} CleanReprElems(es: seq<Value>)
    requires PlainElems(es)
    ensures Clean(ReprElems(es)) == FlatElems(es)
    decreases es, 0
  {
    if es != [] {
      CleanRepr(es[0]);
      if |es| > 1 {
        CleanReprElems(es[1..]);
        CleanJoined(Repr(es[0]), ", ", ReprElems(es[1..]));
      }
    }
  }

  lemma {:induction false} CleanReprEntries(es: seq<(string, Value)>)
    requires PlainEntries(es)
    ensures Clean(ReprEntries(es)) == FlatEntries(es)
    decreases es, 0
  {
    if es != [] {
      var (k, v) := es[0];
      assert v < es[0];
      CleanRepr(v);
      CleanReprStr(k);
      CleanJoined(ReprStr(k), ": ", Repr(v));
      if |es| > 1 {
        CleanReprEntries(es[1..]);
        CleanJoined(ReprStr(k) + ": " + Repr(v), ", ", ReprEntries(es[1..]));
      }
    }
  }

  /** Two texts joined by a separator `repr` writes are cleaned apart. */
  lemma CleanJoined(a: string, sep: string, b: string)
    requires sep == ", " || sep == ": "
    ensures Clean(a + sep + b) == Clean(a) + (if sep == ", " then "; " else ": ") + Clean(b)
  {
    CleanPunctuation();
    CleanConcat(a + sep, b);
    CleanConcat(a, sep);
  }

  // ---------------------------------------------------------------- example

  /** A team whose two members map to plain strings reads as `team: k1: v1; k2: v2`. */
  lemma ConvertTeamOfTwo(d: Value, team: string, k1: string, v1: string, k2: string, v2: string)
    requires d == Dict([("Teams", Dict([(team, Dict([(k1, Str(v1)), (k2, Str(v2))]))]))])
    requires PlainStr(team) && PlainStr(k1) && PlainStr(v1) && PlainStr(k2) && PlainStr(v2)
    ensures ConvertCharacterDictToStr(d) == Some(team + ": " + k1 + ": " + v1 + "; " + k2 + ": " + v2)
  {
    var last := [(k2, Str(v2))];
    var members := [(k1, Str(v1)), (k2, Str(v2))];
    var teams := Dict([(team, Dict(members))]);
    assert d.entries[0] == ("Teams", teams);
    assert Lookup(d.entries, "Teams") == Some(teams);
    assert members[1..] == last && last[1..] == [];
    assert PlainEntries(last) by {
      assert Plain(Str(v2));
    }
    assert PlainEntries(members) by {
      assert Plain(Str(v1));
    }
    assert Plain(teams) by {
      assert Plain(Dict(members));
    }
    CleanRepr(teams);
    assert FlatEntries(last) == k2 + ": " + v2;
    assert FlatEntries(members) == k1 + ": " + v1 + "; " + FlatEntries(last);
    assert Flat(Dict(members)) == FlatEntries(members);
    assert Flat(teams) == team + ": " + Flat(Dict(members));
    assert ConvertCharacterDictToStr(d) == Some(Clean(Repr(teams)));
    var x := k1 + ": " + v1 + "; ";
    assert x + (k2 + ": " + v2) == x + k2 + ": " + v2;
    var y := team + ": ";
    assert y + (x + k2 + ": " + v2) == y + k1 + ": " + v1 + "; " + k2 + ": " + v2;
  }

  /** The names of the test case need no escape and no clean-up. */
  lemma ExampleNamesPlain()
    ensures PlainStr("Justice League") && PlainStr("Batman") && PlainStr("Bruce Wayne")
    ensures PlainStr("Superman") && PlainStr("Clark Kent")
  {
  }

  /**
   * The test case: a team whose members are themselves a dict gives
   * `"Justice League: Batman: Bruce Wayne; Superman: Clark Kent"`, written
   * here piece by piece.
   */
  lemma ExampleConvert(d: Value)
    requires d == Dict([("Teams", Dict([("Justice League",
                 Dict([("Batman", Str("Bruce Wayne")), ("Superman", Str("Clark Kent"))]))]))])
    ensures ConvertCharacterDictToStr(d) ==
              Some("Justice League" + ": " + "Batman" + ": " + "Bruce Wayne" + "; " + "Superman" + ": " + "Clark Kent")
  {
    ExampleNamesPlain();
    ConvertTeamOfTwo(d, "Justice League", "Batman", "Bruce Wayne", "Superman", "Clark Kent");
  }
}
