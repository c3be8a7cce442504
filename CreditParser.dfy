/**
 * `convert_characters_to_list` of comics_net/analyzer.py: the credit
 * string, once its alias semicolons are neutralised, is scanned for
 * bracketed contents; a content with more than one `;` is a team whose
 * members are listed, and everything of the credits that the teams' text
 * does not account for is split into the remaining names.
 */
module CreditParser {
  import opened PyText
  import opened BracketPattern
  import opened PyDict
  import opened PyRepr
  import opened Disambiguation
  import opened DepthScan
  import opened CreditNames
  import opened DictText
  import opened Ndiff

  /** Content ranges that lie inside `t`, as the bracket scan yields them. */
  predicate ContentsWithin(t: string, ms: seq<Span>)
  {
    forall k :: 0 <= k < |ms| ==> 1 <= ms[k].start <= ms[k].end <= |t|
  }

  /** `list(filter(lambda x: x != "", entity.split("; ")))`: the members of a team. */
  function Members(entity: string): (r: seq<string>)
  {
    NonEmpty(Split(entity, "; "))
  }

  /** The two sub-dicts of `character_dict`. */
  datatype Found = Found(teams: Dict<string, seq<string>>, individuals: Dict<string, string>)

  /**
   * `character_dict` after the classification loop has seen the first `n`
   * contents, where `names[k]` is the name written before the bracket of
   * `ms[k]`: a content without `;` is an individual's identity, one with
   * more than one `;` is a team, one with exactly one is passed over.
   */
  function Classified(t: string, ms: seq<Span>, names: seq<string>, n: nat): (f: Found)
    requires ContentsWithin(t, ms) && |names| == |ms| && n <= |ms|
  {
    if n == 0 then Found(Empty(), Empty())
    else
      var f := Classified(t, ms, names, n - 1);
      var sp := ms[n - 1];
      var entity := t[sp.start..sp.end];
      var count := CountChar(entity, ';');
      if count == 0 then Found(f.teams, Put(f.individuals, names[n - 1], entity))
      else if count > 1 then Found(Put(f.teams, names[n - 1], Members(entity)), f.individuals)
      else f
  }

  /** `look_behind(t, span[0])` for every content: the name before each bracket. */
  function Names(t: string, ms: seq<Span>): (r: seq<string>)
    ensures |r| == |ms|
  {
    seq(|ms|, k requires 0 <= k < |ms| => LookBehind(t, ms[k].start))
  }

  method Classify(t: string, matches: seq<Span>) returns (teams: Dict<string, seq<string>>, individuals: Dict<string, string>)
    requires ContentsWithin(t, matches)
    ensures Found(teams, individuals) == Classified(t, matches, Names(t, matches), |matches|)
  {
    teams, individuals := Empty(), Empty();
    for i := 0 to |matches|
      invariant Found(teams, individuals) == Classified(t, matches, Names(t, matches), i)
    {
      var span := matches[i];
      var entity := t[span.start..span.end];
      if CountChar(entity, ';') == 0 {
        var personName := LookBehind(t, span.start);
        individuals := Put(individuals, personName, entity);
      } else if CountChar(entity, ';') > 1 {
        var teamName := LookBehind(t, span.start);
        teams := Put(teams, teamName, Members(entity));
      }
    }
  }

  /** A list of strings as a Python value. */
  function StrList(xs: seq<string>): (v: Value)
    ensures v.List? && |v.elems| == |xs|
  {
    List(seq(|xs|, i requires 0 <= i < |xs| => Str(xs[i])))
  }

  /** `character_dict`, with `"Teams"` inserted before `"Individuals"`. */
  function CharacterDict(f: Found): (v: Value)
    ensures v.Dict? && |v.entries| == 2 && v.entries[0].0 == "Teams" && v.entries[1].0 == "Individuals"
  {
    var teams := f.teams.items;
    var inds := f.individuals.items;
    Value.Dict([("Teams", Value.Dict(seq(|teams|, i requires 0 <= i < |teams| => (teams[i].0, StrList(teams[i].1))))),
          ("Individuals", Value.Dict(seq(|inds|, i requires 0 <= i < |inds| => (inds[i].0, Str(inds[i].1)))))])
  }

  /** `team_string`: the teams written the way the credits write them. */
  function TeamString(f: Found): (r: string)
  {
    var d := CharacterDict(f);
    assert Lookup(d.entries, "Teams").Some?;
    ConvertCharacterDictToStr(d).value
  }

  /** `flatten`: the members of all the lists, list after list. */
  function Flatten(l: seq<seq<string>>): (r: seq<string>)
  {
    if l == [] then [] else l[0] + Flatten(l[1..])
  }

  /** The remaining names: the pieces of the part of `t` that `team_string` does not account for. */
  function Remainder(teamString: string, t: string, ndiff: (string, string) -> seq<DiffLine>): (r: seq<string>)
  {
    NonEmpty(Split(Additions(ndiff(teamString, t)), "; "))
  }

  /** The result of `convert_characters_to_list`, with `difflib.ndiff` as a parameter. */
  function CharacterList(characters: string, ndiff: (string, string) -> seq<DiffLine>): (r: seq<string>)
  {
    var t := Disambiguate(characters);
    ContentSpansEnclosed(t);
    var ms := ContentSpans(t);
    var f := Classified(t, ms, Names(t, ms), |ms|);
    Flatten(Values(f.teams) + [Remainder(TeamString(f), t, ndiff)])
  }

  method ConvertCharactersToList(characters: string, ndiff: (string, string) -> seq<DiffLine>)
    returns (r: seq<string>)
    ensures r == CharacterList(characters, ndiff)
  {
    var t := ReplaceSemicolonsInBrackets(characters);
    var matches := BracketContents(t);
    ContentSpansEnclosed(t);
    var teams, individuals := Classify(t, matches);
    var characterDict := CharacterDict(Found(teams, individuals));
    var teamString := ConvertCharacterDictToStr(characterDict).value;
    var remainder := DiffStrings(teamString, t, ndiff);
    var names := NonEmpty(Split(remainder, "; "));
    var characterList := TeamLists(teams);
    characterList := characterList + [names];
    r := Flatten(characterList);
  }

  /** `for k in character_dict["Teams"]: character_list.append(character_dict["Teams"][k])`. */
  method TeamLists(teams: Dict<string, seq<string>>) returns (characterList: seq<seq<string>>)
    ensures characterList == Values(teams)
  {
    characterList := [];
    for i := 0 to |teams.items|
      invariant characterList == Values(teams)[..i]
    {
      characterList := characterList + [teams.items[i].1];
      assert Values(teams)[..i + 1] == Values(teams)[..i] + [teams.items[i].1];
    }
    assert Values(teams)[..|teams.items|] == Values(teams);
  }

  // ---------------------------------------------------------------- properties

  /** A name as the parser hands it out: not empty, and not holding the separator `"; "`. */
  predicate GoodName(x: string)
  {
    x != [] && !Contains(x, "; ")
  }

  predicate AllGood(xs: seq<string>)
  {
    forall j :: 0 <= j < |xs| ==> GoodName(xs[j])
  }

  /** The members of a team are good names. */
  lemma MembersGood(entity: string)
    ensures AllGood(Members(entity))
  {
    SplitPiecesLackSep(entity, "; ");
    var r := Members(entity);
    assert forall j :: 0 <= j < |r| ==> r[j] in r;
  }

  /** The remaining names are good names. */
  lemma RemainderGood(teamString: string, t: string, ndiff: (string, string) -> seq<DiffLine>)
    ensures AllGood(Remainder(teamString, t, ndiff))
  {
    MembersGood(Additions(ndiff(teamString, t)));
  }

  /** Every team of `teams` lists good names only. */
  predicate TeamsGood(teams: Dict<string, seq<string>>)
  {
    forall i :: 0 <= i < |teams.items| ==> AllGood(teams.items[i].1)
  }

  /** Every team recorded by the classification lists good names only. */
  lemma {:induction false} ClassifiedGood(t: string, ms: seq<Span>, names: seq<string>, n: nat)
    requires ContentsWithin(t, ms) && |names| == |ms| && n <= |ms|
    ensures TeamsGood(Classified(t, ms, names, n).teams)
  {
    if n > 0 {
      ClassifiedGood(t, ms, names, n - 1);
      var f := Classified(t, ms, names, n - 1);
      var sp := ms[n - 1];
      var entity := t[sp.start..sp.end];
      if CountChar(entity, ';') > 1 {
        var k := names[n - 1];
        var teams := Put(f.teams, k, Members(entity));
        assert Classified(t, ms, names, n).teams == teams;
        MembersGood(entity);
        forall i | 0 <= i < |teams.items|
          ensures AllGood(teams.items[i].1)
        {
          PutItem(f.teams, k, Members(entity), i);
          if teams.items[i] != (k, Members(entity)) {
            assert AllGood(f.teams.items[i].1);
          }
        }
      } else {
        assert Classified(t, ms, names, n).teams == f.teams;
      }
    }
  }

  /** Every team recorded is a content with more than one `;`, filed under the name before its bracket. */
  lemma {:induction false} ClassifiedTeam(t: string, ms: seq<Span>, names: seq<string>, n: nat, i: nat) returns (j: nat)
    requires ContentsWithin(t, ms) && |names| == |ms| && n <= |ms|
    requires i < |Classified(t, ms, names, n).teams.items|
    ensures j < n
    ensures var entity := t[ms[j].start..ms[j].end];
            && CountChar(entity, ';') > 1
            && Classified(t, ms, names, n).teams.items[i] == (names[j], Members(entity))
  {
    var f := Classified(t, ms, names, n - 1);
    var sp := ms[n - 1];
    var entity := t[sp.start..sp.end];
    if CountChar(entity, ';') > 1 {
      var k := names[n - 1];
      PutItem(f.teams, k, Members(entity), i);
      if Put(f.teams, k, Members(entity)).items[i] == (k, Members(entity)) {
        j := n - 1;
      } else {
        j := ClassifiedTeam(t, ms, names, n - 1, i);
      }
    } else {
      j := ClassifiedTeam(t, ms, names, n - 1, i);
    }
  }

  /** Both sub-dicts keep their keys distinct. */
  lemma {:induction false} ClassifiedValid(t: string, ms: seq<Span>, names: seq<string>, n: nat)
    requires ContentsWithin(t, ms) && |names| == |ms| && n <= |ms|
    ensures Valid(Classified(t, ms, names, n).teams) && Valid(Classified(t, ms, names, n).individuals)
  {
    if n > 0 {
      ClassifiedValid(t, ms, names, n - 1);
      var f := Classified(t, ms, names, n - 1);
      var entity := t[ms[n - 1].start..ms[n - 1].end];
      PutValid(f.teams, names[n - 1], Members(entity));
      PutValid(f.individuals, names[n - 1], entity);
    }
  }

  /**
   * Whether the content at `j` is filed under `w`: among the teams when it
   * holds more than one `;`, among the individuals when it holds none.
   */
  predicate FiledAt(t: string, ms: seq<Span>, names: seq<string>, j: nat, w: string, team: bool)
    requires ContentsWithin(t, ms) && |names| == |ms| && j < |ms|
  {
    var count := CountChar(t[ms[j].start..ms[j].end], ';');
    names[j] == w && if team then count > 1 else count == 0
  }

  /** The last of the first `n` contents filed under `w`, if any. */
  function LastFiled(t: string, ms: seq<Span>, names: seq<string>, n: nat, w: string, team: bool): (r: Option<nat>)
    requires ContentsWithin(t, ms) && |names| == |ms| && n <= |ms|
    ensures r.Some? ==> r.value < n && FiledAt(t, ms, names, r.value, w, team)
    ensures r.Some? ==> forall j :: r.value < j < n ==> !FiledAt(t, ms, names, j, w, team)
    ensures r.None? ==> forall j :: 0 <= j < n ==> !FiledAt(t, ms, names, j, w, team)
  {
    if n == 0 then None
    else if FiledAt(t, ms, names, n - 1, w, team) then Some(n - 1)
    else LastFiled(t, ms, names, n - 1, w, team)
  }

  /**
   * What the classification stores under a team name: the members of the
   * last content with more than one `;` filed under it, or nothing when
   * there is none. A content with exactly one `;` is never filed.
   */
  lemma {:induction false} ClassifiedTeamGet(t: string, ms: seq<Span>, names: seq<string>, n: nat, w: string)
    requires ContentsWithin(t, ms) && |names| == |ms| && n <= |ms|
    ensures var lt := LastFiled(t, ms, names, n, w, true);
            Get(Classified(t, ms, names, n).teams, w) ==
              if lt.Some? then Some(Members(t[ms[lt.value].start..ms[lt.value].end])) else None
  {
    if n > 0 {
      ClassifiedTeamGet(t, ms, names, n - 1, w);
      ClassifiedValid(t, ms, names, n - 1);
      var f := Classified(t, ms, names, n - 1);
      var entity := t[ms[n - 1].start..ms[n - 1].end];
      GetPut(f.teams, names[n - 1], Members(entity), w);
    }
  }

  /**
   * What the classification stores under a person's name: the last content
   * without `;` filed under it, or nothing when there is none.
   */
  lemma {:induction false} ClassifiedIndividualGet(t: string, ms: seq<Span>, names: seq<string>, n: nat, w: string)
    requires ContentsWithin(t, ms) && |names| == |ms| && n <= |ms|
    ensures var li := LastFiled(t, ms, names, n, w, false);
            Get(Classified(t, ms, names, n).individuals, w) ==
              if li.Some? then Some(t[ms[li.value].start..ms[li.value].end]) else None
  {
    if n > 0 {
      ClassifiedIndividualGet(t, ms, names, n - 1, w);
      ClassifiedValid(t, ms, names, n - 1);
      var f := Classified(t, ms, names, n - 1);
      var entity := t[ms[n - 1].start..ms[n - 1].end];
      GetPut(f.individuals, names[n - 1], entity, w);
    }
  }

  /** The first of the first `n` contents filed under `w`, if any. */
  function FirstFiled(t: string, ms: seq<Span>, names: seq<string>, n: nat, w: string, team: bool): (r: Option<nat>)
    requires ContentsWithin(t, ms) && |names| == |ms| && n <= |ms|
    ensures r.Some? ==> r.value < n && FiledAt(t, ms, names, r.value, w, team)
    ensures r.Some? ==> forall j :: 0 <= j < r.value ==> !FiledAt(t, ms, names, j, w, team)
    ensures r.None? ==> forall j :: 0 <= j < n ==> !FiledAt(t, ms, names, j, w, team)
  {
    if n == 0 then None
    else
      var f := FirstFiled(t, ms, names, n - 1, w, team);
      if f.Some? then f
      else if FiledAt(t, ms, names, n - 1, w, team) then Some(n - 1)
      else None
  }

  /**
   * The team names of the first `n` contents: every name some content with
   * more than one `;` is filed under, once, in the order of its first filing.
   */
  function TeamNames(t: string, ms: seq<Span>, names: seq<string>, n: nat): (r: seq<string>)
    requires ContentsWithin(t, ms) && |names| == |ms| && n <= |ms|
    ensures forall i, j :: 0 <= i < j < |r| ==> r[i] != r[j]
  {
    if n == 0 then []
    else
      var r := TeamNames(t, ms, names, n - 1);
      var w := names[n - 1];
      if FiledAt(t, ms, names, n - 1, w, true) && w !in r then r + [w] else r
  }

  /**
   * The team names are exactly the names some team content is filed under,
   * ordered by the index of the first content filed under each.
   */
  lemma {:induction false} TeamNamesFirstFiled(t: string, ms: seq<Span>, names: seq<string>, n: nat)
    requires ContentsWithin(t, ms) && |names| == |ms| && n <= |ms|
    ensures var r := TeamNames(t, ms, names, n);
            forall w :: w in r <==> FirstFiled(t, ms, names, n, w, true).Some?
    ensures var r := TeamNames(t, ms, names, n);
            forall i, j :: 0 <= i < j < |r| ==>
              FirstFiled(t, ms, names, n, r[i], true).Some? && FirstFiled(t, ms, names, n, r[j], true).Some? &&
              FirstFiled(t, ms, names, n, r[i], true).value < FirstFiled(t, ms, names, n, r[j], true).value
  {
    if n > 0 {
      TeamNamesFirstFiled(t, ms, names, n - 1);
    }
  }

  /**
   * `list(character_dict["Teams"])`: the dict's keys are the team names in
   * the order each was first filed; a later content filed under a name
   * already present replaces its value and leaves the order alone.
   */
  lemma {:induction false} ClassifiedKeys(t: string, ms: seq<Span>, names: seq<string>, n: nat)
    requires ContentsWithin(t, ms) && |names| == |ms| && n <= |ms|
    ensures Keys(Classified(t, ms, names, n).teams) == TeamNames(t, ms, names, n)
  {
    if n > 0 {
      ClassifiedKeys(t, ms, names, n - 1);
      var f := Classified(t, ms, names, n - 1);
      var entity := t[ms[n - 1].start..ms[n - 1].end];
      var filed := CountChar(entity, ';') > 1;
      assert filed == FiledAt(t, ms, names, n - 1, names[n - 1], true);
      KeysStep(f.teams, TeamNames(t, ms, names, n - 1), names[n - 1], Members(entity), filed);
    }
  }

  /** One step of the classification loop on the keys of the teams dict. */
  lemma KeysStep(d: Dict<string, seq<string>>, before: seq<string>, w: string, v: seq<string>, filed: bool)
    requires Keys(d) == before
    ensures Keys(if filed then Put(d, w, v) else d) == if filed && w !in before then before + [w] else before
  {
    if filed {
      PutKeys(d, w, v);
      HasKeyInKeys(d, w);
    }
  }

  /** The members stored under team name `w`: those of its last-filed content. */
  function TeamMembers(t: string, ms: seq<Span>, names: seq<string>, n: nat, w: string): (r: seq<string>)
    requires ContentsWithin(t, ms) && |names| == |ms| && n <= |ms|
  {
    var lt := LastFiled(t, ms, names, n, w, true);
    if lt.Some? then Members(t[ms[lt.value].start..ms[lt.value].end]) else []
  }

  /** `list(character_dict["Teams"].values())`: each team name's members, in key order. */
  lemma ClassifiedValues(t: string, ms: seq<Span>, names: seq<string>, n: nat)
    requires ContentsWithin(t, ms) && |names| == |ms| && n <= |ms|
    ensures var ks := TeamNames(t, ms, names, n);
            Values(Classified(t, ms, names, n).teams) ==
              seq(|ks|, i requires 0 <= i < |ks| => TeamMembers(t, ms, names, n, ks[i]))
  {
    var teams := Classified(t, ms, names, n).teams;
    var ks := TeamNames(t, ms, names, n);
    ClassifiedKeys(t, ms, names, n);
    ClassifiedValid(t, ms, names, n);
    forall i | 0 <= i < |ks|
      ensures Values(teams)[i] == TeamMembers(t, ms, names, n, ks[i])
    {
      assert teams.items[i].0 == ks[i];
      GetItem(teams, i);
      ClassifiedTeamGet(t, ms, names, n, ks[i]);
    }
  }

  /**
   * `convert_characters_to_list`: the members of each team, teams in the
   * order their names were first filed, each team with the members of the
   * last content filed under its name, and then the remaining names.
   */
  lemma CharacterListTeamOrder(characters: string, ndiff: (string, string) -> seq<DiffLine>)
    returns (t: string, ms: seq<Span>)
    ensures t == Disambiguate(characters) && ms == ContentSpans(t) && ContentsWithin(t, ms)
    ensures var names := Names(t, ms);
            var ks := TeamNames(t, ms, names, |ms|);
            CharacterList(characters, ndiff) ==
              Flatten(seq(|ks|, i requires 0 <= i < |ks| => TeamMembers(t, ms, names, |ms|, ks[i])) +
                      [Remainder(TeamString(Classified(t, ms, names, |ms|)), t, ndiff)])
  {
    t := Disambiguate(characters);
    ContentSpansEnclosed(t);
    ms := ContentSpans(t);
    ClassifiedValues(t, ms, Names(t, ms), |ms|);
  }

  /** Without a content holding more than one `;` no team is recorded. */
  lemma {:induction false} ClassifiedNoTeam(t: string, ms: seq<Span>, names: seq<string>, n: nat)
    requires ContentsWithin(t, ms) && |names| == |ms| && n <= |ms|
    requires forall k :: 0 <= k < n ==> CountChar(t[ms[k].start..ms[k].end], ';') <= 1
    ensures Classified(t, ms, names, n).teams.items == []
  {
    if n > 0 {
      ClassifiedNoTeam(t, ms, names, n - 1);
    }
  }

  /** A name is in the flattened list exactly when it is in one of the lists. */
  lemma {:induction false} FlattenMembers(l: seq<seq<string>>, x: string)
    ensures x in Flatten(l) <==> exists i :: 0 <= i < |l| && x in l[i]
  {
    if l != [] {
      FlattenMembers(l[1..], x);
      if x in Flatten(l[1..]) {
        var i :| 0 <= i < |l[1..]| && x in l[1..][i];
        assert x in l[i + 1];
      }
      if exists i :: 0 <= i < |l| && x in l[i] {
        var i :| 0 <= i < |l| && x in l[i];
        if i > 0 {
          assert x in l[1..][i - 1];
        }
      }
    }
  }

  /** Flattening lists of good names gives good names. */
  lemma {:induction false} FlattenGood(l: seq<seq<string>>)
    requires forall i :: 0 <= i < |l| ==> AllGood(l[i])
    ensures AllGood(Flatten(l))
  {
    if l != [] {
      FlattenGood(l[1..]);
      var r := Flatten(l);
      assert forall j :: 0 <= j < |r| ==> r[j] == if j < |l[0]| then l[0][j] else Flatten(l[1..])[j - |l[0]|];
    }
  }

  /** Every name `convert_characters_to_list` returns is non-empty and holds no `"; "`. */
  lemma CharacterListGood(characters: string, ndiff: (string, string) -> seq<DiffLine>)
    ensures AllGood(CharacterList(characters, ndiff))
  {
    var t := Disambiguate(characters);
    ContentSpansEnclosed(t);
    var ms := ContentSpans(t);
    var f := Classified(t, ms, Names(t, ms), |ms|);
    var l := Values(f.teams) + [Remainder(TeamString(f), t, ndiff)];
    ClassifiedGood(t, ms, Names(t, ms), |ms|);
    RemainderGood(TeamString(f), t, ndiff);
    assert forall i :: 0 <= i < |l| ==> AllGood(l[i]) by {
      forall i | 0 <= i < |l|
        ensures AllGood(l[i])
      {
        if i < |f.teams.items| {
          assert l[i] == f.teams.items[i].1;
        }
      }
    }
    FlattenGood(l);
  }

  /** With no team the dict's text is empty: `str({})` is `"{}"`, and both braces go. */
  lemma TeamStringNoTeam(f: Found)
    requires f.teams.items == []
    ensures TeamString(f) == []
  {
    var d := CharacterDict(f);
    assert d.entries[0].1 == Value.Dict([]);
    assert Repr(Value.Dict([])) == "{" + "}";
    CleanConcat("{", "}");
    CleanChar('{');
    CleanChar('}');
  }

  /** For teams of plain names the dict's text is `team: [a; b]; team2: [c; d]`. */
  lemma TeamStringFlat(f: Found)
    requires Plain(CharacterDict(f).entries[0].1)
    ensures TeamString(f) == Flat(CharacterDict(f).entries[0].1)
  {
    CleanRepr(CharacterDict(f).entries[0].1);
  }

  /** No content of the neutralised credits holds more than one `;`. */
  predicate NoTeam(t: string)
  {
    var ms := ContentSpans(t);
    forall k :: 0 <= k < |ms| && ms[k].start <= ms[k].end <= |t| ==> CountChar(t[ms[k].start..ms[k].end], ';') <= 1
  }

  /**
   * Credits without a team: `ndiff` against the empty team string adds
   * every character, so the result is the neutralised credits split at
   * `"; "`, empty pieces dropped.
   */
  lemma CharacterListNoTeam(characters: string, ndiff: (string, string) -> seq<DiffLine>)
    requires NoTeam(Disambiguate(characters))
    requires IsNdiffOf(ndiff([], Disambiguate(characters)), [], Disambiguate(characters))
    ensures CharacterList(characters, ndiff) == NonEmpty(Split(Disambiguate(characters), "; "))
  {
    var t := Disambiguate(characters);
    ContentSpansEnclosed(t);
    var ms := ContentSpans(t);
    ClassifiedNoTeam(t, ms, Names(t, ms), |ms|);
    var f := Classified(t, ms, Names(t, ms), |ms|);
    TeamStringNoTeam(f);
    DiffStringsBounds(ndiff([], t), [], t);
    var rest := Remainder(TeamString(f), t, ndiff);
    assert Values(f.teams) + [rest] == [rest];
    assert Flatten([rest]) == rest + Flatten([]);
  }
}
