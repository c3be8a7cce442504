# Credit parsing and title filters of comics-net, in Dafny

The comics-net project scrapes comic-book issue pages and turns their text
into training labels. Two files hold the text processing this project
models and proves things about.

- `comics_net/analyzer.py` handles credit strings such as
  `Superman [Clark Kent; Kal-El]; Batman [Bruce Wayne]`. Its functions:
  - read the issue number from a title;
  - record the bracketed spans of a string;
  - neutralise the `;` inside alias brackets (`[Clark Kent; Kal-El]`
    becomes `[Clark Kent/ Kal-El]`);
  - find the name written before a bracket;
  - render the teams dictionary as a credit string;
  - diff two strings;
  - split a credit string into the list of its characters and teams' members;
  - find and rewrite rows of the labels file.
- `comicvision/webscraper.py` cleans cover and issue titles. Its functions:
  - take the first bracketed text of a title, or strip it off;
  - decide whether a cover is a reprint, a newsstand, Canadian, Whitman or
    British edition, or a variant, and so redundant next to the direct edition;
  - name a variant cover;
  - filter the issue links of a cover gallery;
  - clean the page title.

The modules, one per concept:

| module | models |
|---|---|
| `PyText` | the Python `str` operations the code uses: `strip`, `in`, `find`, `count`, `replace`, `split`, `join`, ASCII `lower`, negative-index slicing |
| `BracketPattern` | the regular expression `\[(.*?)\]`: `MatchAt` is the lazy match at one position and `BracketText` its declarative meaning; `FindAll` is `finditer` and `Search` is `re.search` |
| `PyDict` | Python's insertion-ordered `dict` as a list of items |
| `PyRepr` | `str()` of strings, lists and dicts, with `repr`'s choice of quote and its escapes |
| `MatchBrackets` | `match_brackets` |
| `Disambiguation` | `replace_semicolons_in_brackets` |
| `CreditNames` | `look_behind` |
| `DictText` | `convert_character_dict_to_str` |
| `Ndiff` | `diff_strings`, over any edit script `difflib.ndiff` may produce |
| `DepthScan` | the bracket-depth scan of `convert_characters_to_list` |
| `CreditParser` | the rest of `convert_characters_to_list`, and `flatten` |
| `AnalyzerUtil` | `get_issue_number_from_title`, `search_row`, `replace_line` |
| `Webscraper` | the title helpers of `comicvision/webscraper.py` |

Loops of analyzer.py become methods with loop invariants, each proved equal
to a specification function. The properties are then proved as lemmas about
those functions. Functions made of expressions stay functions.

### What the code does that a reader might not expect

- `replace_semicolons_in_brackets` is not idempotent. It replaces every
  occurrence of a triggering span's text, so an occurrence nested in a later
  bracket can change a span inspected afterwards.
- A span with two or more `;` is left alone when its turn comes. It can still change
  when it contains the text of another span that triggers.
- An unclosed bracket such as `Team [A; B` yields no content spans
  (`DepthScan.ExampleDangling`). So no team is recorded, and the whole string
  becomes the remainder: `["Team [A", "B"]`.
- `is_reprinting` tests thirteen phrases: the 2nd to 5th printings are
  written both ways, and the 6th to 10th only as ordinals.
- `get_issue_number_from_title` reads the first `#` or `?` followed by
  digits and a word boundary. For `?`, the code's `np.int("?12")` raises, and
  the model returns `Raises`.

## Model

| member | source | states |
|---|---|---|
| AnalyzerUtil.GetIssueNumberFromTitle | comics_net/analyzer.py:48-56 | defines `get_issue_number_from_title`: drop the commas, read the first match of `([#?])(\d+)\b`, and give `NaN` without one; `IssueNumberMeaning` states its meaning |
| AnalyzerUtil.IssueNumberMeaning | comics_net/analyzer.py:48-56 | the result is `NaN` exactly when the comma-free title has no match of `([#?])(\d+)\b`; otherwise it reads the leftmost match: `Raises` for `?`, else the decimal value of its digits |
| AnalyzerUtil.FindNumber | comics_net/analyzer.py:52 | `re.search` of the issue pattern: the position found is a match, no earlier position is, and `None` means no position matches |
| AnalyzerUtil.DigitEnd | comics_net/analyzer.py:52 | `\d+` is greedy: the run of digits ends at the end of the text or at a non-digit |
| AnalyzerUtil.MatchAtIff | comics_net/analyzer.py:52 | the executable matcher agrees with the declarative reading of `([#?])(\d+)\b`, in both directions |
| AnalyzerUtil.DecimalShow | comics_net/analyzer.py:56 | reading the decimal digits of `n` gives `n` back |
| AnalyzerUtil.TitleWithNumber | comics_net/analyzer.py:48-56 | a title made of `#` and the digits of `n`, after a prefix with no `#`, `?` or `,`, gives `n`; with `?` it raises |
| AnalyzerUtil.CommaIgnored | comics_net/analyzer.py:52 | a comma anywhere in the title does not change the issue number (`#1,000` reads as 1000) |
| AnalyzerUtil.ExampleSuperman | comics_net/test_analyzer.py:43-46 | `Superman #12` gives 12 |
| AnalyzerUtil.SearchRow | comics_net/analyzer.py:349-364 | returns the index of the first line holding the substring, and `None` exactly when no line holds it |
| AnalyzerUtil.ReplaceLine | comics_net/analyzer.py:368-383 | `lines[row] = text + "\n"` changes only that line, with a negative row counting from the end; it fails exactly when `row` is out of range |
| AnalyzerUtil.ReplaceLineInPlace | comics_net/analyzer.py:379-380 | the in-place assignment on the line array leaves what `ReplaceLine` computes, and leaves the array unchanged when it raises |
| AnalyzerUtil.ReplaceFoundRow | comics_net/analyzer.py:349-383 | rewriting the first row that holds a name with a text that holds it keeps that row the first one `search_row` finds |
| BracketPattern.MatchAtIff | comics_net/analyzer.py:64 | the lazy match of `\[(.*?)\]` at `p` ends at `q` exactly when `s[p..q]` is `[`, a text with no `]` and no newline, then `]` |
| BracketPattern.CloseFromIff | comics_net/analyzer.py:64 | the lazy `.*?` stops at the first `]`, and fails at a newline |
| BracketPattern.FindAll | comics_net/analyzer.py:66 | every span `finditer` yields lies in the string, after the starting point |
| BracketPattern.FindAllMatch | comics_net/analyzer.py:66 | every span `finditer` yields is a match at its start |
| BracketPattern.FindAllOrdered | comics_net/analyzer.py:66 | the spans `finditer` yields are in order and do not overlap |
| BracketPattern.MatchText | comics_net/analyzer.py:66-67 | the text of every match is bracket text |
| BracketPattern.Search | comicvision/webscraper.py:326 | `re.search` returns the leftmost match, and `None` only when there is none |
| BracketPattern.SearchIsFirstMatch | comicvision/webscraper.py:326 | `re.search` returns the first span of `finditer` |
| BracketPattern.CoveredByFindAll | comics_net/analyzer.py:79 | any match, even one `finditer` skips, ends where a yielded span ends that starts no later |
| BracketPattern.FindAllRespects | comics_net/analyzer.py:79 | strings that agree on `[`, `]` and newlines have the same matches |
| BracketPattern.OnlyMatch | comics_net/analyzer.py:79 | a string with one `[...]` pair and no other `[` has that span as its only match |
| BracketPattern.OccurrenceCovered | comics_net/analyzer.py:116 | every occurrence of a bracket text lies at the end of one of the string's matches |
| PyDict.GetPut | comics_net/analyzer.py:67 | after `d[k] = v`, `d[k]` is `v` and every other key keeps its value |
| PyDict.PutKeys | comics_net/analyzer.py:205 | assigning to an existing key keeps the order of the keys; a new key is appended |
| PyDict.HasKeyInKeys | comics_net/analyzer.py:216 | a key is present exactly when iterating the dict yields it |
| PyDict.GetItem | comics_net/analyzer.py:216-217 | in a dict with distinct keys, looking up the key at a position gives the value at that position |
| PyDict.PutItem | comics_net/analyzer.py:67 | after `d[k] = v` every item is the new one or the item that was at that place |
| PyDict.PutValid | comics_net/analyzer.py:67 | assignment never makes a key appear twice |
| MatchBrackets.MatchBrackets | comics_net/analyzer.py:59-68 | the loop over `finditer` builds the dict `BracketDict` describes |
| MatchBrackets.BracketDictGet | comics_net/analyzer.py:59-68 | the dict has the key `w` exactly when some match has text `w`; then the value is the last such match's span |
| MatchBrackets.BracketDictEntry | comics_net/analyzer.py:59-68 | every key is bracket text, and the text of the span it maps to |
| MatchBrackets.RecordValid | comics_net/analyzer.py:65-67 | the dict never holds a key twice |
| MatchBrackets.BracketDictSingle | comics_net/analyzer.py:59-68 | a string with one match gives a dict of one entry |
| MatchBrackets.ExampleBatman | comics_net/test_analyzer.py:49-52 | `Batman [Bruce Wayne]` gives `{"[Bruce Wayne]": (7, 20)}` |
| Disambiguation.DisambiguateWith | comics_net/analyzer.py:71-119 | defines the rewrite for any list of alias fragments: the matches are collected first, then each span is inspected in the partly rewritten string; the result keeps the length |
| Disambiguation.Disambiguate | comics_net/analyzer.py:71-119 | `DisambiguateWith` over the 31 fragments the code lists, in its order; the result keeps the length |
| Disambiguation.ReplaceSemicolonsInBrackets | comics_net/analyzer.py:71-119 | the method, which collects the matches and then rewrites span by span, computes `Disambiguate` |
| Disambiguation.RewriteSpan | comics_net/analyzer.py:82-116 | one pass of the second loop computes `Step` |
| Disambiguation.DisambiguateNeutralized | comics_net/analyzer.py:116 | the result differs from the input only where a `;` became `/` |
| Disambiguation.DisambiguateKeepsMatches | comics_net/analyzer.py:77-81 | the result has the same bracket matches as the input |
| Disambiguation.ChangedInsideMatch | comics_net/analyzer.py:79-116 | every changed character lies inside a bracket match of the input |
| Disambiguation.UnchangedOutside | comics_net/analyzer.py:79-116 | a character outside every match is kept |
| Disambiguation.TriggeringSpanCleared | comics_net/analyzer.py:83-116 | a span with one `;` that mentions an alias fragment has no `;` left afterwards; its converse is `NoTriggerUnchanged` and `ChangedByTrigger` |
| Disambiguation.NoTriggerUnchanged | comics_net/analyzer.py:83-116 | when no span triggers at its turn, the string comes back unchanged |
| Disambiguation.ChangedByTrigger | comics_net/analyzer.py:83-116 | every changed character was a `;` that became `/`, inside an occurrence of a span text that triggered when its turn came |
| Disambiguation.OneSpanResult | comics_net/analyzer.py:71-119 | with a single match, the result is the input with that span's `;` turned into `/` when it triggers and the input itself otherwise, and it changes exactly when the span triggers |
| Disambiguation.OneTriggeringSpan | comics_net/analyzer.py:71-119 | with a single match that triggers, the result is the input with that span's `;` turned into `/` |
| Disambiguation.NeutralizeChars | comics_net/analyzer.py:116 | `substring.replace(";", "/")` keeps the length, leaves no `;` and changes nothing else |
| Disambiguation.ReplaceNeutralized | comics_net/analyzer.py:116 | `characters.replace(substring, …)` only turns `;` into `/` |
| Disambiguation.PrefixesNeutralized | comics_net/analyzer.py:81-116 | every later pass of the loop only turns more `;` into `/` |
| Disambiguation.ExampleSuperman | comics_net/test_analyzer.py:62-66 | `Superman [Clark Kent; Kal-El]` becomes `Superman [Clark Kent/ Kal-El]` |
| Disambiguation.ExampleSupermanTriggers | comics_net/analyzer.py:83-86 | `[Clark Kent; Kal-El]` has one `;` and mentions `Kal-El` |
| CreditNames.LookBehind | comics_net/analyzer.py:122-135 | defines `look_behind`: the stripped text of `s[:end_idx - 1]` from just after its last `;` (or from 0), with Python's slicing of negative and overlong indices |
| CreditNames.AfterLast | comics_net/analyzer.py:128-134 | the start after the last `;`: nothing after it is a `;`, and it is 0 or follows a `;` |
| CreditNames.LookBehindShape | comics_net/analyzer.py:122-135 | the name holds no `;` and neither begins nor ends with whitespace |
| CreditNames.LookBehindBefore | comics_net/analyzer.py:122-135 | the name is the stripped text between the last `;` before the bracket and the bracket |
| CreditNames.LookBehindWhole | comics_net/analyzer.py:122-135 | `look_behind(s, len(s) + 1)` is the stripped text after the last `;` |
| CreditNames.LookBehindLast | comics_net/analyzer.py:122-135 | when spaces follow the last `;`, the name is the rest without them |
| CreditNames.ExampleLookBehind | comics_net/test_analyzer.py:69-72 | `look_behind("Superman; Batman; Wonder Woman", len + 1)` is `Wonder Woman` |
| PyRepr.EscapeIdentity | comics_net/analyzer.py:144 | `repr` writes a string's characters as they are exactly when none needs an escape |
| PyRepr.ReprPlainStr | comics_net/analyzer.py:144 | a string with nothing to escape is written between single quotes |
| PyRepr.ExampleReprApostrophe | comics_net/analyzer.py:144 | `O'Neil`, which holds `'` and no `"`, is written between double quotes |
| DictText.ConvertCharacterDictToStr | comics_net/analyzer.py:138-149 | returns a string exactly when the argument is a dict with a `Teams` key; otherwise the code raises (`KeyError` for a dict without the key, `TypeError` for a string or a list) |
| DictText.ConvertStrTeams | comics_net/analyzer.py:144-148 | `str()` of a string `Teams` value is the string itself, without quotes, and only the four replacements act on it |
| DictText.ConvertQuotedName | comics_net/analyzer.py:144-148 | a string `Teams` value with one `'` between two plain texts comes out as the two texts joined |
| DictText.ExampleStrTeams | comics_net/analyzer.py:144-148 | `{"Teams": "O'Neil"}` gives `ONeil`, with no quotes |
| DictText.CleanDropsQuote | comics_net/analyzer.py:147 | a `'` between two plain texts is removed and nothing else changes |
| DictText.CleanRepr | comics_net/analyzer.py:143-149 | for values without quotes, braces, commas or escapes, stripping `{`, `}` and `'` from `str()` and writing `,` as `;` gives the flat rendering: `k: v` pairs joined with `; ` |
| DictText.CleanChar | comics_net/analyzer.py:145-148 | the four replacements drop `{`, `}` and `'`, write `,` as `;` and keep every other character |
| DictText.CleanConcat | comics_net/analyzer.py:145-148 | the four replacements work character by character |
| DictText.ConvertTeamOfTwo | comics_net/analyzer.py:138-149 | a team of two members renders as `team: k1: v1; k2: v2` |
| DictText.ExampleConvert | comics_net/test_analyzer.py:76-81 | the Justice League dict gives `Justice League: Batman: Bruce Wayne; Superman: Clark Kent` |
| Ndiff.DiffStrings | comics_net/analyzer.py:152-161 | the loop collects the character of every `+` line of the diff |
| Ndiff.DiffStringsBounds | comics_net/analyzer.py:152-161 | for any edit script from `a` to `b`, the result is a subsequence of `b` of length at least `|b| - |a|`, and is `b` itself when `a` is empty |
| Ndiff.AdditionsFromAfter | comics_net/analyzer.py:158-160 | the added characters appear in the second string, in order |
| Ndiff.LineText | comics_net/analyzer.py:159-160 | a diff line is three characters whose first is `+` exactly for an addition, and whose third is the character |
| Ndiff.ExampleDiffStrings | comics_net/test_analyzer.py:84-89 | with the edit script that keeps `Hello` and adds the rest (the one `ndiff` writes for this pair), `Hello` against `Hello World!` adds ` World!`, and the reverse script adds nothing |
| DepthScan.BracketContents | comics_net/analyzer.py:170-189 | the depth-counting loop computes `ContentSpans`, whose ranges are exactly the top-level bracket pairs (`ContentSpansIff`) |
| DepthScan.ContentSpansEnclosed | comics_net/analyzer.py:176-189 | every content lies between a `[` and a `]` with balanced brackets between them, and the contents are in order without overlap |
| DepthScan.ScanKeepsInv | comics_net/analyzer.py:176-189 | the scan invariant (depth, pending start, spans found) holds after every character |
| DepthScan.DepthIsNet | comics_net/analyzer.py:176-187 | the depth counter is the number of `[` minus the number of `]` read so far |
| DepthScan.SpansGrow | comics_net/analyzer.py:185-188 | the scan only appends contents |
| DepthScan.ScanOpensAtTop | comics_net/analyzer.py:179-181 | every content, recorded or pending, starts just after a `[` read at depth zero |
| DepthScan.InsidePair | comics_net/analyzer.py:176-188 | inside a well-nested pair opened at depth zero, the scan keeps the start and records nothing until the closing `]` |
| DepthScan.RecordedPair | comics_net/analyzer.py:176-189 | a recorded content lies between a `[` read at depth zero and its closing `]`, with well-nested text between |
| DepthScan.PairRecorded | comics_net/analyzer.py:176-189 | every well-nested pair opened at depth zero is recorded |
| DepthScan.ContentSpansIff | comics_net/analyzer.py:170-189 | a range is recorded exactly when it lies between a `[` read at depth zero and the `]` that closes it |
| DepthScan.SinglePair | comics_net/analyzer.py:176-189 | one pair of brackets gives the one content between them |
| DepthScan.NoCloseNoSpan | comics_net/analyzer.py:183-188 | characters other than `]` add no content |
| DepthScan.ExampleNested | comics_net/analyzer.py:176-189 | `A [b [c] d]` gives the one outer content `b [c] d` |
| DepthScan.ExampleDangling | comics_net/analyzer.py:176-189 | `Team [A; B` gives no content |
| CreditParser.Classified | comics_net/analyzer.py:195-205 | defines the classification after `n` contents: none gives two empty dicts; a content without `;` is put among the individuals, one with more than one `;` among the teams, both under the name before its bracket, and one with exactly one `;` is passed over |
| CreditParser.Classify | comics_net/analyzer.py:191-205 | the classification loop builds the `Teams` and `Individuals` dicts that `Classified` describes; what each name maps to is stated by `ClassifiedTeamGet` and `ClassifiedIndividualGet`, and the order of the `Teams` keys (each team name once, in the order it was first filed) by `ClassifiedKeys` |
| CreditParser.ClassifiedTeam | comics_net/analyzer.py:195-205 | every team entry is the name before some content with more than one `;`, mapped to that content's non-empty `; `-separated members |
| CreditParser.ClassifiedValid | comics_net/analyzer.py:195-205 | both dicts keep their keys distinct |
| CreditParser.LastFiled | comics_net/analyzer.py:195-205 | the last content filed under a name, if any, with no later one filed under it, and `None` only when none is |
| CreditParser.ClassifiedTeamGet | comics_net/analyzer.py:195-205 | `Teams[w]` holds the members of the last content with more than one `;` whose name is `w`, and `w` is absent when there is none; a content with exactly one `;` never reaches either dict |
| CreditParser.FirstFiled | comics_net/analyzer.py:195-205 | the first content filed under a name, if any, with no earlier one filed under it, and `None` only when none is |
| CreditParser.TeamNames | comics_net/analyzer.py:202-205 | the team names of the first `n` contents are pairwise distinct |
| CreditParser.TeamNamesFirstFiled | comics_net/analyzer.py:202-205 | a name is a team name exactly when some content with more than one `;` is filed under it, and the team names are ordered by the index of the first such content |
| CreditParser.ClassifiedKeys | comics_net/analyzer.py:202-205 | iterating `Teams` yields the team names in the order each was first filed; a later content under a name already present does not move it |
| CreditParser.KeysStep | comics_net/analyzer.py:202-205 | one loop step appends a newly filed team name to the keys and leaves them alone otherwise |
| CreditParser.TeamMembers | comics_net/analyzer.py:202-205 | defines what the classification leaves under a team name: the members of its last-filed content, or nothing |
| CreditParser.ClassifiedValues | comics_net/analyzer.py:215-217 | the values of `Teams`, in key order, are the members of the last content filed under each team name |
| CreditParser.CharacterListTeamOrder | comics_net/analyzer.py:164-221 | the result is each team's members (teams in first-filing order, each with its last-filed content's members) followed by the remainder |
| CreditParser.ClassifiedIndividualGet | comics_net/analyzer.py:195-200 | `Individuals[w]` holds the last content without `;` whose name is `w`, and `w` is absent when there is none |
| CreditParser.ClassifiedNoTeam | comics_net/analyzer.py:195-205 | without a content of more than one `;`, `Teams` stays empty |
| CreditParser.ClassifiedGood | comics_net/analyzer.py:204 | every team member is non-empty and holds no `; ` |
| CreditParser.CharacterList | comics_net/analyzer.py:164-221 | defines `convert_characters_to_list`: disambiguate, scan, classify, render the teams, diff that rendering against the text, and list the team members followed by the remainder |
| CreditParser.TeamString | comics_net/analyzer.py:207 | defines `team_string` as `convert_character_dict_to_str` of `character_dict`, which has the `Teams` key |
| CreditParser.Remainder | comics_net/analyzer.py:209-211 | defines the remainder: the characters the diff adds, split at `; `, without empty pieces |
| CreditParser.Flatten | comics_net/analyzer.py:16 | defines `flatten`: the sublists concatenated in order |
| CreditParser.ConvertCharactersToList | comics_net/analyzer.py:164-221 | the method computes `CharacterList` |
| CreditParser.TeamLists | comics_net/analyzer.py:215-217 | the loop over `Teams` collects its member lists in insertion order |
| CreditParser.CharacterListGood | comics_net/analyzer.py:164-221 | every character returned is non-empty and holds no `; ` |
| CreditParser.CharacterListNoTeam | comics_net/analyzer.py:164-221 | without a team, and given a diff that is an edit script, the result is the disambiguated string split at `; `, without empty pieces |
| CreditParser.FlattenMembers | comics_net/analyzer.py:16 | `x` is in the flattened list exactly when it is in one of the sublists |
| CreditParser.FlattenGood | comics_net/analyzer.py:16 | flattening lists of good names gives good names |
| CreditParser.RemainderGood | comics_net/analyzer.py:209-211 | the remainder's pieces are non-empty and hold no `; ` |
| CreditParser.TeamStringNoTeam | comics_net/analyzer.py:207 | with no team, the team string is empty |
| CreditParser.TeamStringFlat | comics_net/analyzer.py:207 | for plain names, the team string is the flat rendering of the teams |
| CreditParser.CharacterDict | comics_net/analyzer.py:191-193 | `character_dict` has exactly two keys, `Teams` first, then `Individuals` |
| Webscraper.GetBrackets | comicvision/webscraper.py:322-330 | a returned value is bracket text |
| Webscraper.GetBracketsMeaning | comicvision/webscraper.py:322-330 | `None` exactly when no substring is bracket text; otherwise the value occurs at a position before which no bracket text starts |
| Webscraper.GetBracketsFirstOccurrence | comicvision/webscraper.py:344 | the first occurrence of the bracket text is where the match was found, so `split(brackets)[0]` is the text before the match |
| Webscraper.StripBrackets | comicvision/webscraper.py:333-348 | defines `strip_brackets`: without bracket text, the title cut at its first `--`; with it, the stripped text before the first occurrence of the bracket text, cut at its first `--` |
| Webscraper.StripBracketsNoDash | comicvision/webscraper.py:333-348 | the result never holds `--` |
| Webscraper.CutDashNoDash | comicvision/webscraper.py:339-340 | `split("--")[0].strip()` holds no `--` |
| Webscraper.StripBracketsPlain | comicvision/webscraper.py:333-342 | a title with no bracket text and no `--` comes back unchanged |
| Webscraper.StripBracketsBefore | comicvision/webscraper.py:343-348 | with brackets, the result is the stripped text before the first match, cut at its first `--` |
| Webscraper.ExampleStripBrackets | comics_net/test_webscraper.py:226-227 | `Action Comics [Direct]` gives `Action Comics` |
| Webscraper.IsReprinting | comicvision/webscraper.py:351-374 | defines `is_reprinting` as a test for one of the thirteen printing phrases |
| Webscraper.IsNewsstandOrCanadian | comicvision/webscraper.py:377-386 | defines `is_newsstand_or_canadian` as a test of the lower-cased title for `newsstand`, `canadian`, `whitman` or `british ` |
| Webscraper.IsVariant | comicvision/webscraper.py:389-393 | defines `is_variant` as a test of the lower-cased title for `variant` |
| Webscraper.IsRedundant | comicvision/webscraper.py:396-405 | defines `is_redundant`: `None` is not redundant; a title is when it is a reprint, a newsstand or Canadian edition or a variant, or mentions `cover` without `direct` |
| Webscraper.AnyInIff | comicvision/webscraper.py:355-374 | a chain of `in` tests joined with bitwise or holds exactly when one phrase occurs |
| Webscraper.IsReprintingIff | comicvision/webscraper.py:351-374 | a title is a reprint exactly when it contains one of the thirteen printing phrases |
| Webscraper.NotReprinting | comicvision/webscraper.py:351-374 | a title without a capital `P`, or shorter than twelve characters, is no reprint |
| Webscraper.LowerNotReprinting | comicvision/webscraper.py:351-374 | a lower-cased title is never a reprint, since the phrases are case-sensitive |
| Webscraper.CaseInsensitive | comicvision/webscraper.py:377-393 | the newsstand and variant tests ignore letter case |
| Webscraper.RedundantCase | comicvision/webscraper.py:396-405 | of the redundancy tests, only the reprint test depends on letter case |
| Webscraper.ExampleReprinting | comicvision/webscraper.py:351-374 | `[2nd Printing]` is a reprint; `[Direct]` is not |
| Webscraper.ExampleDirect | comics_net/test_webscraper.py:244-245 | `Action Comics #854 [Direct]` is not redundant |
| Webscraper.NotRedundantLetters | comicvision/webscraper.py:396-405 | a title without `P`, `w`, `b` or `v` (in any case) and without `canadian` is not redundant |
| Webscraper.GetVariantCoverName | comicvision/webscraper.py:432-440 | defines `get_variant_cover_name`: `Original` without bracket text, else the bracket text with every `[` and `]` removed |
| Webscraper.VariantNameNoBrackets | comicvision/webscraper.py:432-440 | the variant name holds no `[` and no `]` |
| Webscraper.VariantNameContent | comicvision/webscraper.py:432-440 | when the bracket text holds no inner `[`, the name is the text between the brackets |
| Webscraper.VariantNameOriginal | comicvision/webscraper.py:436-438 | without bracket text the name is `Original` |
| Webscraper.VariantNameAt | comicvision/webscraper.py:432-440 | the name is the text between the first `[` and the `]` closing it |
| Webscraper.ExampleVariantName | comics_net/test_webscraper.py:279-283 | `Action Comics [Sean MacRae Variant]` gives `Sean MacRae Variant` |
| Webscraper.NonRedundantHrefs | comicvision/webscraper.py:305-319 | defines the filter of the gallery links: keep `/issue/` links that are not `/cover/` links, pair each with its bracket text, drop the redundant ones |
| Webscraper.IssueLinks | comicvision/webscraper.py:313-315 | every link kept points to an `/issue/` page and not to a `/cover/` page |
| Webscraper.NotRedundant | comicvision/webscraper.py:319 | no kept entry is redundant |
| Webscraper.NonRedundantHrefsIsKept | comicvision/webscraper.py:313-319 | the three-stage pipeline equals a single pass that keeps each link by the `Kept` test |
| Webscraper.KeptLinksMembers | comicvision/webscraper.py:313-319 | every entry returned comes from an issue link with a non-redundant bracket text, and every such link is returned |
| Webscraper.GetIssueTitle | comicvision/webscraper.py:113-124 | defines `get_issue_title` on the `<title>` text: drop the newlines, strip, take the last piece of the split at ` :: `, write `/` as a vertical bar |
| Webscraper.IssueTitleChars | comicvision/webscraper.py:113-124 | the title holds no `/` and no newline |
| Webscraper.IssueTitlePlain | comicvision/webscraper.py:113-124 | a stripped title with no newline, `/` or ` :: ` comes back unchanged |
| Webscraper.IssueTitleSegment | comicvision/webscraper.py:113-124 | the title is the text after the ` :: ` the trimmed line was last cut at (the whole line when it has none), with `/` written as a vertical bar; no ` :: ` starts inside that text, and the title holds no ` :: ` |
| Webscraper.IssueTitleOneCut | comicvision/webscraper.py:113-124 | a trimmed title with a single ` :: ` gives the text after it, with `/` written as a vertical bar |
| Webscraper.ExampleIssueTitle | comicvision/webscraper.py:113-124 | `Comics :: Batman / Superman` gives `Batman / Superman` with the slash written as a vertical bar |
| PyText.SplitLast | comicvision/webscraper.py:122 | the last piece of `split(sep)` follows the separator occurrence it was cut at, or is the whole text, and no separator occurrence starts inside it |

## Left out

- The file I/O of `search_row`, `replace_line` and `update_label`: lines are a
  sequence of strings (or an array for the in-place update), and opening,
  reading and writing files is not modelled. `update_label` itself is left out,
  beyond `AnalyzerUtil.ReplaceFoundRow`.
- `difflib.ndiff`'s alignment: `diff_strings` takes the diff as a function
  parameter. The properties assume only that it yields an edit script from the
  first string to the second. Which script difflib's heuristics choose is not
  modelled.
- `repr` of characters at or above U+0100: whether Python finds them printable
  depends on the Unicode database. `PyRepr.NeedsHex` covers only the Latin-1
  range.
- `\d`, `\w` and `\b` are modelled on ASCII, and `str.lower()` lower-cases only
  ASCII letters. Python's Unicode classes and case mappings are not modelled.
- AnalyzerUtil.GetIssueNumberFromTitle returns an unbounded `nat` for
  `np.int`, and `NaN` for `np.nan`. The code's `np.int` no longer exists in
  current NumPy; the model follows its old meaning, Python's `int`.
- The `results` list of `convert_characters_to_list` is never read, so it is
  not modelled. `Individuals` is filled and then overwritten; the model keeps
  the filling in `Classified` and returns the remainder as the code does.
- DictText.ConvertCharacterDictToStr gives `None` for the cases where the code
  raises, and `DictText.Lookup` takes the first entry with a key. A Python
  dict never holds a key twice, so nothing else arises.
- CreditParser.CharacterListNoTeam: the test case of `convert_characters_to_list`
  is proved only in this general form (for no team and any edit script), not
  for the literal credit string.
- The BeautifulSoup parsing of comicvision/webscraper.py: the `(text, href)`
  pairs of the cover gallery and the title string are parameters. Fetching
  pages, `is_duplicate` (which reads a metadata file), the metadata and credit
  scrapers and the image helpers of analyzer.py are left out.
- Webscraper.GetIssueTitle takes the contents of the `<title>` element as a
  string. An absent `<title>` raises in the code and is not modelled.
