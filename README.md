# Version and requirement engine of dep_snoop

This project is a Dafny model of `dep_snoop/requirements_parser.py`. That module implements PEP 440-style
versions and requirement strings for a dependency scanner. Each file holds one module:

- `options.dfy` (`Options`): the `Option` datatype. `None` stands for Python's `None` and for a
  raised exception.
- `pystr.dfy` (`PyStr`): the Python string operations the module relies on:
  - `str.split()`, `str.split(sep)`, `sep.join`, `rsplit(sep, 1)[0]` and `strip()`;
  - `replace(".*", "")`, `int()` and `str()` on digit strings;
  - Python's `<=` on strings, which is code-point lexicographic.
- `versions.dfy` (`Versions`): the five `VersionTokens` and the `Version` class:
  - a scanner that does what the version regex does under `re.match`;
  - the acceptance test of `__init__` and the rendering of `__str__`;
  - `__eq__`, and the `__lt__` loop as a method;
  - the comparisons that `functools.total_ordering` derives.
- `builder.dfy` (`Builder`): `VersionBuilder`:
  - `cleanNoneFromDict` filtering;
  - `strip_least_significant`, `increment_least_significant` and `_increment`.
- `comparators.dfy` (`Comparators`): `VersionComparator`. That is the lookup table `get`, and what each
  comparator lambda evaluates to, `~=` included.
- `requirements.dfy` (`Requirements`): `Requirement`:
  - the operator regex and `_extract_predicate_helper`;
  - `re.findall(r'\((.*?) *\)', ...)`;
  - the nested loops of `_build_version_check`, as two methods;
  - the constructor and `check_compatible`.
- `scenarios.dfy` (`Scenarios`): the expectations of `tests/requirements_parser.py`, and a few
  consequences of the model shown on concrete versions.

Modelling decisions:

- **Acceptance.** A version string is accepted by `matches.group() is version.strip()`, an object
  identity test. In CPython both sides are the very object passed in exactly when:
  - the regex matches the whole string, and
  - `strip()` removes nothing.

  There is one more case. Both sides can be the same cached one-character string. That happens when
  the match is a single digit and everything after it is whitespace, so `"7 "` is accepted with
  release `"7"`. `Versions.Parse` accepts exactly these two cases, and `Versions.ParseAccepts` states
  it. Read as a plain "is the whole string a version" test, the second case would be rejected; the
  model follows the code.
- **Versions.** A `Version` keeps the raw string (used only by `===`) and its tokens. Every present
  token is the matched text verbatim. The epoch keeps its `!`; the post and dev releases keep `.post`
  and `.dev`.
- **Errors.** `build_from_string` returns `None` for an invalid string. A clause built from such a
  string keeps `None` as its target (`Clause.target: Option<Version>`). Evaluating that clause raises
  `AttributeError`, so `Compare` returns `None` for every comparator. Likewise:
  - `_increment` returns `None` on a post or dev token, which makes the `join` raise;
  - `check_compatible` raises as soon as one predicate raises.

  All of these are `None` of an `Option<bool>` or `Option<Version>`. `and` and `all` short-circuit,
  and the model keeps that order, so a false clause ahead of a failing one gives `Some(false)`.
- **Ordering.** `__lt__` is not lexicographic over fields. It is a field-by-field product order:
  - absent is the least value for epoch and release;
  - absent is the greatest value for prerelease, post and dev;
  - present values are compared as text.

  So the order is partial (`Scenarios.NotTotal`), `1.10 < 1.9` and `1.2.post1 < 1.2`.
- **Operators.** The operator alternation tries `==` before `===`. `Requirements.MatchOperatorNeverExact`
  shows `===` is never chosen, so the `.*` downgrade of `===` to `>=` in `_extract_predicate_helper`
  is dead code. `ExtractPredicate` still models it.

## Model

| member | source | states |
|---|---|---|
| PyStr.LexLeIff | dep_snoop/requirements_parser.py:39-41 | Python's `<=` on two strings holds exactly when the first is a prefix of the second or, at the first position where they differ, has the smaller character |
| PyStr.LexLeReflexive | dep_snoop/requirements_parser.py:39-41 | every string is `<=` itself |
| PyStr.LexLeAntisymmetric | dep_snoop/requirements_parser.py:39-41 | two strings each `<=` the other are equal |
| PyStr.LexLeTransitive | dep_snoop/requirements_parser.py:39-41 | string `<=` is transitive |
| PyStr.LexLeTotal | dep_snoop/requirements_parser.py:39-41 | any two strings are comparable under `<=` |
| PyStr.ValueOfNatToString | dep_snoop/requirements_parser.py:112 | `int(str(n)) == n` for every natural number |
| PyStr.JoinSplit | dep_snoop/requirements_parser.py:111-113 | joining the pieces of `s.split(sep)` with `sep` gives `s` back |
| PyStr.SplitJoin | dep_snoop/requirements_parser.py:111-113 | splitting a join of one or more separator-free pieces gives the pieces back |
| PyStr.SplitLast | dep_snoop/requirements_parser.py:111-112 | the last piece of `split(sep)` is the text after the last separator |
| PyStr.RSplitHeadIsInit | dep_snoop/requirements_parser.py:84 | `rsplit(sep, 1)[0]` is the whole string when there is no separator, and otherwise the join of all pieces of `split(sep)` but the last |
| PyStr.StripToFirst | dep_snoop/requirements_parser.py:25 | a string that starts with a non-space strips to its first character exactly when everything after that character is whitespace |
| PyStr.WordsEmpty | dep_snoop/requirements_parser.py:145-146 | `split()` returns no word exactly when the string is all whitespace |
| PyStr.FirstWord | dep_snoop/requirements_parser.py:145-146 | the first word of `split()` runs from the first non-space character up to the next whitespace |
| PyStr.TwoWords | dep_snoop/requirements_parser.py:145 | `split()` of two words with a space between gives the two words back |
| PyStr.RemoveDotStarUnchanged | dep_snoop/requirements_parser.py:173-174 | removing `.*` changes nothing in a string that does not contain it |
| PyStr.RemoveDotStarShrinks | dep_snoop/requirements_parser.py:173-174 | removing `.*` from a string that contains it makes it strictly shorter |
| Versions.MatchVersionSound | dep_snoop/requirements_parser.py:22-24 | a regex match covers a non-empty prefix of the string, its groups are well-formed tokens, and the tokens render to exactly that prefix |
| Versions.MatchVersionComplete | dep_snoop/requirements_parser.py:22-24 | on the rendering of any well-formed tokens, the regex matches the whole string and returns exactly those tokens |
| Versions.ParseAccepts | dep_snoop/requirements_parser.py:22-30 | `Version(s)` succeeds exactly when `s` is in the version grammar, or is one digit followed only by whitespace |
| Versions.ParseSound | dep_snoop/requirements_parser.py:20-30 | an accepted version keeps its raw string, has well-formed tokens, and its tokens render to `s.strip()` |
| Versions.ParseRender | dep_snoop/requirements_parser.py:20-28 | round trip: `Version(str(t))` succeeds, with tokens `t`, for all well-formed tokens `t` |
| Versions.RenderParse | dep_snoop/requirements_parser.py:54-66 | round trip: `str(Version(s))` is `s.strip()`, and is `s` itself when `s` is in the grammar |
| Versions.PaddedDigitParses | dep_snoop/requirements_parser.py:25 | a single digit followed only by whitespace is accepted, with that digit as its release |
| Versions.ParseRelease | dep_snoop/requirements_parser.py:22-28 | a bare release parses to tokens holding only that release |
| Versions.RenderStripped | dep_snoop/requirements_parser.py:54-66 | the rendering of well-formed tokens has no surrounding whitespace |
| Versions.ToString | dep_snoop/requirements_parser.py:54-66 | `__str__`'s accumulation loop returns the present tokens concatenated in field order |
| Versions.EntriesPass | dep_snoop/requirements_parser.py:35-41 | the per-entry tests of the `__lt__` loop over the five entries are exactly the field rules of the order |
| Versions.LessThan | dep_snoop/requirements_parser.py:32-43 | the `__lt__` loop, with its early return, computes `a < b`: every field passes its rule and the versions are not equal |
| Versions.EqIsTokenEquality | dep_snoop/requirements_parser.py:45-48 | `==` holds exactly when all five tokens are equal; the raw strings are ignored |
| Versions.LtIsProductOrder | dep_snoop/requirements_parser.py:32-43 | `a < b` exactly when every field of `a` is at most that of `b` and the tokens differ |
| Versions.FieldsAtMostReflexive | dep_snoop/requirements_parser.py:35-41 | every field rule holds between a version and itself |
| Versions.FieldsAtMostAntisymmetric | dep_snoop/requirements_parser.py:35-41 | tokens whose fields are each at most the other's are equal |
| Versions.LtIrreflexive | dep_snoop/requirements_parser.py:15 | `v < v` is false, while `v <= v` and `v >= v` hold and `v > v` does not |
| Versions.LtAsymmetric | dep_snoop/requirements_parser.py:32-43 | `a < b` and `b < a` never hold together |
| Versions.LtTransitive | dep_snoop/requirements_parser.py:32-43 | `<` is transitive, so it is a strict partial order |
| Versions.GtOfLt | dep_snoop/requirements_parser.py:15 | under the comparisons `total_ordering` derives, `b < a` gives `a > b` and `a >= b`, and rules out `a <= b` |
| Builder.CleanNoneMembers | dep_snoop/requirements_parser.py:12-13 | the `None` filter keeps exactly the entries whose value is present, unwrapped |
| Builder.ReleasePresent | dep_snoop/requirements_parser.py:80 | the release entry always survives the filter |
| Builder.ConcatCleanNone | dep_snoop/requirements_parser.py:86 | joining the values of the filtered entries concatenates the present values in order |
| Builder.PresentEntries | dep_snoop/requirements_parser.py:80-81 | the last filtered entry is the least significant present token, and the entries before it render what precedes that token |
| Builder.StripText | dep_snoop/requirements_parser.py:80-86 | the text `strip_least_significant` joins is the rendering of the stripped tokens |
| Builder.StripSpec | dep_snoop/requirements_parser.py:77-86 | stripping a well-formed version never fails: it is the version of the tokens with the least significant token removed, or with the release cut at its last dot when the release is last |
| Builder.StrippedWellFormed | dep_snoop/requirements_parser.py:84 | stripping keeps tokens well-formed |
| Builder.RSplitHeadRelease | dep_snoop/requirements_parser.py:84 | cutting a release at its last dot leaves a release |
| Builder.StripSingleComponent | dep_snoop/requirements_parser.py:84 | a version that is a one-component release strips to itself |
| Builder.StrippedOrder | dep_snoop/requirements_parser.py:77-86 | when stripping changes a version: dropping a dev, post or prerelease token gives a greater version, and cutting the release gives a smaller one |
| Builder.SuccessorValue | dep_snoop/requirements_parser.py:112 | `str(int(n) + 1)` is a numeral whose value is one more than `n`'s |
| Builder.IncrementNumeralsSpec | dep_snoop/requirements_parser.py:111-113 | incrementing numerals keeps everything up to the last dot and replaces the last component by its successor |
| Builder.IncrementRelease | dep_snoop/requirements_parser.py:106-113 | `_increment` on a release succeeds and gives a release with the same dots, where only the last component changes, by one |
| Builder.BumpReleaseSpec | dep_snoop/requirements_parser.py:106-113 | an incremented release is the release up to its last dot followed by the successor of the last component |
| Builder.IncrementPrerelease | dep_snoop/requirements_parser.py:107-113 | `_increment` drops the letters of a prerelease and returns its number plus one |
| Builder.IncrementTagFails | dep_snoop/requirements_parser.py:107-110 | `_increment` returns `None` on a `.post` or `.dev` token |
| Builder.IncrementedWellFormed | dep_snoop/requirements_parser.py:98-103 | incremented tokens are well-formed |
| Builder.IncrementLast | dep_snoop/requirements_parser.py:100-103 | on a version ending in its release or prerelease, the text before the popped token plus `_increment` of it renders the incremented tokens |
| Builder.IncrementSpec | dep_snoop/requirements_parser.py:98-103 | `increment_least_significant` fails exactly when the version has a post or dev release; otherwise it gives the version of the incremented tokens (prerelease replaced by its number plus one, or last release component plus one) |
| Comparators.GetGroupName | dep_snoop/requirements_parser.py:118-129 | `get` finds every comparator under its own group name and under no other name |
| Comparators.CompatibleSpec | dep_snoop/requirements_parser.py:138-139 | `x ~= y` is false below `y`; otherwise it raises exactly when `y` has both a post and a dev release, and else it is whether `x` lies below the upper bound |
| Comparators.UpperBoundOfRelease | dep_snoop/requirements_parser.py:138-139 | for a version that ends in its release, the `~=` upper bound drops the last release component and increments the one before it |
| Comparators.CompatibleImpliesGe | dep_snoop/requirements_parser.py:138 | `x ~= y` implies `x >= y` |
| Comparators.CompareDefined | dep_snoop/requirements_parser.py:131-139 | only `~=` can raise on a present target |
| Comparators.ComplementaryComparators | dep_snoop/requirements_parser.py:131-136 | `!=` negates `==` and `>=` negates `<`; `<=` and `>` never both hold; `<=` is `<` or `==`, and `>=` is `>` or `==` |
| Requirements.MatchOperatorNone | dep_snoop/requirements_parser.py:165-169 | the operator regex fails exactly when no operator symbol starts the piece |
| Requirements.MatchOperatorNeverExact | dep_snoop/requirements_parser.py:165-166 | the `eq` group (`===`) is never the one matched |
| Requirements.MatchOperatorLongest | dep_snoop/requirements_parser.py:165-166 | when an operator other than `===` starts the piece, the matched operator is at least as long, so `<=` wins over `<` and `>=` over `>` |
| Requirements.ExtractPredicateSpec | dep_snoop/requirements_parser.py:163-181 | a piece yields a clause exactly when an operator starts it; the clause compares with that operator against the rest of the piece, every `.*` removed, parsed as a version |
| Requirements.ExtractRelease | dep_snoop/requirements_parser.py:171-180 | an operator other than `===` followed by a bare release gives a clause against that release |
| Requirements.FindGroups | dep_snoop/requirements_parser.py:153 | no group found by `findall` holds `)` or a newline or ends in a space |
| Requirements.NoParenNoGroups | dep_snoop/requirements_parser.py:153 | without `(` there are no groups |
| Requirements.FindGroupsSkip | dep_snoop/requirements_parser.py:153 | characters other than `(` start no match: the search moves past them |
| Requirements.FindGroupsMatch | dep_snoop/requirements_parser.py:153 | a `(` whose first later `)` comes before any newline gives the text between them, less the spaces before the `)`, and the search resumes after that `)` |
| Requirements.FindGroupsOfGroup | dep_snoop/requirements_parser.py:153 | in text without `(`, then `(g)`, then anything, the first group is exactly `g` when `g` holds no `)` or newline and does not end in a space, and the search resumes right after its `)` |
| Requirements.FindGroupsOfWord | dep_snoop/requirements_parser.py:153 | a word `(g)` with no whitespace or `)` in `g` yields exactly the group `g` |
| Requirements.PiecesClausesLength | dep_snoop/requirements_parser.py:155-160 | a group never gives more clauses than it has comma-separated pieces |
| Requirements.PiecesClausesAll | dep_snoop/requirements_parser.py:155-160 | when every piece starts with an operator, the clauses line up with the pieces, each the one extracted from its piece |
| Requirements.PiecesClausesFrom | dep_snoop/requirements_parser.py:155-160 | every clause is the one extracted from some piece |
| Requirements.ReleasePiecesClauses | dep_snoop/requirements_parser.py:155-160 | pieces that are each an operator other than `===` followed by a release give one clause each, in order, comparing with that release |
| Requirements.ClausesOfGroup | dep_snoop/requirements_parser.py:150-161 | the clauses of the single word `(g)` are those of the comma-separated pieces of `g` |
| Requirements.NoParenNoClauses | dep_snoop/requirements_parser.py:150-161 | a requirement without `(` has no clauses |
| Requirements.GroupClauses | dep_snoop/requirements_parser.py:156-160 | the inner loop collects, in order, the clauses of the comma-separated pieces of one group |
| Requirements.BuildVersionCheck | dep_snoop/requirements_parser.py:150-161 | the outer loop collects the clauses of every parenthesised group of the concatenated words, in order |
| Requirements.NewRequirement | dep_snoop/requirements_parser.py:142-148 | the constructor fails on an empty or whitespace-only string; otherwise it takes the first word as the name and builds the clauses from the rest |
| Requirements.ParseRequirementSpec | dep_snoop/requirements_parser.py:142-148 | a requirement string is rejected exactly when it is all whitespace; otherwise its name is its first word and it keeps the string |
| Requirements.WordsOfGroup | dep_snoop/requirements_parser.py:145-146 | the words of `name (spec)` are the name and `(spec)` |
| Requirements.RequirementOfGroup | dep_snoop/requirements_parser.py:142-161 | `Requirement("name (spec)")`, with no whitespace or `)` in `spec`, has that name, the clauses of the comma-separated pieces of `spec`, and keeps the string |
| Requirements.RequirementOfReleases | dep_snoop/requirements_parser.py:142-181 | `Requirement("name (op1r1,...,opnrn)")`, each `opi` an operator other than `===` and each `ri` a release, has one clause per piece, in order, comparing with its release |
| Requirements.CheckTrue | dep_snoop/requirements_parser.py:161 | the check passes exactly when every clause holds |
| Requirements.CheckFalse | dep_snoop/requirements_parser.py:161 | the check fails exactly when some clause is false and every clause before it holds |
| Requirements.NoClausesAcceptAll | dep_snoop/requirements_parser.py:161 | a requirement without clauses accepts every version |
| Scenarios.ValidRelease | tests/requirements_parser.py:7-9 | `1.2.3` parses with release `1.2.3` |
| Scenarios.ValidPrerelease | tests/requirements_parser.py:11-14 | `1.2.3rc3` parses with release `1.2.3` and prerelease `rc3` |
| Scenarios.InvalidTag | tests/requirements_parser.py:16-18 | `1.2.3abc3` is rejected |
| Scenarios.InvalidEmpty | tests/requirements_parser.py:20-22 | the empty string is rejected |
| Scenarios.InvalidEpochOnly | tests/requirements_parser.py:24-26 | `1!` is rejected |
| Scenarios.InvalidDevOnly | tests/requirements_parser.py:28-30 | `dev3` is rejected |
| Scenarios.InvalidPostOnly | tests/requirements_parser.py:48-49 | `.post0` is rejected |
| Scenarios.Ordering | tests/requirements_parser.py:36-44 | `1.2 < 1.3`, and `1.2 > 1.2rc1` |
| Scenarios.NotTotal | dep_snoop/requirements_parser.py:32-43 | `1.2rc1` and `1.3.dev1` are each greater than the other |
| Scenarios.TextualRelease | dep_snoop/requirements_parser.py:39-41 | `1.10 < 1.9`, because releases are compared as text |
| Scenarios.PostBeforeRelease | dep_snoop/requirements_parser.py:39 | `1.2.post1 < 1.2` |
| Scenarios.StripDevExample | tests/requirements_parser.py:57-62 | stripping `3!1.2.3a2.dev4` gives `3!1.2.3a2` |
| Scenarios.StripReleaseExample | tests/requirements_parser.py:64-69 | stripping `1.2.3` gives `1.2` |
| Scenarios.BumpExample | tests/requirements_parser.py:51-55 | `_increment("1.2.3")` is `1.2.4` |
| Scenarios.IncrementExample | tests/requirements_parser.py:51-55 | incrementing `3!1.2.3` gives `3!1.2.4` |
| Scenarios.UpperExample | dep_snoop/requirements_parser.py:138-139 | the upper bound of `~= 1.1` is `2` |
| Scenarios.CompatibleBounds | tests/requirements_parser.py:73-77 | `1.2.4.5.6.7` is at least `1.1` and below `2` |
| Scenarios.CompatibleExample | tests/requirements_parser.py:73-77 | `1.2.4.5.6.7 ~= 1.1` holds |
| Scenarios.UrllibRequirement | tests/requirements_parser.py:81 | `Requirement("urllib3 (!=1.25.1,<1.26,!=1.25.0,>=1.21.1)")` has the name `urllib3` and the clauses `!=1.25.1`, `<1.26`, `!=1.25.0`, `>=1.21.1`, in that order |
| Scenarios.UrllibCheck | tests/requirements_parser.py:80-84 | the requirement parsed from `urllib3 (!=1.25.1,<1.26,!=1.25.0,>=1.21.1)` accepts `1.25.2` and rejects `1.26` |

## Left out

- Logging is left out: the `log.warn` and `log.info` calls only produce output.
- Python's `re` engine is not modelled in general. Each of the four regular expressions (the
  version pattern, the `_increment` pattern, the `findall` of the groups and the operator
  pattern) is a dedicated scanner, and the scanners follow `re`'s greedy, leftmost behaviour on
  those patterns.
- The `Enum` machinery of `VersionComparator` is replaced by an exhaustive datatype, with `get` as a
  lookup on group names.
- `Version.__less_than_or_not_present` and `VersionBuilder.__build_with_filtered_tokens` are never
  called, so they are not modelled.
- `cleanNoneFromDict` is never called; the same filter appears inline in `strip_least_significant`,
  and `Builder.CleanNone` models that filter.
- The predicates of a requirement are closures; here they are `Clause` values, and `Check` evaluates them.
- `dep_snoop/package.py`, `dep_snoop/pypi_detail_crawler.py`, `dep_snoop/snoop.py`,
  `dep_snoop/purl_extractor.py` and `dep_snoop/dist_util.py` are not part of this model: they are
  data holders, network I/O, terminal output and wrappers around external libraries.
- Scenarios.ValidRelease: states that the rendering of the release-only tokens `1.2.3` parses back
  to them, rather than evaluating the parser on the literal text. The same holds for
  Scenarios.ValidPrerelease.
