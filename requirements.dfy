/** Requirements: a requirement string such as `urllib3 (!=1.25.1,<1.26)` read into a package
    name and a list of clauses, and the check that a version satisfies all clauses. */
module Requirements {
  import opened Options
  import opened PyStr
  import opened Versions
  import opened Comparators

  /** One predicate of `_build_version_check`: a comparator and the version it compares
      against, `None` when the target string was not a valid version. */
  datatype Clause = Clause(op: Comparator, target: Option<Version>)

  /** A `Requirement`: its name, the clauses behind `check_compatible`, and `raw_string`. */
  datatype Requirement = Requirement(name: string, clauses: seq<Clause>, raw: string)

  // ---------------------------------------------------------------------------
  // One clause: `_extract_predicate_helper`

  /** `re.match` of `(?:(?P<comp>~=)|(?P<match>==)|(?P<exclude>!=)|(?P<lte><=)|(?P<gte>>=)|
      (?P<lt><)|(?P<gt>>)|(?P<eq>===))`: the first alternative, in this order, that starts the
      string. */
  function MatchOperator(p: string): (r: Option<Comparator>)
    ensures r.Some? ==> IsPrefix(Symbol(r.value), p)
  {
    if IsPrefix("~=", p) then Some(Compatible)
    else if IsPrefix("==", p) then Some(Match)
    else if IsPrefix("!=", p) then Some(Exclude)
    else if IsPrefix("<=", p) then Some(LessEqual)
    else if IsPrefix(">=", p) then Some(GreaterEqual)
    else if IsPrefix("<", p) then Some(Less)
    else if IsPrefix(">", p) then Some(Greater)
    else if IsPrefix("===", p) then Some(Exact)
    else None
  }

  /** The operator regex fails exactly when no operator starts the string. */
  lemma MatchOperatorNone(p: string)
    ensures MatchOperator(p).None? <==> forall op :: !IsPrefix(Symbol(op), p)
  {
    if MatchOperator(p).Some? {
      assert IsPrefix(Symbol(MatchOperator(p).value), p);
    } else {
      forall op ensures !IsPrefix(Symbol(op), p) {
      }
    }
  }

  /** `===` is never chosen: whatever it starts, `==` starts too and comes first. */
  lemma MatchOperatorNeverExact(p: string)
    ensures MatchOperator(p) != Some(Exact)
  {
    if IsPrefix("===", p) {
      assert p[..2] == "==";
    }
  }

  /** Apart from the unreachable `===`, the chosen operator is the longest that starts the
      string: `<=` wins over `<` and `>=` over `>`. */
  lemma MatchOperatorLongest(p: string, op: Comparator)
    requires op != Exact && IsPrefix(Symbol(op), p)
    ensures MatchOperator(p).Some?
    ensures |Symbol(op)| <= |Symbol(MatchOperator(p).value)|
  {
    MatchOperatorNone(p);
  }

  /** `_extract_predicate_helper`: `None` (the `ValueError` that makes the caller skip the
      clause) when no operator starts the clause; otherwise the comparator and the version built
      from the rest of the clause, with every `.*` removed. A target that is not a valid version
      is kept as `None` (`build_from_string` only logs). The switch to `gte` for a wildcard
      `eq` clause is kept as written. */
  function ExtractPredicate(piece: string): Option<Clause>
  {
    match MatchOperator(piece)
    case None => None
    case Some(op) =>
      var rest := piece[|Symbol(op)|..];
      var text := if ContainsDotStar(rest) then RemoveDotStar(rest) else rest;
      var kind := if ContainsDotStar(rest) && op == Exact then GreaterEqual else op;
      Some(Clause(kind, Parse(text)))
  }

  /** A clause is kept exactly when an operator starts it; its comparator is that operator
      (the wildcard switch never applies) and its target is parsed from what follows the
      operator with every `.*` removed. */
  lemma ExtractPredicateSpec(piece: string)
    ensures ExtractPredicate(piece).None? <==> MatchOperator(piece).None?
    ensures ExtractPredicate(piece).Some? ==>
              var op := MatchOperator(piece).value;
              ExtractPredicate(piece).value ==
                Clause(op, Parse(RemoveDotStar(piece[|Symbol(op)|..])))
  {
    MatchOperatorNeverExact(piece);
    if MatchOperator(piece).Some? {
      var rest := piece[|Symbol(MatchOperator(piece).value)|..];
      if !ContainsDotStar(rest) {
        RemoveDotStarUnchanged(rest);
      }
    }
  }

  /** A clause that is an operator other than `===` followed by a bare release compares with
      that release. */
  lemma ExtractRelease(op: Comparator, r: string)
    requires op != Exact && IsRelease(r)
    ensures ExtractPredicate(Symbol(op) + r) == Some(Clause(op, Some(Version(r, Tokens(None, r, None, None, None)))))
  {
    var piece := Symbol(op) + r;
    assert IsPrefix(Symbol(op), piece);
    MatchOperatorLongest(piece, op);
    var found := MatchOperator(piece).value;
    assert found == op by {
      assert IsPrefix(Symbol(found), piece);
      assert piece[|Symbol(op)|] == r[0];
      if |Symbol(found)| > |Symbol(op)| {
        assert piece[|Symbol(op)|] == Symbol(found)[|Symbol(op)|];
      }
      assert piece[..|Symbol(found)|] == Symbol(found);
    }
    assert piece[|Symbol(op)|..] == r;
    assert !ContainsDotStar(r) by {
      forall k | 0 <= k < |r| - 1 ensures !(r[k] == '.' && r[k + 1] == '*') {
        assert ReleaseChar(r, k + 1, |r|);
      }
    }
    RemoveDotStarUnchanged(r);
    ExtractPredicateSpec(piece);
    ParseRelease(r);
  }

  // ---------------------------------------------------------------------------
  // The parenthesised groups: `re.findall(r'\((.*?) *\)', ...)`

  /** The first `)` at or after `i`, or -1 when a newline or the end of the string comes
      first (`.` does not match a newline). */
  function CloseParen(s: string, i: nat): (h: int)
    requires i <= |s|
    ensures h == -1 || (i <= h < |s| && s[h] == ')')
    ensures h >= 0 ==> forall k :: i <= k < h ==> s[k] != ')' && s[k] != '\n'
    decreases |s| - i
  {
    if i == |s| || s[i] == '\n' then -1
    else if s[i] == ')' then i
    else CloseParen(s, i + 1)
  }

  /** The start of the run of spaces that ends at `h`, not before `i`: the lazy group stops
      where ` *\)` can take over. */
  function TrimSpaces(s: string, i: nat, h: nat): (g: nat)
    requires i <= h <= |s|
    ensures i <= g <= h
    ensures forall k :: g <= k < h ==> s[k] == ' '
    ensures g == i || s[g - 1] != ' '
    decreases h - i
  {
    if h > i && s[h - 1] == ' ' then TrimSpaces(s, i, h - 1) else h
  }

  /** The groups `findall` returns for the matches that start at or after `i`. A `(` whose
      closing `)` is missing, or comes after a newline, starts no match. */
  function FindGroups(s: string, i: nat): (groups: seq<string>)
    requires i <= |s|
    ensures forall n :: 0 <= n < |groups| ==> ')' !in groups[n] && '\n' !in groups[n]
    ensures forall n :: 0 <= n < |groups| ==> groups[n] == [] || groups[n][|groups[n]| - 1] != ' '
    decreases |s| - i
  {
    if i == |s| then []
    else if s[i] == '(' then
      var h := CloseParen(s, i + 1);
      if h < 0 then FindGroups(s, i + 1)
      else
        var g := s[i + 1..TrimSpaces(s, i + 1, h)];
        assert forall k :: 0 <= k < |g| ==> g[k] == s[i + 1 + k];
        [g] + FindGroups(s, h + 1)
    else FindGroups(s, i + 1)
  }

  /** Without an opening parenthesis there is no group. */
  lemma {:induction false} NoParenNoGroups(s: string, i: nat)
    requires i <= |s| && forall k :: i <= k < |s| ==> s[k] != '('
    ensures FindGroups(s, i) == []
    decreases |s| - i
  {
    if i < |s| {
      NoParenNoGroups(s, i + 1);
    }
  }

  /** Characters other than `(` start no match: the search moves past them. */
  lemma {:induction false} FindGroupsSkip(s: string, i: nat, j: nat)
    requires i <= j <= |s| && forall k :: i <= k < j ==> s[k] != '('
    ensures FindGroups(s, i) == FindGroups(s, j)
    decreases j - i
  {
    if i < j {
      FindGroupsSkip(s, i + 1, j);
    }
  }

  lemma {:induction false} CloseParenAt(s: string, i: nat, h: nat)
    requires i <= h < |s| && s[h] == ')'
    requires forall k :: i <= k < h ==> s[k] != ')' && s[k] != '\n'
    ensures CloseParen(s, i) == h
    decreases h - i
  {
    if i < h {
      CloseParenAt(s, i + 1, h);
    }
  }

  /** A match at `i`: the group runs from after the `(` to the first `)`, less the spaces
      before it, and the search resumes after that `)`. */
  lemma FindGroupsMatch(s: string, i: nat, h: nat)
    requires i < h < |s| && s[i] == '(' && s[h] == ')'
    requires forall k :: i < k < h ==> s[k] != ')' && s[k] != '\n'
    ensures FindGroups(s, i) == [s[i + 1..TrimSpaces(s, i + 1, h)]] + FindGroups(s, h + 1)
  {
    CloseParenAt(s, i + 1, h);
  }

  /** `findall` on text without `(`, then `(g)`, then more text: the first group is `g` itself
      when `g` holds no `)` or newline and does not end in a space, and the search resumes
      right after its `)`. */
  lemma FindGroupsOfGroup(p: string, g: string, q: string)
    requires forall k :: 0 <= k < |p| ==> p[k] != '('
    requires forall k :: 0 <= k < |g| ==> g[k] != ')' && g[k] != '\n'
    requires g == [] || g[|g| - 1] != ' '
    ensures var s := p + "(" + g + ")" + q;
            FindGroups(s, 0) == [g] + FindGroups(s, |p| + |g| + 2)
  {
    var s := p + "(" + g + ")" + q;
    var i, h := |p|, |p| + 1 + |g|;
    assert forall k :: 0 <= k < i ==> s[k] == p[k];
    FindGroupsSkip(s, 0, i);
    assert s[i] == '(' && s[h] == ')';
    assert forall k :: i < k < h ==> s[k] == g[k - i - 1];
    FindGroupsMatch(s, i, h);
    assert TrimSpaces(s, i + 1, h) == h by {
      if h > i + 1 {
        assert s[h - 1] == g[|g| - 1];
      }
    }
    assert s[i + 1..h] == g;
  }

  /** A word that is one parenthesised group, with no whitespace and no `)` inside, yields
      exactly that group. */
  lemma FindGroupsOfWord(g: string)
    requires forall k :: 0 <= k < |g| ==> !IsSpace(g[k]) && g[k] != ')'
    ensures FindGroups("(" + g + ")", 0) == [g]
  {
    var s := "(" + g + ")";
    var h := |g| + 1;
    assert forall k :: 0 < k < h ==> s[k] == g[k - 1];
    FindGroupsMatch(s, 0, h);
    assert TrimSpaces(s, 1, h) == h by {
      if h > 1 {
        assert s[h - 1] == g[|g| - 1];
      }
    }
    assert s[1..h] == g;
  }

  // ---------------------------------------------------------------------------
  // All clauses: `_build_version_check`

  /** The clause of one piece, as a list: empty when the piece has no operator. */
  function Extracted(piece: string): (r: seq<Clause>)
    ensures |r| <= 1
  {
    match ExtractPredicate(piece)
    case None => []
    case Some(c) => [c]
  }

  /** The lists `f` gives for the elements of `xs`, concatenated in order. */
  function FlatMap<T, U>(f: T -> seq<U>, xs: seq<T>): seq<U>
    decreases |xs|
  {
    if |xs| == 0 then [] else FlatMap(f, xs[..|xs| - 1]) + f(xs[|xs| - 1])
  }

  lemma FlatMapPrefix<T, U>(f: T -> seq<U>, xs: seq<T>, j: nat)
    requires j < |xs|
    ensures FlatMap(f, xs[..j + 1]) == FlatMap(f, xs[..j]) + f(xs[j])
  {
    assert xs[..j + 1][..j] == xs[..j];
  }

  /** At most one element per list means at most one element per input. */
  lemma {:induction false} FlatMapShort<T, U>(f: T -> seq<U>, xs: seq<T>)
    requires forall m :: 0 <= m < |xs| ==> |f(xs[m])| <= 1
    ensures |FlatMap(f, xs)| <= |xs|
    decreases |xs|
  {
    if |xs| > 0 {
      FlatMapShort(f, xs[..|xs| - 1]);
    }
  }

  /** Exactly one element per list: the result lines up with the input. */
  lemma {:induction false} FlatMapSingletons<T, U>(f: T -> seq<U>, xs: seq<T>)
    requires forall m :: 0 <= m < |xs| ==> |f(xs[m])| == 1
    ensures |FlatMap(f, xs)| == |xs|
    ensures forall n :: 0 <= n < |xs| ==> [FlatMap(f, xs)[n]] == f(xs[n])
    decreases |xs|
  {
    if |xs| > 0 {
      var init := xs[..|xs| - 1];
      FlatMapSingletons(f, init);
      var r := FlatMap(f, xs);
      assert r == FlatMap(f, init) + f(xs[|xs| - 1]);
      forall n | 0 <= n < |xs| ensures [r[n]] == f(xs[n]) {
        if n < |init| {
          assert r[n] == FlatMap(f, init)[n];
          assert init[n] == xs[n];
        }
      }
    }
  }

  /** Every element of the result comes from the list of some input. */
  lemma {:induction false} FlatMapFrom<T, U>(f: T -> seq<U>, xs: seq<T>, c: U)
    requires c in FlatMap(f, xs)
    ensures exists n :: 0 <= n < |xs| && c in f(xs[n])
    decreases |xs|
  {
    var init := xs[..|xs| - 1];
    assert FlatMap(f, xs) == FlatMap(f, init) + f(xs[|xs| - 1]);
    if c in FlatMap(f, init) {
      FlatMapFrom(f, init, c);
      var n :| 0 <= n < |init| && c in f(init[n]);
      assert init[n] == xs[n];
    }
  }

  /** The clauses of the comma-separated pieces of one group, in order, pieces without an
      operator skipped. */
  function PiecesClauses(pieces: seq<string>): seq<Clause>
  {
    FlatMap(Extracted, pieces)
  }

  /** The clauses of all groups, in order. */
  function GroupsClauses(groups: seq<string>): seq<Clause>
    decreases |groups|
  {
    if |groups| == 0 then []
    else GroupsClauses(groups[..|groups| - 1]) + PiecesClauses(Split(groups[|groups| - 1], ','))
  }

  lemma PiecesClausesPrefix(pieces: seq<string>, j: nat)
    requires j < |pieces|
    ensures PiecesClauses(pieces[..j + 1]) == PiecesClauses(pieces[..j]) + Extracted(pieces[j])
  {
    FlatMapPrefix(Extracted, pieces, j);
  }

  lemma GroupsClausesPrefix(groups: seq<string>, i: nat)
    requires i < |groups|
    ensures GroupsClauses(groups[..i + 1]) ==
              GroupsClauses(groups[..i]) + PiecesClauses(Split(groups[i], ','))
  {
    assert groups[..i + 1][..i] == groups[..i];
  }

  /** The clauses `_build_version_check` builds from the words after the name: they are joined
      with nothing between them before the groups are searched. */
  function ClausesOf(words: seq<string>): seq<Clause>
  {
    GroupsClauses(FindGroups(Concat(words), 0))
  }

  /** Never more clauses than pieces. */
  lemma PiecesClausesLength(pieces: seq<string>)
    ensures |PiecesClauses(pieces)| <= |pieces|
  {
    FlatMapShort(Extracted, pieces);
  }

  /** When every piece has an operator, there is one clause per piece, each extracted from its
      piece. */
  lemma PiecesClausesAll(pieces: seq<string>)
    requires forall n :: 0 <= n < |pieces| ==> MatchOperator(pieces[n]).Some?
    ensures |PiecesClauses(pieces)| == |pieces|
    ensures forall n :: 0 <= n < |pieces| ==> Some(PiecesClauses(pieces)[n]) == ExtractPredicate(pieces[n])
  {
    FlatMapSingletons(Extracted, pieces);
    forall n | 0 <= n < |pieces| ensures Some(PiecesClauses(pieces)[n]) == ExtractPredicate(pieces[n]) {
      assert [PiecesClauses(pieces)[n]] == Extracted(pieces[n]);
    }
  }

  /** Every clause comes from a piece of the group that has an operator. */
  lemma PiecesClausesFrom(pieces: seq<string>, c: Clause)
    requires c in PiecesClauses(pieces)
    ensures exists n :: 0 <= n < |pieces| && ExtractPredicate(pieces[n]) == Some(c)
  {
    FlatMapFrom(Extracted, pieces, c);
  }

  /** A requirement without parentheses has no clauses. */
  lemma NoParenNoClauses(words: seq<string>)
    requires forall k :: 0 <= k < |Concat(words)| ==> Concat(words)[k] != '('
    ensures ClausesOf(words) == []
  {
    NoParenNoGroups(Concat(words), 0);
  }

  /** The inner loop of `_build_version_check`: the predicates of the comma-separated pieces
      of one group, a piece without an operator skipped. */
  method GroupClauses(group: string) returns (clauses: seq<Clause>)
    ensures clauses == PiecesClauses(Split(group, ','))
  {
    var pieces := Split(group, ',');
    clauses := [];
    var j := 0;
    while j < |pieces|
      invariant 0 <= j <= |pieces|
      invariant clauses == PiecesClauses(pieces[..j])
    {
      PiecesClausesPrefix(pieces, j);
      var clause := ExtractPredicate(pieces[j]);
      if clause.Some? {
        clauses := clauses + [clause.value];
      }
      j := j + 1;
    }
    assert pieces[..j] == pieces;
  }

  /** `_build_version_check`: for every group, for every comma-separated piece, append the
      predicate of the piece unless it has no operator. */
  method BuildVersionCheck(words: seq<string>) returns (clauses: seq<Clause>)
    ensures clauses == ClausesOf(words)
  {
    var groups := FindGroups(Concat(words), 0);
    clauses := [];
    var i := 0;
    while i < |groups|
      invariant 0 <= i <= |groups|
      invariant clauses == GroupsClauses(groups[..i])
    {
      var found := GroupClauses(groups[i]);
      clauses := clauses + found;
      GroupsClausesPrefix(groups, i);
      i := i + 1;
    }
    assert groups[..i] == groups;
  }

  // ---------------------------------------------------------------------------
  // The requirement and its check

  /** `Requirement(requirement_string)`: `None` for the `ValueError` of an empty string and for
      the `IndexError` of `pop(0)` on a string without words. */
  function ParseRequirement(s: string): Option<Requirement>
  {
    if |s| == 0 then None
    else
      var words := Words(s);
      if |words| == 0 then None
      else Some(Requirement(words[0], ClausesOf(words[1..]), s))
  }

  /** `Requirement.__init__`, building the clauses with `_build_version_check`. */
  method NewRequirement(s: string) returns (r: Option<Requirement>)
    ensures r == ParseRequirement(s)
  {
    if |s| == 0 {
      return None;
    }
    var words := Words(s);
    if |words| == 0 {
      return None;
    }
    var clauses := BuildVersionCheck(words[1..]);
    r := Some(Requirement(words[0], clauses, s));
  }

  /** A requirement string is rejected exactly when it holds nothing but whitespace; otherwise
      its name is its first word, running from the first non-whitespace character to the next
      whitespace, and it remembers the string. */
  lemma ParseRequirementSpec(s: string)
    ensures ParseRequirement(s).None? <==> forall k :: 0 <= k < |s| ==> IsSpace(s[k])
    ensures ParseRequirement(s).Some? ==>
              var r := ParseRequirement(s).value;
              var i := SkipSpaces(s, 0);
              i < |s| && r.name == s[i..WordEnd(s, i)] && IsWord(r.name) && r.raw == s
  {
    WordsEmpty(s);
    if Words(s) != [] {
      FirstWord(s);
    }
  }

  /** The clauses of one group alone. */
  lemma GroupsClausesOne(g: string)
    ensures GroupsClauses([g]) == PiecesClauses(Split(g, ','))
  {
    assert [g][..0] == [];
  }

  /** The clauses of a single parenthesised word are those of the pieces of its group. */
  lemma ClausesOfGroup(g: string)
    requires forall k :: 0 <= k < |g| ==> !IsSpace(g[k]) && g[k] != ')'
    ensures ClausesOf(["(" + g + ")"]) == PiecesClauses(Split(g, ','))
  {
    ConcatOne("(" + g + ")");
    FindGroupsOfWord(g);
    GroupsClausesOne(g);
  }

  /** The words of `"name (spec)"` are the name and the parenthesised group. */
  lemma WordsOfGroup(n: string, g: string)
    requires IsWord(n)
    requires forall k :: 0 <= k < |g| ==> !IsSpace(g[k]) && g[k] != ')'
    ensures Words(n + " (" + g + ")") == [n, "(" + g + ")"]
  {
    var w := "(" + g + ")";
    assert IsWord(w) by {
      assert forall k :: 0 < k < |w| - 1 ==> w[k] == g[k - 1];
    }
    assert n + " (" + g + ")" == n + " " + w;
    TwoWords(n, w);
  }

  /** `Requirement("name (spec)")`, the form of the requirements files: the name is the word
      before the parentheses and the clauses are those of the comma-separated pieces inside. */
  lemma RequirementOfGroup(n: string, g: string)
    requires IsWord(n)
    requires forall k :: 0 <= k < |g| ==> !IsSpace(g[k]) && g[k] != ')'
    ensures ParseRequirement(n + " (" + g + ")") ==
              Some(Requirement(n, PiecesClauses(Split(g, ',')), n + " (" + g + ")"))
  {
    var s := n + " (" + g + ")";
    WordsOfGroup(n, g);
    assert Words(s)[1..] == ["(" + g + ")"];
    ClausesOfGroup(g);
  }

  /** A piece made of an operator and a release holds no whitespace, `)` or `,`. */
  lemma ReleasePieceChars(op: Comparator, r: string)
    requires IsRelease(r)
    ensures forall k :: 0 <= k < |Symbol(op) + r| ==>
              !IsSpace((Symbol(op) + r)[k]) && (Symbol(op) + r)[k] != ')' && (Symbol(op) + r)[k] != ','
  {
    var p := Symbol(op) + r;
    var m := |Symbol(op)|;
    forall k | 0 <= k < |p| ensures !IsSpace(p[k]) && p[k] != ')' && p[k] != ',' {
      if k < m {
        assert p[k] == Symbol(op)[k];
        assert Symbol(op)[k] in {'~', '=', '!', '<', '>'} by {
          match op
          case Compatible =>
          case Match =>
          case Exclude =>
          case LessEqual =>
          case GreaterEqual =>
          case Less =>
          case Greater =>
          case Exact =>
        }
      } else {
        assert p[k] == r[k - m];
        assert ReleaseChar(r, k - m, |r|);
      }
    }
  }

  /** Pieces that are each an operator followed by a release hold no `,`, and the group joined
      from them holds no whitespace or `)`. */
  lemma ReleaseGroupChars(ops: seq<Comparator>, rs: seq<string>, pieces: seq<string>)
    requires |ops| == |rs| == |pieces|
    requires forall i :: 0 <= i < |ops| ==> IsRelease(rs[i]) && pieces[i] == Symbol(ops[i]) + rs[i]
    ensures forall i :: 0 <= i < |pieces| ==> ',' !in pieces[i]
    ensures forall k :: 0 <= k < |Join(pieces, ',')| ==>
              !IsSpace(Join(pieces, ',')[k]) && Join(pieces, ',')[k] != ')'
  {
    forall i, k | 0 <= i < |pieces| && 0 <= k < |pieces[i]|
      ensures !IsSpace(pieces[i][k]) && pieces[i][k] != ')' && pieces[i][k] != ','
    {
      ReleasePieceChars(ops[i], rs[i]);
    }
    JoinKeeps(pieces, ',', c => !IsSpace(c) && c != ')');
  }

  /** Pieces that are each an operator other than `===` followed by a release give one clause
      each, comparing with the release of the piece. */
  lemma ReleasePiecesClauses(ops: seq<Comparator>, rs: seq<string>, pieces: seq<string>, clauses: seq<Clause>)
    requires |ops| == |rs| == |pieces| == |clauses|
    requires forall i :: 0 <= i < |ops| ==> ops[i] != Exact && IsRelease(rs[i])
    requires forall i :: 0 <= i < |ops| ==> pieces[i] == Symbol(ops[i]) + rs[i]
    requires forall i :: 0 <= i < |ops| ==>
               clauses[i] == Clause(ops[i], Some(Version(rs[i], Tokens(None, rs[i], None, None, None))))
    ensures PiecesClauses(pieces) == clauses
  {
    forall i | 0 <= i < |pieces|
      ensures MatchOperator(pieces[i]).Some? && ExtractPredicate(pieces[i]) == Some(clauses[i])
    {
      ExtractRelease(ops[i], rs[i]);
      ExtractPredicateSpec(pieces[i]);
    }
    PiecesClausesAll(pieces);
  }

  /** `Requirement("name (op1r1,...,opnrn)")` where every piece is an operator other than
      `===` followed by a release: one clause per piece, in order, each comparing with the
      release of its piece. */
  lemma RequirementOfReleases(n: string, ops: seq<Comparator>, rs: seq<string>)
    requires IsWord(n) && |ops| == |rs| >= 1
    requires forall i :: 0 <= i < |ops| ==> ops[i] != Exact && IsRelease(rs[i])
    ensures var pieces := seq(|ops|, i requires 0 <= i < |ops| && |rs| == |ops| => Symbol(ops[i]) + rs[i]);
            var s := n + " (" + Join(pieces, ',') + ")";
            ParseRequirement(s) ==
              Some(Requirement(n, seq(|ops|, i requires 0 <= i < |ops| && |rs| == |ops| =>
                                            Clause(ops[i], Some(Version(rs[i], Tokens(None, rs[i], None, None, None))))), s))
  {
    var pieces := seq(|ops|, i requires 0 <= i < |ops| && |rs| == |ops| => Symbol(ops[i]) + rs[i]);
    var clauses := seq(|ops|, i requires 0 <= i < |ops| && |rs| == |ops| =>
                         Clause(ops[i], Some(Version(rs[i], Tokens(None, rs[i], None, None, None)))));
    ReleaseGroupChars(ops, rs, pieces);
    SplitJoin(pieces, ',');
    ReleasePiecesClauses(ops, rs, pieces, clauses);
    RequirementOfGroup(n, Join(pieces, ','));
  }

  /** `check_compatible(version)`: `all` over the predicates in order, stopping at the first
      false one; a predicate that raises makes the whole check raise (`None`). */
  function Check(clauses: seq<Clause>, x: Version): Option<bool>
    decreases |clauses|
  {
    if |clauses| == 0 then Some(true)
    else
      match Compare(clauses[0].op, x, clauses[0].target)
      case None => None
      case Some(holds) => if holds then Check(clauses[1..], x) else Some(false)
  }

  /** The value of one clause on `x`. */
  function Holds(c: Clause, x: Version): Option<bool>
  {
    Compare(c.op, x, c.target)
  }

  /** The check passes exactly when every clause holds. */
  lemma {:induction false} CheckTrue(clauses: seq<Clause>, x: Version)
    ensures Check(clauses, x) == Some(true) <==>
            forall n :: 0 <= n < |clauses| ==> Holds(clauses[n], x) == Some(true)
    decreases |clauses|
  {
    if |clauses| > 0 {
      CheckTrue(clauses[1..], x);
      assert forall n :: 1 <= n < |clauses| ==> clauses[n] == clauses[1..][n - 1];
    }
  }

  /** The check fails exactly when some clause is false and every clause before it holds. */
  lemma {:induction false} CheckFalse(clauses: seq<Clause>, x: Version)
    ensures Check(clauses, x) == Some(false) <==>
            exists n :: 0 <= n < |clauses| && Holds(clauses[n], x) == Some(false) &&
                        forall m :: 0 <= m < n ==> Holds(clauses[m], x) == Some(true)
    decreases |clauses|
  {
    if |clauses| > 0 {
      var tail := clauses[1..];
      CheckFalse(tail, x);
      if Holds(clauses[0], x) == Some(true) {
        if Check(tail, x) == Some(false) {
          var n :| 0 <= n < |tail| && Holds(tail[n], x) == Some(false) &&
                   forall m :: 0 <= m < n ==> Holds(tail[m], x) == Some(true);
          assert Holds(clauses[n + 1], x) == Some(false);
          forall m | 0 <= m < n + 1 ensures Holds(clauses[m], x) == Some(true) {
            if m > 0 { assert clauses[m] == tail[m - 1]; }
          }
        }
        if exists n :: 0 <= n < |clauses| && Holds(clauses[n], x) == Some(false) &&
                       forall m :: 0 <= m < n ==> Holds(clauses[m], x) == Some(true) {
          var n :| 0 <= n < |clauses| && Holds(clauses[n], x) == Some(false) &&
                   forall m :: 0 <= m < n ==> Holds(clauses[m], x) == Some(true);
          assert n > 0;
          assert Holds(tail[n - 1], x) == Some(false);
          forall m | 0 <= m < n - 1 ensures Holds(tail[m], x) == Some(true) {
            assert tail[m] == clauses[m + 1];
          }
        }
      }
    }
  }

  /** A requirement without parentheses accepts every version. */
  lemma NoClausesAcceptAll(r: Requirement, x: Version)
    requires r.clauses == []
    ensures Check(r.clauses, x) == Some(true)
  {
  }
}
