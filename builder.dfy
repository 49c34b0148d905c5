/** Builder: the `VersionBuilder` operations that derive one version from another by removing
    or incrementing its least significant token, and `cleanNoneFromDict`. */
module Builder {
  import opened Options
  import opened PyStr
  import opened Versions

  // ---------------------------------------------------------------------------
  // Dropping the absent entries of a token dictionary

  /** `cleanNoneFromDict`, and the `filter(lambda item: item[1] is not None, ...)` the builders
      apply to `tokens._asdict().items()`: the present entries, unwrapped, in their order. */
  function CleanNone<K, V>(items: seq<(K, Option<V>)>): (r: seq<(K, V)>)
    ensures |r| <= |items|
    decreases |items|
  {
    if |items| == 0 then []
    else
      var init := CleanNone(items[..|items| - 1]);
      var (key, val) := items[|items| - 1];
      if val.Some? then init + [(key, val.value)] else init
  }

  /** `cleanNoneFromDict` keeps exactly the entries whose value is present. */
  lemma {:induction false} CleanNoneMembers<K(!new), V(!new)>(items: seq<(K, Option<V>)>)
    ensures forall k, v :: (k, v) in CleanNone(items) <==> (k, Some(v)) in items
    decreases |items|
  {
    if |items| > 0 {
      var init := items[..|items| - 1];
      CleanNoneMembers(init);
      var last := items[|items| - 1];
      forall k, v
        ensures (k, v) in CleanNone(items) <==> (k, Some(v)) in items
      {
        assert (k, Some(v)) in items <==> (k, Some(v)) in init || (k, Some(v)) == last;
      }
    }
  }

  /** The present entries of a token dictionary include the release. */
  lemma ReleasePresent(t: Tokens)
    ensures (Release, t.release) in CleanNone(Items(t))
  {
    CleanNoneMembers(Items(t));
    assert Items(t)[1] == (Release, Some(t.release));
  }

  /** The values of a list of entries (`map(lambda item: item[1], ...)`). */
  function Texts<K>(items: seq<(K, string)>): (r: seq<string>)
    ensures |r| == |items|
    ensures forall i :: 0 <= i < |items| ==> r[i] == items[i].1
  {
    seq(|items|, i requires 0 <= i < |items| => items[i].1)
  }

  /** The texts of the entries, absent ones contributing nothing, one after the other. */
  function OptConcat<K>(items: seq<(K, Option<string>)>): string
    decreases |items|
  {
    if |items| == 0 then [] else OptConcat(items[..|items| - 1]) + OptText(items[|items| - 1].1)
  }

  lemma ConcatAppend(parts: seq<string>, x: string)
    ensures Concat(parts + [x]) == Concat(parts) + x
  {
    assert (parts + [x])[..|parts|] == parts;
  }

  /** Joining the present values gives the same text as skipping the absent ones. */
  lemma {:induction false} ConcatCleanNone<K>(items: seq<(K, Option<string>)>)
    ensures Concat(Texts(CleanNone(items))) == OptConcat(items)
    decreases |items|
  {
    if |items| > 0 {
      var init := items[..|items| - 1];
      ConcatCleanNone(init);
      var (key, val) := items[|items| - 1];
      if val.Some? {
        assert Texts(CleanNone(items)) == Texts(CleanNone(init)) + [val.value];
        ConcatAppend(Texts(CleanNone(init)), val.value);
      }
    }
  }

  /** The text of the first `n` entries of a token dictionary. */
  lemma OptConcatItems(t: Tokens)
    ensures OptConcat(Items(t)[..1]) == OptText(t.epoch)
    ensures OptConcat(Items(t)[..2]) == OptText(t.epoch) + t.release
    ensures OptConcat(Items(t)[..3]) == OptText(t.epoch) + t.release + OptText(t.prerelease)
    ensures OptConcat(Items(t)[..4]) == OptText(t.epoch) + t.release + OptText(t.prerelease) + OptText(t.post)
    ensures OptConcat(Items(t)) == Render(t)
  {
    var items := Items(t);
    assert items[..1][..0] == [];
    assert items[..2][..1] == items[..1];
    assert items[..3][..2] == items[..2];
    assert items[..4][..3] == items[..3];
    assert items[..4] == items[..|items| - 1];
  }

  // ---------------------------------------------------------------------------
  // The least significant token

  /** The last present token: dev, else post, else prerelease, else the release. */
  function Significant(t: Tokens): (Field, string)
  {
    if t.dev.Some? then (Dev, t.dev.value)
    else if t.post.Some? then (Post, t.post.value)
    else if t.prerelease.Some? then (Prerelease, t.prerelease.value)
    else (Release, t.release)
  }

  /** The rendering of the tokens that come before the least significant one. */
  function Before(t: Tokens): string
  {
    if t.dev.Some? then OptText(t.epoch) + t.release + OptText(t.prerelease) + OptText(t.post)
    else if t.post.Some? then OptText(t.epoch) + t.release + OptText(t.prerelease)
    else if t.prerelease.Some? then OptText(t.epoch) + t.release
    else OptText(t.epoch)
  }

  /** When the entry at `n` is the last present one, the present entries end with it. */
  lemma {:induction false} CleanNoneAt<K, V>(items: seq<(K, Option<V>)>, n: nat)
    requires n < |items| && items[n].1.Some?
    requires forall j :: n < j < |items| ==> items[j].1.None?
    ensures CleanNone(items) == CleanNone(items[..n]) + [(items[n].0, items[n].1.value)]
    decreases |items|
  {
    var init := items[..|items| - 1];
    if n == |items| - 1 {
      assert init == items[..n];
    } else {
      CleanNoneAt(init, n);
      assert init[..n] == items[..n];
    }
  }

  /** The position of the least significant token among the entries of a token dictionary. */
  function SignificantIndex(t: Tokens): (n: nat)
    ensures 1 <= n < 5 && Items(t)[n].1.Some?
    ensures Significant(t) == (Items(t)[n].0, Items(t)[n].1.value)
    ensures forall j :: n < j < 5 ==> Items(t)[j].1.None?
  {
    if t.dev.Some? then 4 else if t.post.Some? then 3 else if t.prerelease.Some? then 2 else 1
  }

  /** The tokens before the least significant one render to `Before(t)`. */
  lemma BeforeEntries(t: Tokens)
    ensures OptConcat(Items(t)[..SignificantIndex(t)]) == Before(t)
  {
    OptConcatItems(t);
  }

  /** The present entries of a token dictionary end with the least significant token, and the
      entries before it render to `Before(t)`. */
  lemma PresentEntries(t: Tokens)
    ensures var f := CleanNone(Items(t));
            |f| > 0 && f[|f| - 1] == Significant(t) &&
            Concat(Texts(f[..|f| - 1])) == Before(t)
    ensures Before(t) + Significant(t).1 == Render(t)
  {
    var items := Items(t);
    var n := SignificantIndex(t);
    CleanNoneAt(items, n);
    var f := CleanNone(items);
    assert f[..|f| - 1] == CleanNone(items[..n]);
    ConcatCleanNone(items[..n]);
    BeforeEntries(t);
    OptConcatItems(t);
  }

  // ---------------------------------------------------------------------------
  // `strip_least_significant`

  /** `VersionBuilder.strip_least_significant`: the present tokens without the last one, except
      that a last release loses only its final `.N` component (`rsplit(".", 1)[0]`), joined
      and handed to `build_from_string`, whose `None` (an invalid string) is `None` here. */
  function StripLeastSignificant(v: Version): Option<Version>
  {
    var filtered := CleanNone(Items(v.tokens));
    ReleasePresent(v.tokens);
    Parse(Concat(Texts(Kept(filtered))))
  }

  /** The entries `strip_least_significant` keeps: all but the last, which, when it is the
      release, comes back cut at its last dot. */
  function Kept(filtered: seq<(Field, string)>): seq<(Field, string)>
    requires |filtered| > 0
  {
    var last := filtered[|filtered| - 1];
    if last.0 == Release then filtered[..|filtered| - 1] + [(Release, RSplitHead(last.1, '.'))]
    else filtered[..|filtered| - 1]
  }

  /** What stripping means: the dev release goes if there is one, else the post-release, else
      the prerelease, else the last component of the release. */
  function Stripped(t: Tokens): Tokens
  {
    if t.dev.Some? then t.(dev := None)
    else if t.post.Some? then t.(post := None)
    else if t.prerelease.Some? then t.(prerelease := None)
    else t.(release := RSplitHead(t.release, '.'))
  }

  /** Cutting a release at its last dot leaves a release. */
  lemma RSplitHeadRelease(r: string)
    requires IsRelease(r)
    ensures IsRelease(RSplitHead(r, '.'))
  {
    var k := LastIndexOf(r, '.');
    if k >= 0 {
      var h := r[..k];
      assert k > 0 by { ReleaseCharAt(r, 0); }
      forall j | 0 <= j < |h|
        ensures ReleaseChar(h, j, |h|)
      {
        ReleaseCharAt(r, j);
        if r[j] == '.' {
          ReleaseCharAt(r, k);
        }
      }
    }
  }

  lemma StrippedWellFormed(t: Tokens)
    requires WellFormed(t)
    ensures WellFormed(Stripped(t))
  {
    if t.dev.None? && t.post.None? && t.prerelease.None? {
      RSplitHeadRelease(t.release);
    }
  }

  /** The rendering of the stripped tokens: what precedes the least significant token, and when
      that token is the release, the release up to its last dot. */
  lemma RenderStrippedTokens(t: Tokens)
    ensures Render(Stripped(t)) ==
              if Significant(t).0 == Release then Before(t) + RSplitHead(t.release, '.') else Before(t)
  {
  }

  /** The text `strip_least_significant` hands to `build_from_string`. */
  lemma StripText(t: Tokens)
    ensures var filtered := CleanNone(Items(t));
            |filtered| > 0 && Concat(Texts(Kept(filtered))) == Render(Stripped(t))
  {
    PresentEntries(t);
    KeptText(CleanNone(Items(t)), t);
  }

  /** Entries that end with the least significant token, after entries rendering `Before(t)`,
      keep the text of the stripped tokens. */
  lemma KeptText(f: seq<(Field, string)>, t: Tokens)
    requires |f| > 0 && f[|f| - 1] == Significant(t) && Concat(Texts(f[..|f| - 1])) == Before(t)
    ensures Concat(Texts(Kept(f))) == Render(Stripped(t))
  {
    RenderStrippedTokens(t);
    var init := Texts(f[..|f| - 1]);
    if Significant(t).0 == Release {
      assert Texts(Kept(f)) == init + [RSplitHead(t.release, '.')];
      ConcatAppend(init, RSplitHead(t.release, '.'));
    } else {
      assert Kept(f) == f[..|f| - 1];
    }
  }

  /** Stripping a well-formed version never fails, and gives the version whose tokens are
      `Stripped` of the original's. */
  lemma StripSpec(v: Version)
    requires WellFormed(v.tokens)
    ensures StripLeastSignificant(v) == Some(Version(Render(Stripped(v.tokens)), Stripped(v.tokens)))
  {
    StripText(v.tokens);
    StrippedWellFormed(v.tokens);
    ParseRender(Stripped(v.tokens));
  }

  /** A release of a single component is not shortened. */
  lemma StripSingleComponent(t: Tokens)
    requires t.prerelease.None? && t.post.None? && t.dev.None? && '.' !in t.release
    ensures Stripped(t) == t
  {
  }

  /** Stripping moves a version to a neighbour it is comparable with: removing a dev, post or
      prerelease token gives a greater version, cutting the release a smaller one. */
  lemma StrippedOrder(v: Version)
    requires WellFormed(v.tokens) && !Eq(v, Version(Render(Stripped(v.tokens)), Stripped(v.tokens)))
    ensures var s := Version(Render(Stripped(v.tokens)), Stripped(v.tokens));
            if v.tokens.prerelease.None? && v.tokens.post.None? && v.tokens.dev.None? then Lt(s, v)
            else Lt(v, s)
  {
    var t := v.tokens;
    var u := Stripped(t);
    LexLeReflexive(OptText(t.epoch));
    LexLeReflexive(t.release);
    if t.prerelease.Some? { LexLeReflexive(t.prerelease.value); }
    if t.post.Some? { LexLeReflexive(t.post.value); }
    if t.dev.Some? { LexLeReflexive(t.dev.value); }
    if t.epoch.Some? { LexLeReflexive(t.epoch.value); }
    if t.prerelease.None? && t.post.None? && t.dev.None? {
      var k := LastIndexOf(t.release, '.');
      if k >= 0 {
        LexLePrefix(t.release[..k], t.release);
      }
    }
  }

  // ---------------------------------------------------------------------------
  // `_increment`: the regex `[a-zA-Z]{0,4}((?:\.?(?:[0-9]+))+)$` applied with `re.match`

  /** The end of the run of ASCII letters that starts at `i`. */
  function LettersEnd(s: string, i: nat): (j: nat)
    requires i <= |s|
    ensures i <= j <= |s|
    ensures forall k :: i <= k < j ==> IsAsciiLetter(s[k])
    ensures j == |s| || !IsAsciiLetter(s[j])
    decreases |s| - i
  {
    if i < |s| && IsAsciiLetter(s[i]) then LettersEnd(s, i + 1) else i
  }

  /** The end of the greedy `(?:\.?(?:[0-9]+))+` that starts at `i`, or `i` when it does not
      match there. After the first run of digits only dotted groups can follow. */
  function NumeralsEnd(s: string, i: nat): (j: nat)
    requires i <= |s|
    ensures i <= j <= |s|
    ensures forall k :: i <= k < j ==> ReleaseChar(s, k, j)
    ensures j > i ==> IsDigit(s[j - 1])
  {
    var j := if i < |s| && IsDigit(s[i]) then DotGroupsEnd(s, DigitsEnd(s, i)) else DotGroupsEnd(s, i);
    assert j > i ==> ReleaseChar(s, j - 1, j);
    j
  }

  /** `$`: the end of the string, or just before a final newline. */
  predicate AtEnd(s: string, e: nat)
  {
    e == |s| || (e + 1 == |s| && s[e] == '\n')
  }

  /** What group 1 of the regex can hold, `(?:\.?(?:[0-9]+))+`: digits and dots, each dot
      followed by a digit. */
  predicate IsNumerals(g: string)
  {
    |g| > 0 && forall k :: 0 <= k < |g| ==> ReleaseChar(g, k, |g|)
  }

  /** A stretch the numerals scan accepted is numerals. */
  lemma NumeralsSlice(s: string, i: nat, j: nat)
    requires i < j <= |s|
    requires forall k :: i <= k < j ==> ReleaseChar(s, k, j)
    ensures IsNumerals(s[i..j])
  {
    var g := s[i..j];
    forall k | 0 <= k < |g|
      ensures ReleaseChar(g, k, |g|)
    {
      assert ReleaseChar(s, i + k, j);
    }
  }

  /** The piece after the last dot of numerals is all digits. */
  lemma LastPieceDigits(g: string)
    requires IsNumerals(g)
    ensures AllDigits(g[LastIndexOf(g, '.') + 1..])
  {
    var d := LastIndexOf(g, '.');
    var tail := g[d + 1..];
    forall m | 0 <= m < |tail|
      ensures IsDigit(tail[m])
    {
      assert tail[m] == g[d + 1 + m];
      assert ReleaseChar(g, d + 1 + m, |g|);
    }
  }

  /** `str(int(n) + 1)`: the numeral of the next number, without leading zeros. */
  function Successor(n: string): string
    requires AllDigits(n)
  {
    NatToString(Value(n) + 1)
  }

  /** The successor is a numeral one greater. */
  lemma SuccessorValue(n: string)
    requires AllDigits(n)
    ensures IsNumeral(Successor(n)) && Value(Successor(n)) == Value(n) + 1
  {
    ValueOfNatToString(Value(n) + 1);
  }

  /** The body of `_increment` after the match: split group 1 at the dots, replace the last
      numeral by its value plus one, join again. */
  function IncrementNumerals(g: string): string
    requires IsNumerals(g)
  {
    var numerals := Split(g, '.');
    SplitLast(g, '.');
    LastPieceDigits(g);
    Join(numerals[..|numerals| - 1] + [Successor(numerals[|numerals| - 1])], '.')
  }

  /** `VersionBuilder._increment`: the numerals after up to four leading letters, their last
      component incremented (`str(int(...) + 1)`), joined again with dots; `None` when the
      regex does not match. */
  function IncrementToken(token: string): Option<string>
  {
    var l := LettersEnd(token, 0);
    var e := if l <= 4 then NumeralsEnd(token, l) else l;
    if l > 4 || e == l || !AtEnd(token, e) then None
    else
      NumeralsSlice(token, l, e);
      Some(IncrementNumerals(token[l..e]))
  }

  /** Incrementing numerals keeps everything up to and including the last dot, and replaces
      what follows by its value plus one. */
  lemma IncrementNumeralsSpec(g: string)
    requires IsNumerals(g)
    ensures var k := LastIndexOf(g, '.');
            AllDigits(g[k + 1..]) &&
            IncrementNumerals(g) == (if k < 0 then [] else g[..k + 1]) + Successor(g[k + 1..])
  {
    LastPieceDigits(g);
    JoinReplacingLast(g, Successor(g[LastIndexOf(g, '.') + 1..]));
  }

  /** On a release, the letters of the regex match nothing and the numerals match it all. */
  lemma ReleaseNumerals(r: string)
    requires IsRelease(r)
    ensures LettersEnd(r, 0) == 0 && NumeralsEnd(r, 0) == |r|
  {
    assert !IsAsciiLetter(r[0]);
    assert r[0..|r|] == r;
    ReleaseEnd(r, 0, |r|);
  }

  /** Replacing the last piece of `s.split(".")` by `n` and joining keeps `s` up to and
      including its last dot. */
  lemma JoinReplacingLast(s: string, n: string)
    ensures var parts, k := Split(s, '.'), LastIndexOf(s, '.');
            Join(parts[..|parts| - 1] + [n], '.') == (if k < 0 then [] else s[..k + 1]) + n
  {
    var parts, k := Split(s, '.'), LastIndexOf(s, '.');
    if k >= 0 {
      var q := Split(s[..k], '.');
      assert parts[..|parts| - 1] == q by {
        assert parts == q + [s[k + 1..]];
      }
      var joined := q + [n];
      assert |joined| >= 2 && joined[..|joined| - 1] == q && joined[|joined| - 1] == n;
      assert Join(joined, '.') == Join(q, '.') + ['.'] + n;
      JoinSplit(s[..k], '.');
      assert s[..k + 1] == s[..k] + ['.'];
    } else {
      assert parts[..|parts| - 1] + [n] == [n];
    }
  }

  /** A release whose last component is replaced by a numeral is a release with the same
      dots. */
  lemma ReplaceLastComponent(r: string, n: string)
    requires IsRelease(r) && IsNumeral(n)
    ensures var k := LastIndexOf(r, '.');
            var x := (if k < 0 then [] else r[..k + 1]) + n;
            IsRelease(x) && LastIndexOf(x, '.') == k && x[..k + 1] == r[..k + 1] && x[k + 1..] == n
  {
    var k := LastIndexOf(r, '.');
    var y := if k < 0 then [] else r[..k + 1];
    var x := y + n;
    assert x[..k + 1] == y && x[k + 1..] == n;
    LastIndexAfter(x, k, '.');
    forall j | 0 <= j < |x|
      ensures ReleaseChar(x, j, |x|)
    {
      if j <= k { ReleaseCharAt(r, j); }
    }
    if k >= 0 { ReleaseCharAt(r, 0); }
  }

  /** Incrementing a release keeps everything up to its last dot and adds one to the value of
      the last component, giving a release again. */
  lemma IncrementRelease(r: string)
    requires IsRelease(r)
    ensures IncrementToken(r).Some?
    ensures var x, k := IncrementToken(r).value, LastIndexOf(r, '.');
            IsRelease(x) && LastIndexOf(x, '.') == k && x[..k + 1] == r[..k + 1] &&
            AllDigits(r[k + 1..]) && AllDigits(x[k + 1..]) &&
            Value(x[k + 1..]) == Value(r[k + 1..]) + 1
  {
    ReleaseIncrementToken(r);
    IncrementReleaseNumerals(r);
  }

  /** Bumping a release keeps everything up to its last dot and replaces the last component
      by its successor. */
  lemma BumpReleaseSpec(r: string)
    requires IsRelease(r)
    ensures var k := LastIndexOf(r, '.');
            AllDigits(r[k + 1..]) && BumpRelease(r) == r[..k + 1] + Successor(r[k + 1..])
  {
    ReleaseIncrementToken(r);
    IncrementNumeralsSpec(r);
    assert LastIndexOf(r, '.') < 0 ==> r[..LastIndexOf(r, '.') + 1] == [];
  }

  /** On a release, `_increment` matches the whole token. */
  lemma ReleaseIncrementToken(r: string)
    requires IsRelease(r)
    ensures IsNumerals(r) && IncrementToken(r) == Some(IncrementNumerals(r))
  {
    ReleaseNumerals(r);
    assert r[0..|r|] == r;
  }

  lemma IncrementReleaseNumerals(r: string)
    requires IsRelease(r) && IsNumerals(r)
    ensures var x, k := IncrementNumerals(r), LastIndexOf(r, '.');
            IsRelease(x) && LastIndexOf(x, '.') == k && x[..k + 1] == r[..k + 1] &&
            AllDigits(r[k + 1..]) && AllDigits(x[k + 1..]) &&
            Value(x[k + 1..]) == Value(r[k + 1..]) + 1
  {
    var k := LastIndexOf(r, '.');
    IncrementNumeralsSpec(r);
    SuccessorValue(r[k + 1..]);
    ReplaceLastComponent(r, Successor(r[k + 1..]));
  }

  /** When position `k` holds `c` and nothing after it does, `k` is the last index of `c`;
      with `k == -1`, there is none. */
  lemma LastIndexAfter(s: string, k: int, c: char)
    requires -1 <= k < |s| && (k >= 0 ==> s[k] == c)
    requires forall j :: k < j < |s| ==> s[j] != c
    ensures LastIndexOf(s, c) == k
  {
  }

  /** The number of a prerelease: what follows its tag. */
  function PreNumber(p: string): string
    requires IsPrerelease(p)
  {
    if IsTagged(p, "rc") then p[2..] else p[1..]
  }

  /** The letters of a prerelease are its tag. */
  lemma TaggedLetters(p: string, tag: string)
    requires tag == "a" || tag == "b" || tag == "rc"
    requires IsTagged(p, tag)
    ensures LettersEnd(p, 0) == |tag| && PreNumber(p) == p[|tag|..]
  {
    var l := |tag|;
    assert p[..l] == tag;
    forall k | 0 <= k < l ensures IsAsciiLetter(p[k]) { assert p[k] == tag[k]; }
    assert IsDigit(p[l..][0]);
    LettersEndExact(p, 0, l);
  }

  lemma PreNumberNumeral(p: string)
    requires IsPrerelease(p)
    ensures IsNumeral(PreNumber(p))
  {
    var tag := PrereleaseTag(p);
    TaggedLetters(p, tag);
  }

  /** Incrementing a tagged prerelease drops its letters and increments its number. */
  lemma IncrementTagged(p: string, tag: string)
    requires tag == "a" || tag == "b" || tag == "rc"
    requires IsTagged(p, tag)
    ensures IncrementToken(p) == Some(Successor(p[|tag|..]))
  {
    var l := |tag|;
    TaggedLetters(p, tag);
    assert DigitsEnd(p, l) == |p| by {
      forall k | l <= k < |p| ensures IsDigit(p[k]) { assert p[k] == p[l..][k - l]; }
      DigitsEndExact(p, l, |p|);
    }
    assert NumeralsEnd(p, l) == |p|;
    assert p[l..|p|] == p[l..];
    var g := p[l..];
    assert LastIndexOf(g, '.') == -1 by {
      LastIndexAfter(g, -1, '.');
    }
    assert Split(g, '.') == [g];
  }

  /** Incrementing a prerelease gives its number plus one, without the letters. */
  lemma IncrementPrerelease(p: string)
    requires IsPrerelease(p)
    ensures IsNumeral(PreNumber(p))
    ensures IncrementToken(p) == Some(Successor(PreNumber(p)))
  {
    var tag := PrereleaseTag(p);
    TaggedLetters(p, tag);
    IncrementTagged(p, tag);
  }

  /** The tag a prerelease starts with. */
  lemma PrereleaseTag(p: string) returns (tag: string)
    requires IsPrerelease(p)
    ensures tag == "a" || tag == "b" || tag == "rc"
    ensures IsTagged(p, tag)
  {
    tag := if IsTagged(p, "a") then "a" else if IsTagged(p, "b") then "b" else "rc";
  }

  lemma {:induction false} LettersEndExact(s: string, i: nat, j: nat)
    requires i <= j <= |s|
    requires forall k :: i <= k < j ==> IsAsciiLetter(s[k])
    requires j == |s| || !IsAsciiLetter(s[j])
    ensures LettersEnd(s, i) == j
    decreases j - i
  {
    if i < j { LettersEndExact(s, i + 1, j); }
  }

  lemma {:induction false} DigitsEndExact(s: string, i: nat, j: nat)
    requires i <= j <= |s|
    requires forall k :: i <= k < j ==> IsDigit(s[k])
    requires j == |s| || !IsDigit(s[j])
    ensures DigitsEnd(s, i) == j
    decreases j - i
  {
    if i < j { DigitsEndExact(s, i + 1, j); }
  }

  /** A post or dev token starts with a dot that no digit follows, so the regex fails. */
  lemma IncrementTagFails(x: string, tag: string)
    requires tag == ".post" || tag == ".dev"
    requires IsTagged(x, tag)
    ensures IncrementToken(x).None?
  {
    assert x[..|tag|] == tag;
    assert x[0] == '.' && !IsDigit(x[1]) by { assert x[0] == tag[0] && x[1] == tag[1]; }
    assert LettersEnd(x, 0) == 0;
    assert DotGroupsEnd(x, 0) == 0;
  }

  // ---------------------------------------------------------------------------
  // `increment_least_significant`

  /** `VersionBuilder.increment_least_significant`: the present token values with the last one
      replaced by its `_increment`, joined and parsed. `None` stands both for the `TypeError`
      of joining a `None` and for the `ValueError` of an invalid result. */
  function IncrementLeastSignificant(v: Version): Option<Version>
  {
    var tokens := Texts(CleanNone(Items(v.tokens)));
    ReleasePresent(v.tokens);
    assert |tokens| > 0;
    match IncrementToken(tokens[|tokens| - 1])
    case None => None
    case Some(x) => Parse(Concat(tokens[..|tokens| - 1] + [x]))
  }

  /** The release with its last component incremented. */
  function BumpRelease(r: string): string
    requires IsRelease(r)
  {
    IncrementRelease(r);
    IncrementToken(r).value
  }

  /** What incrementing means: no result when the version ends in a post or dev release; a
      prerelease is replaced by its number plus one, appended to the release; otherwise the
      last component of the release goes up by one. Everything else is kept. */
  function Incremented(t: Tokens): Option<Tokens>
    requires WellFormed(t)
  {
    if t.dev.Some? || t.post.Some? then None
    else if t.prerelease.Some? then
      PreNumberNumeral(t.prerelease.value);
      Some(Tokens(t.epoch, t.release + Successor(PreNumber(t.prerelease.value)), None, None, None))
    else Some(t.(release := BumpRelease(t.release)))
  }

  /** A release with digits appended is a release. */
  lemma ReleaseAppend(r: string, n: string)
    requires IsRelease(r) && IsNumeral(n)
    ensures IsRelease(r + n)
  {
    var x := r + n;
    forall k | 0 <= k < |x|
      ensures ReleaseChar(x, k, |x|)
    {
      if k < |r| { ReleaseCharAt(r, k); }
    }
  }

  lemma IncrementedWellFormed(t: Tokens)
    requires WellFormed(t) && Incremented(t).Some?
    ensures WellFormed(Incremented(t).value)
  {
    if t.prerelease.Some? {
      PreNumberNumeral(t.prerelease.value);
      SuccessorValue(PreNumber(t.prerelease.value));
      ReleaseAppend(t.release, Successor(PreNumber(t.prerelease.value)));
    } else {
      IncrementRelease(t.release);
    }
  }

  /** Incrementing the least significant token of a version ending in its release or a
      prerelease, placed after the tokens before it, renders the `Incremented` tokens. */
  lemma IncrementLast(t: Tokens)
    requires WellFormed(t) && t.post.None? && t.dev.None?
    ensures IncrementToken(Significant(t).1).Some?
    ensures Before(t) + IncrementToken(Significant(t).1).value == Render(Incremented(t).value)
  {
    if t.prerelease.Some? {
      IncrementLastPrerelease(t);
    } else {
      IncrementLastRelease(t);
    }
  }

  /** On a version that ends in its release, incrementing bumps the release after the epoch. */
  lemma IncrementLastRelease(t: Tokens)
    requires WellFormed(t) && t.prerelease.None? && t.post.None? && t.dev.None?
    ensures IncrementToken(t.release) == Some(BumpRelease(t.release))
    ensures OptText(t.epoch) + BumpRelease(t.release) == Render(Incremented(t).value)
  {
    ReleaseIncrementToken(t.release);
  }

  lemma IncrementLastPrerelease(t: Tokens)
    requires WellFormed(t) && t.prerelease.Some? && t.post.None? && t.dev.None?
    ensures IncrementToken(t.prerelease.value).Some?
    ensures Before(t) + IncrementToken(t.prerelease.value).value == Render(Incremented(t).value)
  {
    var p := t.prerelease.value;
    IncrementPrerelease(p);
    var x := Successor(PreNumber(p));
    var u := Tokens(t.epoch, t.release + x, None, None, None);
    assert Incremented(t) == Some(u);
    RenderReleaseOnly(t.epoch, t.release, x);
    assert Before(t) == OptText(t.epoch) + t.release;
  }

  lemma RenderReleaseOnly(e: Option<string>, r: string, x: string)
    ensures Render(Tokens(e, r + x, None, None, None)) == OptText(e) + r + x
  {
  }

  /** The text `increment_least_significant` hands to `Version` when the last token is the
      release or a prerelease. */
  lemma IncrementText(t: Tokens)
    requires WellFormed(t) && t.post.None? && t.dev.None?
    ensures var tokens := Texts(CleanNone(Items(t)));
            |tokens| > 0 && IncrementToken(tokens[|tokens| - 1]).Some? &&
            Concat(tokens[..|tokens| - 1] + [IncrementToken(tokens[|tokens| - 1]).value]) ==
              Render(Incremented(t).value)
  {
    var tokens := Texts(CleanNone(Items(t)));
    assert |tokens| > 0 && tokens[|tokens| - 1] == Significant(t).1 &&
           Concat(tokens[..|tokens| - 1]) == Before(t) by {
      PresentEntries(t);
      assert tokens[..|tokens| - 1] == Texts(CleanNone(Items(t))[..|tokens| - 1]);
    }
    IncrementLast(t);
    ConcatAppend(tokens[..|tokens| - 1], IncrementToken(Significant(t).1).value);
  }

  /** Incrementing a well-formed version fails exactly when its last token is a post or dev
      release, and otherwise gives the version whose tokens are `Incremented`. */
  lemma IncrementSpec(v: Version)
    requires WellFormed(v.tokens)
    ensures IncrementLeastSignificant(v).None? <==> v.tokens.post.Some? || v.tokens.dev.Some?
    ensures Incremented(v.tokens).Some? ==>
              var u := Incremented(v.tokens).value;
              WellFormed(u) && IncrementLeastSignificant(v) == Some(Version(Render(u), u))
  {
    var t := v.tokens;
    var tokens := Texts(CleanNone(Items(t)));
    if t.dev.Some? || t.post.Some? {
      assert |tokens| > 0 && tokens[|tokens| - 1] == Significant(t).1 by {
        PresentEntries(t);
      }
      assert IncrementToken(Significant(t).1).None? by {
        if t.dev.Some? {
          IncrementTagFails(t.dev.value, ".dev");
        } else {
          IncrementTagFails(t.post.value, ".post");
        }
      }
    } else {
      IncrementText(t);
      var u := Incremented(t).value;
      assert WellFormed(u) by { IncrementedWellFormed(t); }
      ParseRender(u);
      assert IncrementLeastSignificant(v) == Parse(Render(u));
    }
  }
}
