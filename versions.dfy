/** Versions: the tokens of a version string, the regular expression that finds them, the
    string they render back to, and the equality and ordering the `Version` class defines. */
module Versions {
  import opened Options
  import opened PyStr

  /** The five named groups of the version regex, in the order of the `VersionTokens` tuple.
      Each present token is the matched text verbatim: the epoch keeps its `!`, the post and
      dev releases keep their `.post` and `.dev`. The release group always participates. */
  datatype Tokens = Tokens(epoch: Option<string>, release: string, prerelease: Option<string>,
                           post: Option<string>, dev: Option<string>)

  /** A version: the string it was constructed from and the tokens found in it. */
  datatype Version = Version(raw: string, tokens: Tokens)

  /** The keys of `VersionTokens._asdict()`. */
  datatype Field = Epoch | Release | Prerelease | Post | Dev

  /** `tokens._asdict().items()`, in field order. */
  function Items(t: Tokens): seq<(Field, Option<string>)>
  {
    [(Epoch, t.epoch), (Release, Some(t.release)), (Prerelease, t.prerelease), (Post, t.post), (Dev, t.dev)]
  }

  // ---------------------------------------------------------------------------
  // The grammar, stated token by token

  /** `[0-9]+!` */
  predicate IsEpoch(e: string) { |e| >= 2 && e[|e| - 1] == '!' && IsNumeral(e[..|e| - 1]) }

  /** A character of a release that ends at `j`: a digit, or a dot followed by a digit. */
  predicate ReleaseChar(s: string, k: nat, j: nat)
    requires k < j <= |s|
  {
    IsDigit(s[k]) || (s[k] == '.' && k + 1 < j && IsDigit(s[k + 1]))
  }

  /** `[0-9]+(?:\.[0-9]+)*`: starts with a digit, and every dot is followed by a digit. */
  predicate IsRelease(r: string)
  {
    |r| > 0 && IsDigit(r[0]) && forall k :: 0 <= k < |r| ==> ReleaseChar(r, k, |r|)
  }

  /** `tag[0-9]+` */
  predicate IsTagged(x: string, tag: string) { |x| > |tag| && x[..|tag|] == tag && IsNumeral(x[|tag|..]) }

  /** `(?:a|b|rc)[0-9]+` */
  predicate IsPrerelease(p: string) { IsTagged(p, "a") || IsTagged(p, "b") || IsTagged(p, "rc") }

  predicate OptionalIs(o: Option<string>, tag: string) { o.None? || IsTagged(o.value, tag) }

  /** Every present token is in the grammar of its group. */
  predicate WellFormed(t: Tokens)
  {
    (t.epoch.None? || IsEpoch(t.epoch.value)) &&
    IsRelease(t.release) &&
    (t.prerelease.None? || IsPrerelease(t.prerelease.value)) &&
    OptionalIs(t.post, ".post") &&
    OptionalIs(t.dev, ".dev")
  }

  function OptText(o: Option<string>): string { if o.Some? then o.value else [] }

  /** The tokens written back in epoch, release, prerelease, post, dev order. */
  function Render(t: Tokens): string
  {
    OptText(t.epoch) + t.release + OptText(t.prerelease) + OptText(t.post) + OptText(t.dev)
  }

  /** The strings the version grammar matches in full. */
  ghost predicate InGrammar(s: string)
  {
    exists t :: WellFormed(t) && Render(t) == s
  }

  // ---------------------------------------------------------------------------
  // The regex `(?P<epoch>[0-9]+!)?(?P<release>[0-9]+(?:\.[0-9]+)*)(?P<prerelease>(?:a|b|rc)[0-9]+)?
  //            (?P<post>\.post[0-9]+)?(?P<dev>\.dev[0-9]+)?` applied with `re.match`

  /** The end of the greedy `[0-9]*` that starts at `i`. */
  function DigitsEnd(s: string, i: nat): (j: nat)
    requires i <= |s|
    ensures i <= j <= |s|
    ensures forall k :: i <= k < j ==> IsDigit(s[k])
    ensures j == |s| || !IsDigit(s[j])
    decreases |s| - i
  {
    if i < |s| && IsDigit(s[i]) then DigitsEnd(s, i + 1) else i
  }

  /** The end of the greedy `(?:\.[0-9]+)*` that starts at `i`. */
  function DotGroupsEnd(s: string, i: nat): (j: nat)
    requires i <= |s|
    ensures i <= j <= |s|
    ensures forall k :: i <= k < j ==> ReleaseChar(s, k, j)
    decreases |s| - i
  {
    if i + 1 < |s| && s[i] == '.' && IsDigit(s[i + 1]) then
      var d := DigitsEnd(s, i + 1);
      assert d > i + 1;
      DotGroupsEnd(s, d)
    else i
  }

  /** The end of the optional `tag[0-9]+` at `i`: `i` itself when it does not match there. */
  function TagEnd(s: string, i: nat, tag: string): (j: nat)
    requires i <= |s|
    ensures i <= j <= |s|
    ensures j > i ==> IsTagged(s[i..j], tag) && (j == |s| || !IsDigit(s[j]))
  {
    if i + |tag| <= |s| && s[i..i + |tag|] == tag then
      var d := DigitsEnd(s, i + |tag|);
      if d > i + |tag| then
        assert s[i..d][..|tag|] == tag && s[i..d][|tag|..] == s[i + |tag|..d];
        d
      else i
    else i
  }

  /** The end of the optional `(?:a|b|rc)[0-9]+` at `i`, alternatives tried in that order. */
  function PrereleaseEnd(s: string, i: nat): (j: nat)
    requires i <= |s|
    ensures i <= j <= |s|
    ensures j > i ==> IsPrerelease(s[i..j]) && (j == |s| || !IsDigit(s[j]))
  {
    var a := TagEnd(s, i, "a");
    if a > i then a
    else
      var b := TagEnd(s, i, "b");
      if b > i then b else TagEnd(s, i, "rc")
  }

  /** Where the release starts: just after the epoch `[0-9]+!` when there is one and a digit
      follows it; otherwise at 0, which is where the engine restarts the release after
      giving the epoch up. */
  function EpochEnd(s: string): (r0: nat)
    ensures r0 == 0 || r0 < |s|
    ensures r0 > 0 ==> IsEpoch(s[..r0]) && IsDigit(s[r0])
  {
    var d := DigitsEnd(s, 0);
    if 0 < d < |s| && s[d] == '!' && DigitsEnd(s, d + 1) > d + 1 then
      assert s[..d + 1][..d] == s[..d];
      d + 1
    else 0
  }

  /** The optional group spanning `s[i..j]`. */
  function Group(s: string, i: nat, j: nat): Option<string>
    requires i <= j <= |s|
  {
    if i == j then None else Some(s[i..j])
  }

  /** `re.match` of the version regex: the groups and the length of the match, or `None` when
      `s` does not start with a digit. Every group is taken greedily when present, so the
      first successful path of the backtracking engine is the greedy one. */
  function MatchVersion(s: string): Option<(Tokens, nat)>
  {
    if DigitsEnd(s, 0) == 0 then None
    else
      var r0 := EpochEnd(s);
      var r1 := DotGroupsEnd(s, DigitsEnd(s, r0));
      var p := PrereleaseEnd(s, r1);
      var q := TagEnd(s, p, ".post");
      var e := TagEnd(s, q, ".dev");
      Some((Tokens(Group(s, 0, r0), s[r0..r1], Group(s, r1, p), Group(s, p, q), Group(s, q, e)), e))
  }

  /** The identity test `matches.group() is version.strip()` under CPython. The matched text is
      the very object `version` only when the match covers all of it, and `version.strip()`
      is `version` itself only when there is nothing to strip; apart from that, the two are
      the same object only when both are the interpreter's cached one-character string, which
      happens when the match is a single digit and everything after it is whitespace. */
  predicate SameObject(s: string, m: nat)
    requires m <= |s|
  {
    (m == |s| && Strip(s) == s) || (m == 1 && Strip(s) == s[..1])
  }

  /** `Version(version)`: `None` stands for the `ValueError` it raises. */
  function Parse(s: string): Option<Version>
  {
    match MatchVersion(s)
    case None => None
    case Some((t, m)) => if m <= |s| && SameObject(s, m) then Some(Version(s, t)) else None
  }

  /** A single digit followed by nothing but whitespace (at least one character of it). */
  predicate IsPaddedDigit(s: string)
  {
    |s| >= 2 && IsDigit(s[0]) && forall k :: 1 <= k < |s| ==> IsSpace(s[k])
  }

  // ---------------------------------------------------------------------------
  // Soundness of the matcher: what it returns is in the grammar and spells the matched text

  /** A run of release characters that starts with a digit is a release. */
  lemma ReleaseSlice(s: string, i: nat, j: nat)
    requires i < j <= |s| && IsDigit(s[i])
    requires forall k :: i <= k < j ==> ReleaseChar(s, k, j)
    ensures IsRelease(s[i..j])
  {
    var r := s[i..j];
    forall k | 0 <= k < |r|
      ensures ReleaseChar(r, k, |r|)
    {
      assert ReleaseChar(s, i + k, j);
      assert r[k] == s[i + k];
      if k + 1 < |r| { assert r[k + 1] == s[i + k + 1]; }
    }
  }

  /** The release scan from a digit yields a release. */
  lemma ReleaseScanned(s: string, r0: nat)
    requires r0 < |s| && IsDigit(s[r0])
    ensures IsRelease(s[r0..DotGroupsEnd(s, DigitsEnd(s, r0))])
  {
    var d := DigitsEnd(s, r0);
    var r1 := DotGroupsEnd(s, d);
    forall k | r0 <= k < r1
      ensures ReleaseChar(s, k, r1)
    {
      if k < d { assert IsDigit(s[k]); }
    }
    ReleaseSlice(s, r0, r1);
  }

  /** Five adjacent slices join up. */
  lemma SlicesJoin(s: string, a: nat, b: nat, c: nat, d: nat, e: nat, f: nat)
    requires a <= b <= c <= d <= e <= f <= |s|
    ensures s[a..b] + s[b..c] + s[c..d] + s[d..e] + s[e..f] == s[a..f]
  {
    assert s[a..b] + s[b..c] == s[a..c];
    assert s[a..c] + s[c..d] == s[a..d];
    assert s[a..d] + s[d..e] == s[a..e];
    assert s[a..e] + s[e..f] == s[a..f];
  }

  /** What `re.match` returns is in the grammar, and its groups spell the matched text. */
  lemma MatchVersionSound(s: string)
    requires MatchVersion(s).Some?
    ensures 1 <= MatchVersion(s).value.1 <= |s|
    ensures WellFormed(MatchVersion(s).value.0)
    ensures Render(MatchVersion(s).value.0) == s[..MatchVersion(s).value.1]
  {
    var r0 := EpochEnd(s);
    assert IsDigit(s[r0]);
    var r1 := DotGroupsEnd(s, DigitsEnd(s, r0));
    var p := PrereleaseEnd(s, r1);
    var q := TagEnd(s, p, ".post");
    var e := TagEnd(s, q, ".dev");
    ReleaseScanned(s, r0);
    var t := MatchVersion(s).value.0;
    assert OptText(t.epoch) == s[0..r0];
    assert OptText(t.prerelease) == s[r1..p];
    assert OptText(t.post) == s[p..q];
    assert OptText(t.dev) == s[q..e];
    SlicesJoin(s, 0, r0, r1, p, q, e);
  }

  // ---------------------------------------------------------------------------
  // Completeness of the matcher: on a rendered version it finds exactly the tokens

  /** Nothing at `i` can extend a release: end of text, or neither a digit nor a dot
      followed by a digit. */
  predicate ReleaseStopsAt(s: string, i: nat)
    requires i <= |s|
  {
    i == |s| || (!IsDigit(s[i]) && !(s[i] == '.' && i + 1 < |s| && IsDigit(s[i + 1])))
  }

  /** Inside a release that occupies `s[i..i+n]`, the digit run that starts at a digit `k`
      ends at a dot of the release or at its end. */
  lemma DigitsInRelease(s: string, i: nat, n: nat, k: nat)
    requires i + n <= |s| && IsRelease(s[i..i + n]) && ReleaseStopsAt(s, i + n)
    requires i <= k < i + n && IsDigit(s[k])
    ensures k < DigitsEnd(s, k) <= i + n
    ensures DigitsEnd(s, k) == i + n || s[DigitsEnd(s, k)] == '.'
  {
    var j := DigitsEnd(s, k);
    var r := s[i..i + n];
    if j < i + n {
      assert r[j - i] == s[j];
      ReleaseCharAt(r, j - i);
    }
  }

  /** From a dot of the release (or its end), the `(?:\.[0-9]+)*` scan stops at the release's end. */
  lemma {:induction false} DotGroupsInRelease(s: string, i: nat, n: nat, k: nat)
    requires i + n <= |s| && IsRelease(s[i..i + n]) && ReleaseStopsAt(s, i + n)
    requires i < k <= i + n && (k == i + n || s[k] == '.')
    ensures DotGroupsEnd(s, k) == i + n
    decreases i + n - k
  {
    if k < i + n {
      var r := s[i..i + n];
      assert r[k - i] == s[k];
      ReleaseCharAt(r, k - i);
      assert s[k + 1] == r[k - i + 1];
      DigitsInRelease(s, i, n, k + 1);
      DotGroupsInRelease(s, i, n, DigitsEnd(s, k + 1));
    }
  }

  /** The release scan from the first digit of a release stops at its end. */
  lemma ReleaseEnd(s: string, i: nat, n: nat)
    requires i + n <= |s| && IsRelease(s[i..i + n]) && ReleaseStopsAt(s, i + n)
    ensures DotGroupsEnd(s, DigitsEnd(s, i)) == i + n
  {
    assert s[i..i + n][0] == s[i];
    DigitsInRelease(s, i, n, i);
    DotGroupsInRelease(s, i, n, DigitsEnd(s, i));
  }

  /** One character of a release: a digit, or a dot followed by a digit. */
  lemma ReleaseCharAt(r: string, k: nat)
    requires IsRelease(r) && k < |r|
    ensures IsDigit(r[k]) || (r[k] == '.' && k + 1 < |r| && IsDigit(r[k + 1]))
  {
    assert ReleaseChar(r, k, |r|);
  }

  /** A present token carries its tag and ends with a digit. */
  lemma TaggedFacts(x: string, tag: string)
    requires IsTagged(x, tag)
    ensures forall k :: 0 <= k < |tag| ==> x[k] == tag[k]
    ensures IsDigit(x[|x| - 1])
  {
    assert forall k :: 0 <= k < |tag| ==> x[k] == x[..|tag|][k];
    assert x[|x| - 1] == x[|tag|..][|x| - 1 - |tag|];
  }

  /** A tagged token at `i` that is not followed by a digit is scanned exactly. */
  lemma TagEndExact(s: string, i: nat, x: string, tag: string)
    requires i + |x| <= |s| && s[i..i + |x|] == x && IsTagged(x, tag)
    requires i + |x| == |s| || !IsDigit(s[i + |x|])
    ensures TagEnd(s, i, tag) == i + |x|
  {
    assert s[i..i + |tag|] == x[..|tag|];
    assert forall k :: i + |tag| <= k < i + |x| ==> s[k] == x[|tag|..][k - i - |tag|];
  }

  /** A tag does not match at `i` when one of its characters is missing or different there. */
  lemma TagEndMiss(s: string, i: nat, tag: string, m: nat)
    requires i <= |s| && m < |tag|
    requires i + m >= |s| || s[i + m] != tag[m]
    ensures TagEnd(s, i, tag) == i
  {
    if i + |tag| <= |s| {
      assert s[i..i + |tag|][m] == s[i + m];
    }
  }

  /** The epoch scan of a string that starts with an optional epoch and a release. */
  lemma EpochEndExact(s: string, i1: nat, i2: nat)
    requires i1 < i2 <= |s| && IsRelease(s[i1..i2]) && ReleaseStopsAt(s, i2)
    requires i1 == 0 || IsEpoch(s[..i1])
    requires i2 == |s| || s[i2] != '!'
    ensures EpochEnd(s) == i1
  {
    assert s[i1..i2][0] == s[i1];
    if i1 > 0 {
      var e := s[..i1];
      assert forall k :: 0 <= k < i1 - 1 ==> s[k] == e[..i1 - 1][k];
      assert s[i1 - 1] == e[i1 - 1];
      assert DigitsEnd(s, 0) == i1 - 1;
      assert DigitsEnd(s, i1) > i1;
    } else {
      DigitsInRelease(s, 0, i2, 0);
    }
  }

  /** The prerelease scan at the end of a release. */
  lemma PrereleaseEndExact(s: string, i2: nat, i3: nat)
    requires i2 <= i3 <= |s|
    requires i3 == |s| || s[i3] == '.'
    requires i2 == i3 || IsPrerelease(s[i2..i3])
    ensures PrereleaseEnd(s, i2) == i3
  {
    if i2 == i3 {
      TagEndMiss(s, i2, "a", 0);
      TagEndMiss(s, i2, "b", 0);
      TagEndMiss(s, i2, "rc", 0);
    } else {
      var x := s[i2..i3];
      if IsTagged(x, "a") {
        TagEndExact(s, i2, x, "a");
      } else if IsTagged(x, "b") {
        TaggedFacts(x, "b");
        assert s[i2] == x[0];
        TagEndMiss(s, i2, "a", 0);
        TagEndExact(s, i2, x, "b");
      } else {
        TaggedFacts(x, "rc");
        assert s[i2] == x[0];
        TagEndMiss(s, i2, "a", 0);
        TagEndMiss(s, i2, "b", 0);
        TagEndExact(s, i2, x, "rc");
      }
    }
  }

  /** `s` spells the tokens of `t` in order, the epoch ending at `i1`, the release at `i2`,
      the prerelease at `i3`, the post-release at `i4` and the dev release at the end. */
  predicate Layout(s: string, t: Tokens, i1: nat, i2: nat, i3: nat, i4: nat)
  {
    i1 <= i2 <= i3 <= i4 <= |s| &&
    s[..i1] == OptText(t.epoch) && s[i1..i2] == t.release && s[i2..i3] == OptText(t.prerelease) &&
    s[i3..i4] == OptText(t.post) && s[i4..] == OptText(t.dev)
  }

  lemma RenderLayout(t: Tokens)
    ensures var i1 := |OptText(t.epoch)|;
            var i2 := i1 + |t.release|;
            var i3 := i2 + |OptText(t.prerelease)|;
            Layout(Render(t), t, i1, i2, i3, i3 + |OptText(t.post)|)
  {
  }

  /** The characters at the token boundaries of a well-formed layout. */
  lemma LayoutBoundaries(s: string, t: Tokens, i1: nat, i2: nat, i3: nat, i4: nat)
    requires Layout(s, t, i1, i2, i3, i4) && WellFormed(t)
    ensures i4 < |s| ==> s[i4] == '.' && i4 + 1 < |s| && s[i4 + 1] == 'd'
    ensures i3 < |s| ==> s[i3] == '.' && i3 + 1 < |s| && (s[i3 + 1] == 'p' || s[i3 + 1] == 'd')
    ensures i2 < |s| ==> s[i2] != '!' && ReleaseStopsAt(s, i2)
  {
    if t.dev.Some? {
      TaggedFacts(t.dev.value, ".dev");
      assert s[i4] == s[i4..][0] && s[i4 + 1] == s[i4..][1];
    }
    if t.post.Some? {
      TaggedFacts(t.post.value, ".post");
      assert s[i3] == s[i3..i4][0] && s[i3 + 1] == s[i3..i4][1];
    }
    if t.prerelease.Some? {
      var x := t.prerelease.value;
      if IsTagged(x, "a") { TaggedFacts(x, "a"); }
      else if IsTagged(x, "b") { TaggedFacts(x, "b"); }
      else { TaggedFacts(x, "rc"); }
      assert s[i2] == s[i2..i3][0];
    }
  }

  /** On a well-formed layout the epoch and release scans stop at the token boundaries. */
  lemma LayoutScannedRelease(s: string, t: Tokens, i1: nat, i2: nat, i3: nat, i4: nat)
    requires Layout(s, t, i1, i2, i3, i4) && WellFormed(t)
    ensures EpochEnd(s) == i1
    ensures DotGroupsEnd(s, DigitsEnd(s, i1)) == i2
  {
    LayoutBoundaries(s, t, i1, i2, i3, i4);
    EpochEndExact(s, i1, i2);
    ReleaseEnd(s, i1, i2 - i1);
  }

  /** On a well-formed layout the prerelease, post and dev scans stop at the token boundaries. */
  lemma LayoutScannedTags(s: string, t: Tokens, i1: nat, i2: nat, i3: nat, i4: nat)
    requires Layout(s, t, i1, i2, i3, i4) && WellFormed(t)
    ensures PrereleaseEnd(s, i2) == i3
    ensures TagEnd(s, i3, ".post") == i4
    ensures TagEnd(s, i4, ".dev") == |s|
  {
    LayoutBoundaries(s, t, i1, i2, i3, i4);
    PrereleaseEndExact(s, i2, i3);
    LayoutScannedPost(s, t, i1, i2, i3, i4);
    LayoutScannedDev(s, t, i1, i2, i3, i4);
  }

  lemma LayoutScannedPost(s: string, t: Tokens, i1: nat, i2: nat, i3: nat, i4: nat)
    requires Layout(s, t, i1, i2, i3, i4) && WellFormed(t)
    ensures TagEnd(s, i3, ".post") == i4
  {
    LayoutBoundaries(s, t, i1, i2, i3, i4);
    if t.post.Some? {
      TagEndExact(s, i3, t.post.value, ".post");
    } else {
      TagEndMiss(s, i3, ".post", 1);
    }
  }

  lemma LayoutScannedDev(s: string, t: Tokens, i1: nat, i2: nat, i3: nat, i4: nat)
    requires Layout(s, t, i1, i2, i3, i4) && WellFormed(t)
    ensures TagEnd(s, i4, ".dev") == |s|
  {
    if t.dev.Some? {
      LayoutBoundaries(s, t, i1, i2, i3, i4);
      assert s[i4..i4 + |t.dev.value|] == s[i4..];
      TagEndExact(s, i4, t.dev.value, ".dev");
    } else {
      TagEndMiss(s, i4, ".dev", 0);
    }
  }

  /** On the rendering of well-formed tokens, `re.match` finds exactly those tokens and
      matches the whole string. */
  lemma MatchVersionComplete(t: Tokens)
    requires WellFormed(t)
    ensures MatchVersion(Render(t)) == Some((t, |Render(t)|))
  {
    var s, i1 := Render(t), |OptText(t.epoch)|;
    var i2 := i1 + |t.release|;
    var i3 := i2 + |OptText(t.prerelease)|;
    var i4 := i3 + |OptText(t.post)|;
    RenderLayout(t);
    LayoutEnds(s, t, i1, i2, i3, i4);
    LayoutScannedRelease(s, t, i1, i2, i3, i4);
    LayoutScannedTags(s, t, i1, i2, i3, i4);
    LayoutGroups(s, t, i1, i2, i3, i4);
  }

  /** The optional groups of a well-formed layout are the optional tokens. */
  lemma LayoutGroups(s: string, t: Tokens, i1: nat, i2: nat, i3: nat, i4: nat)
    requires Layout(s, t, i1, i2, i3, i4) && WellFormed(t)
    ensures Group(s, 0, i1) == t.epoch && Group(s, i2, i3) == t.prerelease
    ensures Group(s, i3, i4) == t.post && Group(s, i4, |s|) == t.dev
  {
    GroupOf(s, 0, i1, t.epoch);
    GroupOf(s, i2, i3, t.prerelease);
    GroupOf(s, i3, i4, t.post);
    assert s[i4..|s|] == s[i4..];
    GroupOf(s, i4, |s|, t.dev);
  }

  lemma GroupOf(s: string, i: nat, j: nat, x: Option<string>)
    requires i <= j <= |s| && s[i..j] == OptText(x) && (x.Some? ==> |x.value| > 0)
    ensures Group(s, i, j) == x
  {
  }

  /** A well-formed rendering starts and ends with a digit, so `strip()` leaves it alone. */
  lemma RenderStripped(t: Tokens)
    requires WellFormed(t)
    ensures Strip(Render(t)) == Render(t)
  {
    var s, i1 := Render(t), |OptText(t.epoch)|;
    var i2 := i1 + |t.release|;
    var i3 := i2 + |OptText(t.prerelease)|;
    var i4 := i3 + |OptText(t.post)|;
    RenderLayout(t);
    LayoutEnds(s, t, i1, i2, i3, i4);
    StripUnchanged(s);
  }

  lemma LayoutEnds(s: string, t: Tokens, i1: nat, i2: nat, i3: nat, i4: nat)
    requires Layout(s, t, i1, i2, i3, i4) && WellFormed(t)
    ensures |s| > 0 && IsDigit(s[0]) && IsDigit(s[|s| - 1])
  {
    if t.epoch.Some? {
      var e := t.epoch.value;
      assert s[0] == s[..i1][0] == e[..|e| - 1][0];
    } else {
      assert s[0] == s[i1..i2][0];
    }
    var n := |s|;
    if t.dev.Some? {
      TaggedFacts(t.dev.value, ".dev");
      assert s[n - 1] == s[i4..][n - 1 - i4];
    } else if t.post.Some? {
      TaggedFacts(t.post.value, ".post");
      assert s[n - 1] == s[i3..i4][n - 1 - i3];
    } else if t.prerelease.Some? {
      var x := t.prerelease.value;
      if IsTagged(x, "a") { TaggedFacts(x, "a"); }
      else if IsTagged(x, "b") { TaggedFacts(x, "b"); }
      else { TaggedFacts(x, "rc"); }
      assert s[n - 1] == s[i2..i3][n - 1 - i2];
    } else {
      ReleaseCharAt(t.release, |t.release| - 1);
      assert s[n - 1] == s[i1..i2][n - 1 - i1];
    }
  }

  // ---------------------------------------------------------------------------
  // Parsing

  /** Every well-formed rendering parses back to the same tokens: `Version(str(v))` has the
      tokens of `v`. */
  lemma ParseRender(t: Tokens)
    requires WellFormed(t)
    ensures Parse(Render(t)) == Some(Version(Render(t), t))
  {
    MatchVersionComplete(t);
    RenderStripped(t);
  }

  /** A bare release is a version of its own, with only the release token. */
  lemma ParseRelease(r: string)
    requires IsRelease(r)
    ensures Parse(r) == Some(Version(r, Tokens(None, r, None, None, None)))
  {
    var t := Tokens(None, r, None, None, None);
    assert Render(t) == r;
    ParseRender(t);
  }

  /** What `Version(s)` accepts: every present token is in the grammar of its group, the raw
      string is kept, and the tokens render to `s.strip()`. */
  lemma ParseSound(s: string)
    requires Parse(s).Some?
    ensures Parse(s).value.raw == s
    ensures WellFormed(Parse(s).value.tokens)
    ensures Render(Parse(s).value.tokens) == Strip(s)
  {
    MatchVersionSound(s);
    var (t, m) := MatchVersion(s).value;
    assert Parse(s).value == Version(s, t);
    if m == |s| {
      assert s[..m] == s;
    }
  }

  /** `Version(s)` succeeds exactly on the strings of the grammar and on a single digit padded
      with trailing whitespace; in particular never on `""`. */
  lemma ParseAccepts(s: string)
    ensures Parse(s).Some? <==> InGrammar(s) || IsPaddedDigit(s)
  {
    if Parse(s).Some? {
      MatchVersionSound(s);
      var (t, m) := MatchVersion(s).value;
      if m == |s| {
        assert s[..m] == s;
        assert WellFormed(t) && Render(t) == s;
      } else {
        assert s[..1][0] == s[0];
        StripToFirst(s);
        assert IsDigit(s[0]);
      }
    }
    if InGrammar(s) {
      var t :| WellFormed(t) && Render(t) == s;
      ParseRender(t);
    }
    if IsPaddedDigit(s) {
      PaddedDigitParses(s);
    }
  }

  /** A digit followed by whitespace parses as a one-digit release. */
  lemma PaddedDigitParses(s: string)
    requires IsPaddedDigit(s)
    ensures Parse(s) == Some(Version(s, Tokens(None, s[..1], None, None, None)))
  {
    assert !IsSpace(s[0]);
    assert IsSpace(s[1]);
    assert DigitsEnd(s, 0) == 1;
    assert DotGroupsEnd(s, 1) == 1;
    assert EpochEnd(s) == 0;
    TagEndMiss(s, 1, "a", 0);
    TagEndMiss(s, 1, "b", 0);
    TagEndMiss(s, 1, "rc", 0);
    TagEndMiss(s, 1, ".post", 0);
    TagEndMiss(s, 1, ".dev", 0);
    StripToFirst(s);
  }

  // ---------------------------------------------------------------------------
  // `__str__`

  /** `str(v)`: the present tokens appended in field order. */
  method ToString(v: Version) returns (representation: string)
    ensures representation == Render(v.tokens)
  {
    representation := "";
    if v.tokens.epoch.Some? {
      representation := representation + v.tokens.epoch.value;
    }
    representation := representation + v.tokens.release;
    if v.tokens.prerelease.Some? {
      representation := representation + v.tokens.prerelease.value;
    }
    if v.tokens.post.Some? {
      representation := representation + v.tokens.post.value;
    }
    if v.tokens.dev.Some? {
      representation := representation + v.tokens.dev.value;
    }
  }

  /** `str(Version(s)) == s` for every string of the grammar, and `s.strip()` in general. */
  lemma RenderParse(s: string)
    requires Parse(s).Some?
    ensures Render(Parse(s).value.tokens) == Strip(s)
    ensures InGrammar(s) ==> Render(Parse(s).value.tokens) == s
  {
    ParseSound(s);
    if InGrammar(s) {
      var t :| WellFormed(t) && Render(t) == s;
      ParseRender(t);
    }
  }

  // ---------------------------------------------------------------------------
  // Equality and ordering

  /** `__eq__`: all five tokens equal as text (both absent counts as equal). */
  predicate Eq(a: Version, b: Version)
  {
    a.tokens.epoch == b.tokens.epoch && a.tokens.release == b.tokens.release &&
    a.tokens.prerelease == b.tokens.prerelease && a.tokens.post == b.tokens.post &&
    a.tokens.dev == b.tokens.dev
  }

  /** The per-field test of `__lt__` for epoch and release: an absent value is the minimum. */
  predicate AbsentIsLeast(x: Option<string>, y: Option<string>)
  {
    x.None? || (y.Some? && LexLe(x.value, y.value))
  }

  /** The per-field test of `__lt__` for prerelease, post and dev: an absent value on the
      other side is the maximum. */
  predicate AbsentIsGreatest(x: Option<string>, y: Option<string>)
  {
    y.None? || (x.Some? && LexLe(x.value, y.value))
  }

  /** Every field of `a` is at most the same field of `b` under its field's rule. */
  predicate FieldsAtMost(a: Tokens, b: Tokens)
  {
    AbsentIsLeast(a.epoch, b.epoch) && AbsentIsLeast(Some(a.release), Some(b.release)) &&
    AbsentIsGreatest(a.prerelease, b.prerelease) && AbsentIsGreatest(a.post, b.post) &&
    AbsentIsGreatest(a.dev, b.dev)
  }

  /** `a < b`: every field passes its test, and the versions differ. */
  predicate Lt(a: Version, b: Version)
  {
    FieldsAtMost(a.tokens, b.tokens) && !Eq(a, b)
  }

  /** The derived comparisons that `functools.total_ordering` builds from `__lt__` and `__eq__`. */
  predicate Ge(a: Version, b: Version) { !Lt(a, b) }
  predicate Gt(a: Version, b: Version) { !Lt(a, b) && !Eq(a, b) }
  predicate Le(a: Version, b: Version) { Lt(a, b) || Eq(a, b) }

  /** The test that the loop of `__lt__` applies to the entry `key` of both token dicts. */
  predicate EntryPasses(key: Field, val: Option<string>, other: Option<string>)
  {
    if key == Prerelease || key == Post || key == Dev then AbsentIsGreatest(val, other)
    else AbsentIsLeast(val, other)
  }

  /** The loop's per-entry tests, over the five entries, are the field rules of `<`. */
  lemma EntriesPass(a: Tokens, b: Tokens)
    ensures FieldsAtMost(a, b) <==>
            forall k :: 0 <= k < 5 ==> EntryPasses(Items(a)[k].0, Items(a)[k].1, Items(b)[k].1)
  {
    assert Items(a)[0].0 == Epoch && Items(a)[1].0 == Release && Items(a)[2].0 == Prerelease;
    assert Items(a)[3].0 == Post && Items(a)[4].0 == Dev;
  }

  /** `__lt__`: folds the flag `last` over the token dicts, returning as soon as it is false. */
  method LessThan(a: Version, b: Version) returns (r: bool)
    ensures r == Lt(a, b)
  {
    EntriesPass(a.tokens, b.tokens);
    var last := true;
    var mine, theirs := Items(a.tokens), Items(b.tokens);
    var i := 0;
    while i < |mine|
      invariant 0 <= i <= |mine|
      invariant last <==> forall k :: 0 <= k < i ==> EntryPasses(mine[k].0, mine[k].1, theirs[k].1)
    {
      if !last {
        return false;
      }
      var (key, val) := mine[i];
      last := last && EntryPasses(key, val, theirs[i].1);
      i := i + 1;
    }
    r := last && !Eq(a, b);
  }

  /** `==` is `==` on the tokens, so it is reflexive and ignores the raw string. */
  lemma EqIsTokenEquality(a: Version, b: Version)
    ensures Eq(a, b) <==> a.tokens == b.tokens
  {
  }

  lemma FieldsAtMostReflexive(t: Tokens)
    ensures FieldsAtMost(t, t)
  {
    LexLeReflexive(t.release);
    if t.epoch.Some? { LexLeReflexive(t.epoch.value); }
    if t.prerelease.Some? { LexLeReflexive(t.prerelease.value); }
    if t.post.Some? { LexLeReflexive(t.post.value); }
    if t.dev.Some? { LexLeReflexive(t.dev.value); }
  }

  /** `<` is irreflexive: `not v < v`, and `v <= v`, `v >= v`. */
  lemma LtIrreflexive(v: Version)
    ensures !Lt(v, v) && Le(v, v) && Ge(v, v) && !Gt(v, v)
  {
  }

  lemma AbsentIsLeastAntisymmetric(x: Option<string>, y: Option<string>)
    requires AbsentIsLeast(x, y) && AbsentIsLeast(y, x)
    ensures x == y
  {
    if x.Some? && y.Some? { LexLeAntisymmetric(x.value, y.value); }
  }

  lemma AbsentIsGreatestAntisymmetric(x: Option<string>, y: Option<string>)
    requires AbsentIsGreatest(x, y) && AbsentIsGreatest(y, x)
    ensures x == y
  {
    if x.Some? && y.Some? { LexLeAntisymmetric(x.value, y.value); }
  }

  /** The field rules together are antisymmetric: tokens at most each other are equal. */
  lemma FieldsAtMostAntisymmetric(a: Tokens, b: Tokens)
    requires FieldsAtMost(a, b) && FieldsAtMost(b, a)
    ensures a == b
  {
    AbsentIsLeastAntisymmetric(a.epoch, b.epoch);
    AbsentIsLeastAntisymmetric(Some(a.release), Some(b.release));
    AbsentIsGreatestAntisymmetric(a.prerelease, b.prerelease);
    AbsentIsGreatestAntisymmetric(a.post, b.post);
    AbsentIsGreatestAntisymmetric(a.dev, b.dev);
  }

  /** `<` is asymmetric: `a < b` and `b < a` never both hold. */
  lemma LtAsymmetric(a: Version, b: Version)
    requires Lt(a, b)
    ensures !Lt(b, a)
  {
    if Lt(b, a) {
      FieldsAtMostAntisymmetric(a.tokens, b.tokens);
    }
  }

  lemma AbsentIsLeastTransitive(x: Option<string>, y: Option<string>, z: Option<string>)
    requires AbsentIsLeast(x, y) && AbsentIsLeast(y, z)
    ensures AbsentIsLeast(x, z)
  {
    if x.Some? { LexLeTransitive(x.value, y.value, z.value); }
  }

  lemma AbsentIsGreatestTransitive(x: Option<string>, y: Option<string>, z: Option<string>)
    requires AbsentIsGreatest(x, y) && AbsentIsGreatest(y, z)
    ensures AbsentIsGreatest(x, z)
  {
    if z.Some? { LexLeTransitive(x.value, y.value, z.value); }
  }

  /** `<` is transitive. */
  lemma LtTransitive(a: Version, b: Version, c: Version)
    requires Lt(a, b) && Lt(b, c)
    ensures Lt(a, c)
  {
    AbsentIsLeastTransitive(a.tokens.epoch, b.tokens.epoch, c.tokens.epoch);
    AbsentIsLeastTransitive(Some(a.tokens.release), Some(b.tokens.release), Some(c.tokens.release));
    AbsentIsGreatestTransitive(a.tokens.prerelease, b.tokens.prerelease, c.tokens.prerelease);
    AbsentIsGreatestTransitive(a.tokens.post, b.tokens.post, c.tokens.post);
    AbsentIsGreatestTransitive(a.tokens.dev, b.tokens.dev, c.tokens.dev);
    if Eq(a, c) {
      assert a.tokens == c.tokens;
      FieldsAtMostAntisymmetric(a.tokens, b.tokens);
    }
  }

  /** `a > b` holds whenever `b < a`; the converse needs the two to be comparable. */
  lemma GtOfLt(a: Version, b: Version)
    requires Lt(b, a)
    ensures Gt(a, b) && Ge(a, b) && !Le(a, b)
  {
    LtAsymmetric(b, a);
  }

  /** `<` is a product order, not a lexicographic one: `a < b` exactly when every field of `a`
      is at most that of `b` and some field differs. */
  lemma LtIsProductOrder(a: Version, b: Version)
    ensures Lt(a, b) <==> FieldsAtMost(a.tokens, b.tokens) && a.tokens != b.tokens
  {
  }
}
