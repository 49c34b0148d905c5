/** Scenarios: the behaviour the repository's unit tests expect (tests/requirements_parser.py),
    and a few consequences of the model that the tests do not show, on concrete versions. */
module Scenarios {
  import opened Options
  import opened PyStr
  import opened Versions
  import opened Builder
  import opened Comparators
  import opened Requirements

  /** The version that `Version(s)` builds from the rendering of `t`. */
  function V(t: Tokens): Version
  {
    Version(Render(t), t)
  }

  /** The tokens of a version that is only a release. */
  function Bare(r: string): Tokens
  {
    Tokens(None, r, None, None, None)
  }

  /** `Version("1.2.3")` has the release `1.2.3`. */
  lemma ValidRelease()
    ensures Parse(Render(Bare("1.2.3"))) == Some(V(Bare("1.2.3")))
  {
    ReleaseFormed();
    ParseRender(Bare("1.2.3"));
  }

  /** `1.2.3` is a release. */
  lemma ReleaseFormed()
    ensures IsRelease("1.2.3")
  {
    var r := "1.2.3";
    forall k | 0 <= k < |r| ensures ReleaseChar(r, k, |r|) {
      assert k == 0 || k == 1 || k == 2 || k == 3 || k == 4;
    }
  }

  /** `Version("1.2.3rc3")` has the release `1.2.3` and the prerelease `rc3`. */
  lemma ValidPrerelease()
    ensures Parse(Render(Tokens(None, "1.2.3", Some("rc3"), None, None))) == Some(V(Tokens(None, "1.2.3", Some("rc3"), None, None)))
  {
    ReleaseFormed();
    assert IsTagged("rc3", "rc");
    ParseRender(Tokens(None, "1.2.3", Some("rc3"), None, None));
  }

  /** `abc3` is no prerelease: the match stops after `1.2.3`, short of the whole string. */
  lemma InvalidTag()
    ensures Parse("1.2.3abc3").None?
  {
    var s := "1.2.3abc3";
    assert DigitsEnd(s, 0) == 1;
    assert EpochEnd(s) == 0;
    assert DotGroupsEnd(s, 1) == 5;
    assert PrereleaseEnd(s, 5) == 5;
    assert TagEnd(s, 5, ".post") == 5;
    assert TagEnd(s, 5, ".dev") == 5;
    assert MatchVersion(s).value.1 == 5;
  }

  /** The empty string, an epoch alone and tags without a release are rejected. */
  lemma InvalidEmpty()
    ensures Parse("").None?
  {
  }

  lemma InvalidEpochOnly()
    ensures Parse("1!").None?
  {
  }

  lemma InvalidDevOnly()
    ensures Parse("dev3").None?
  {
  }

  lemma InvalidPostOnly()
    ensures Parse(".post0").None?
  {
  }

  /** `1.2 < 1.3`, and a release is greater than its release candidates. */
  lemma Ordering()
    ensures Lt(V(Bare("1.2")), V(Bare("1.3")))
    ensures Gt(V(Bare("1.2")), V(Tokens(None, "1.2", Some("rc1"), None, None)))
  {
  }

  /** `1.2rc1` and `1.3.dev1` are each greater than the other: the order is not total. */
  lemma NotTotal()
    ensures var a, b := V(Tokens(None, "1.2", Some("rc1"), None, None)), V(Tokens(None, "1.3", None, None, Some(".dev1")));
            Gt(a, b) && Gt(b, a) && !Lt(a, b) && !Lt(b, a)
  {
  }

  /** Releases are compared as text: `1.10 < 1.9`. */
  lemma TextualRelease()
    ensures Lt(V(Bare("1.10")), V(Bare("1.9")))
  {
  }

  /** An absent post-release counts as the greatest: `1.2.post1 < 1.2`. */
  lemma PostBeforeRelease()
    ensures Lt(V(Tokens(None, "1.2", None, Some(".post1"), None)), V(Bare("1.2")))
  {
  }

  /** The tokens of `3!1.2.3a2.dev4` are in their grammars. */
  lemma EpochFormed()
    ensures IsEpoch("3!") && IsRelease("1.2.3") && IsTagged("a2", "a") && IsTagged(".dev4", ".dev")
  {
    ReleaseFormed();
    assert "3!"[..1] == "3";
    assert ".dev4"[..4] == ".dev" && ".dev4"[4..] == "4";
  }

  /** `strip_least_significant(3!1.2.3a2.dev4)` is `3!1.2.3a2`. */
  lemma StripDevExample()
    ensures var t := Tokens(Some("3!"), "1.2.3", Some("a2"), None, Some(".dev4"));
            StripLeastSignificant(V(t)) == Some(V(t.(dev := None)))
  {
    EpochFormed();
    StripSpec(V(Tokens(Some("3!"), "1.2.3", Some("a2"), None, Some(".dev4"))));
  }

  /** `strip_least_significant(1.2.3)` is `1.2`. */
  lemma StripReleaseExample()
    ensures StripLeastSignificant(V(Bare("1.2.3"))) == Some(V(Bare("1.2")))
  {
    ReleaseFormed();
    StripSpec(V(Bare("1.2.3")));
    assert RSplitHead("1.2.3", '.') == "1.2";
  }

  /** `_increment("1.2.3")` is `1.2.4`. */
  lemma BumpExample()
    ensures BumpRelease("1.2.3") == "1.2.4"
  {
    ReleaseFormed();
    BumpReleaseSpec("1.2.3");
    assert LastIndexOf("1.2.3", '.') == 3;
    assert Successor("3") == "4";
  }

  /** `increment_least_significant(3!1.2.3)` is `3!1.2.4`. */
  lemma IncrementExample()
    ensures IncrementLeastSignificant(V(Tokens(Some("3!"), "1.2.3", None, None, None))) ==
            Some(V(Tokens(Some("3!"), "1.2.4", None, None, None)))
  {
    EpochFormed();
    BumpExample();
    IncrementSpec(V(Tokens(Some("3!"), "1.2.3", None, None, None)));
  }

  /** `_increment("1")` is `2`. */
  lemma BumpOne()
    ensures BumpRelease("1") == "2"
  {
    assert IsRelease("1");
    BumpReleaseSpec("1");
    assert LastIndexOf("1", '.') == -1;
    assert Successor("1") == "2";
  }

  /** The upper bound of `~= 1.1` is `2`. */
  lemma UpperExample()
    ensures UpperBound(Bare("1.1")) == Some(Bare("2"))
  {
    assert IsRelease("1.1") by {
      var r := "1.1";
      forall k | 0 <= k < |r| ensures ReleaseChar(r, k, |r|) {
        assert k == 0 || k == 1 || k == 2;
      }
    }
    assert RSplitHead("1.1", '.') == "1";
    UpperBoundOfRelease(Bare("1.1"));
    BumpOne();
  }

  /** `1.2.4.5.6.7` is at least `1.1` and below the upper bound `2` of `~= 1.1`. */
  lemma CompatibleBounds()
    ensures var x, y := V(Bare("1.2.4.5.6.7")), V(Bare("1.1"));
            Ge(x, y) && UpperBound(y.tokens) == Some(Bare("2")) && Lt(x, V(Bare("2")))
  {
    UpperExample();
    assert !LexLe("1.2.4.5.6.7", "1.1");
  }

  /** `1.2.4.5.6.7 ~= 1.1` holds. */
  lemma CompatibleExample()
    ensures CompatibleWith(V(Bare("1.2.4.5.6.7")), V(Bare("1.1"))) == Some(true)
  {
    var x, y := V(Bare("1.2.4.5.6.7")), V(Bare("1.1"));
    CompatibleBounds();
    CompatibleSpec(x, y);
  }

  /** A version built from a release alone renders as that release. */
  lemma RenderBare(r: string)
    ensures Render(Bare(r)) == r
  {
    assert [] + r + [] + [] + [] == r;
  }

  /** The releases in the urllib3 requirement are releases. */
  lemma UrllibReleases()
    ensures IsRelease("1.25.1") && IsRelease("1.26") && IsRelease("1.25.0") && IsRelease("1.21.1")
  {
    var a, b, c, d := "1.25.1", "1.26", "1.25.0", "1.21.1";
    assert forall k :: 0 <= k < |a| ==> ReleaseChar(a, k, |a|);
    assert forall k :: 0 <= k < |b| ==> ReleaseChar(b, k, |b|);
    assert forall k :: 0 <= k < |c| ==> ReleaseChar(c, k, |c|);
    assert forall k :: 0 <= k < |d| ==> ReleaseChar(d, k, |d|);
  }

  /** The pieces of the urllib3 requirement, each an operator followed by a release. */
  lemma UrllibPieces(ops: seq<Comparator>, rs: seq<string>)
    requires ops == [Exclude, Less, Exclude, GreaterEqual]
    requires rs == ["1.25.1", "1.26", "1.25.0", "1.21.1"]
    ensures seq(|ops|, i requires 0 <= i < |ops| && |rs| == |ops| => Symbol(ops[i]) + rs[i]) ==
              ["!=1.25.1", "<1.26", "!=1.25.0", ">=1.21.1"]
  {
    assert Symbol(Exclude) + "1.25.1" == "!=1.25.1";
    assert Symbol(Less) + "1.26" == "<1.26";
    assert Symbol(Exclude) + "1.25.0" == "!=1.25.0";
    assert Symbol(GreaterEqual) + "1.21.1" == ">=1.21.1";
  }

  /** The group of the urllib3 requirement is the comma join of its pieces. */
  lemma UrllibGroup(pieces: seq<string>)
    requires pieces == ["!=1.25.1", "<1.26", "!=1.25.0", ">=1.21.1"]
    ensures Join(pieces, ',') == "!=1.25.1,<1.26,!=1.25.0,>=1.21.1"
  {
    assert pieces[..1] == ["!=1.25.1"];
    assert pieces[..2] == ["!=1.25.1", "<1.26"];
    assert pieces[..3] == ["!=1.25.1", "<1.26", "!=1.25.0"];
    assert pieces[..2][..1] == pieces[..1] && pieces[..3][..2] == pieces[..2];
    assert Join(pieces[..2], ',') == "!=1.25.1,<1.26";
    assert Join(pieces[..3], ',') == "!=1.25.1,<1.26,!=1.25.0";
  }

  /** The clauses the release pieces of the urllib3 requirement give. */
  lemma UrllibClauses(ops: seq<Comparator>, rs: seq<string>)
    requires ops == [Exclude, Less, Exclude, GreaterEqual]
    requires rs == ["1.25.1", "1.26", "1.25.0", "1.21.1"]
    ensures seq(|ops|, i requires 0 <= i < |ops| && |rs| == |ops| =>
                  Clause(ops[i], Some(Version(rs[i], Tokens(None, rs[i], None, None, None))))) ==
              [Clause(Exclude, Some(V(Bare("1.25.1")))), Clause(Less, Some(V(Bare("1.26")))),
               Clause(Exclude, Some(V(Bare("1.25.0")))), Clause(GreaterEqual, Some(V(Bare("1.21.1"))))]
  {
    RenderBare("1.25.1");
    RenderBare("1.26");
    RenderBare("1.25.0");
    RenderBare("1.21.1");
  }

  /** `Requirement("urllib3 (!=1.25.1,<1.26,!=1.25.0,>=1.21.1)")`: the name `urllib3` and one
      clause per piece, in order, each comparing with the release of its piece. */
  lemma UrllibRequirement(name: string, group: string)
    requires name == "urllib3" && group == "!=1.25.1,<1.26,!=1.25.0,>=1.21.1"
    ensures ParseRequirement(name + " (" + group + ")") ==
              Some(Requirement(name,
                               [Clause(Exclude, Some(V(Bare("1.25.1")))), Clause(Less, Some(V(Bare("1.26")))),
                                Clause(Exclude, Some(V(Bare("1.25.0")))),
                                Clause(GreaterEqual, Some(V(Bare("1.21.1"))))],
                               name + " (" + group + ")"))
  {
    var ops := [Exclude, Less, Exclude, GreaterEqual];
    var rs := ["1.25.1", "1.26", "1.25.0", "1.21.1"];
    UrllibReleases();
    assert IsWord(name);
    RequirementOfReleases(name, ops, rs);
    UrllibPieces(ops, rs);
    UrllibGroup(["!=1.25.1", "<1.26", "!=1.25.0", ">=1.21.1"]);
    UrllibClauses(ops, rs);
  }

  /** The four clauses of the urllib3 requirement accept `1.25.2` and reject `1.26`. */
  lemma UrllibClausesCheck()
    ensures var clauses := [Clause(Exclude, Some(V(Bare("1.25.1")))), Clause(Less, Some(V(Bare("1.26")))),
                            Clause(Exclude, Some(V(Bare("1.25.0")))),
                            Clause(GreaterEqual, Some(V(Bare("1.21.1"))))];
            Check(clauses, V(Bare("1.25.2"))) == Some(true) && Check(clauses, V(Bare("1.26"))) == Some(false)
  {
  }

  /** The requirement of the urllib3 test accepts `1.25.2` and rejects `1.26`. */
  lemma UrllibCheck(name: string, group: string)
    requires name == "urllib3" && group == "!=1.25.1,<1.26,!=1.25.0,>=1.21.1"
    ensures var r := ParseRequirement(name + " (" + group + ")");
            r.Some? && Check(r.value.clauses, V(Bare("1.25.2"))) == Some(true) &&
            Check(r.value.clauses, V(Bare("1.26"))) == Some(false)
  {
    UrllibRequirement(name, group);
    UrllibClausesCheck();
  }
}
