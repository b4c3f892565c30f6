/**
 * Worked runs of the action: a feature branch opened against a repository
 * whose only tag is 1.2.3, updated once, then merged; two failing runs; and a
 * branch with a second slash, whose candidate tag is not a valid version.
 */
module Scenarios {
  import opened Wrappers
  import opened Strings
  import opened Semver
  import opened Branches
  import opened Tags
  import opened Release

  const Branch: string := "feature/login"
  const Rc: string := "rc-feature-login"
  const Candidate0: string := "1.3.0-rc-feature-login.0"
  const Candidate1: string := "1.3.0-rc-feature-login.1"

  function Event(action: string, merged: bool, branch: string): PullRequestEvent {
    PullRequestEvent("pull_request", action, "master", false, merged, branch, "Login", "Adds login")
  }

  // ------------------------------------------------------ branch and tags

  /** feature/login is a feature branch whose candidate name is rc-feature-login. */
  lemma LoginBranch()
    ensures Classify(Branch) == Some(Feature)
    ensures RcName(Branch) == Rc && IsAlphanumericId(Rc)
  {
    LoginPrefix();
    ClassifyPrefix(Feature, "login");
    RcNameOfBranch(Feature, "login");
    LoginRc();
    RcIdentifier();
  }

  lemma Tag123()
    ensures Parse("1.2.3") == Some(Version(1, 2, 3, [])) && IsFinalTag("1.2.3")
  {
    assert Format(Version(1, 2, 3, [])) == "1.2.3";
    ParseFormat(Version(1, 2, 3, []));
  }

  lemma FormatCandidate0()
    ensures Format(Version(1, 3, 0, [Alpha(Rc), Num(0)])) == Candidate0
  {
    Format130();
    FormatRc0();
    JoinCandidate0();
  }

  lemma FormatCandidate1()
    ensures Format(Version(1, 3, 0, [Alpha(Rc), Num(1)])) == Candidate1
  {
    Format130();
    FormatRc1();
    JoinCandidate1();
  }

  /** The first candidate tag parses back and is a pre-release containing the candidate name. */
  lemma ParseCandidate0()
    ensures Parse(Candidate0) == Some(Version(1, 3, 0, [Alpha(Rc), Num(0)]))
    ensures Contains(Candidate0, Rc) && !IsFinalTag(Candidate0)
  {
    var w := Version(1, 3, 0, [Alpha(Rc), Num(0)]);
    FormatCandidate0();
    LoginBranch();
    ParseFormat(w);
    CandidateTagContainsName(w, Rc);
  }

  lemma Candidate1NotFinal()
    ensures !IsFinalTag(Candidate1)
  {
    var w := Version(1, 3, 0, [Alpha(Rc), Num(1)]);
    FormatCandidate1();
    LoginBranch();
    ParseFormat(w);
  }

  // ------------------------------------------------------------ the runs

  lemma Gates(action: string, merged: bool)
    requires action in SupportedActions
    ensures PassesGates(Event(action, merged, Branch))
  {
  }

  lemma OnlyBase()
    ensures FirstPage(["1.2.3"]) == ["1.2.3"] && SelectBase(["1.2.3"]) == Some("1.2.3")
    ensures SelectCandidate(["1.2.3"], Rc) == None
  {
    Tag123();
    SelectBaseFirst("1.2.3", []);
    assert ["1.2.3"] + [] == ["1.2.3"];
    ContainsShorter("1.2.3", Rc);
  }

  /** The first pre-release tag: pre-minor on 1.2.3 with the candidate name. */
  lemma FirstCandidateTag()
    ensures NextTag(Branch, Feature, true, "1.2.3", ["1.2.3"]) == Some(Candidate0)
  {
    OnlyBase();
    LoginBranch();
    Tag123();
    IncTagOfValid("1.2.3", Version(1, 2, 3, []), PreMinor, Rc);
    FormatCandidate0();
  }

  /** Opening the pull request starts candidate 0 of the next minor version. */
  lemma FeatureOpened()
    ensures Decide(Event("opened", false, Branch), ["1.2.3"]) == Create(Candidate0, true, "Login", "Adds login")
  {
    Gates("opened", false);
    LoginBranch();
    OnlyBase();
    FirstCandidateTag();
    Creates(Event("opened", false, Branch), ["1.2.3"], Feature, "1.2.3", Candidate0);
  }

  /** 1.2.3 stays the base with candidate 0 listed before it. */
  lemma BaseUnderCandidate0()
    ensures FirstPage([Candidate0, "1.2.3"]) == [Candidate0, "1.2.3"]
    ensures SelectBase([Candidate0, "1.2.3"]) == Some("1.2.3")
  {
    OnlyBase();
    ParseCandidate0();
    SelectBaseSkips(Candidate0, ["1.2.3"]);
    PrependCandidate0();
  }

  lemma BumpCandidate0()
    ensures NextTag(Branch, Feature, true, "1.2.3", [Candidate0] + ["1.2.3"])
            == Some(Format(Version(1, 3, 0, [Alpha(Rc), Num(1)])))
  {
    LoginBranch();
    ParseCandidate0();
    BumpListed(Branch, Rc, Candidate0, "1.2.3", Version(1, 3, 0, [Alpha(Rc), Num(0)]), 1);
  }

  /** The generic step behind BumpCandidate0, kept free of literal strings. */
  lemma BumpListed(branch: string, rc: string, t: string, base: string, w: Version, k: nat)
    requires RcName(branch) == rc && Parse(t) == Some(w) && IsCandidateOf(w, rc) && Contains(t, rc)
    requires k == w.pre[1].n + 1
    ensures NextTag(branch, Feature, true, base, [t] + [base]) == Some(Format(Version(w.major, w.minor, w.patch, [Alpha(rc), Num(k)])))
  {
    NextTagAfterCandidate(branch, Feature, base, [base], t, w);
  }

  /** Candidate 0 listed first is the candidate bumped. */
  lemma SecondCandidateTag()
    ensures NextTag(Branch, Feature, true, "1.2.3", [Candidate0, "1.2.3"]) == Some(Candidate1)
  {
    BumpCandidate0();
    FormatCandidate1();
    PrependCandidate0();
  }

  /** Pushing to the branch, with candidate 0 listed first, creates candidate 1. */
  lemma FeatureSynchronized()
    ensures Decide(Event("synchronize", false, Branch), [Candidate0, "1.2.3"]) == Create(Candidate1, true, "Login", "Adds login")
  {
    Gates("synchronize", false);
    LoginBranch();
    BaseUnderCandidate0();
    SecondCandidateTag();
    Creates(Event("synchronize", false, Branch), [Candidate0, "1.2.3"], Feature, "1.2.3", Candidate1);
  }

  /** Candidates are skipped: 1.2.3 is still the base with both candidates listed before it. */
  lemma BaseBelowCandidates()
    ensures FirstPage([Candidate1, Candidate0, "1.2.3"]) == [Candidate1, Candidate0, "1.2.3"]
    ensures SelectBase([Candidate1, Candidate0, "1.2.3"]) == Some("1.2.3")
  {
    OnlyBase();
    ParseCandidate0();
    Candidate1NotFinal();
    SelectBaseSkips(Candidate0, ["1.2.3"]);
    PrependCandidate0();
    SelectBaseSkips(Candidate1, [Candidate0, "1.2.3"]);
    Listing3();
  }

  lemma MinorOf123()
    ensures NextTag(Branch, Feature, false, "1.2.3", [Candidate1, Candidate0, "1.2.3"]) == Some("1.3.0")
  {
    Tag123();
    IncTagOfValid("1.2.3", Version(1, 2, 3, []), Minor, "");
    Format130Final();
  }

  /** Merging releases 1.3.0: the candidates are ignored and the base 1.2.3 gets a minor bump. */
  lemma FeatureMerged()
    ensures Decide(Event("closed", true, Branch), [Candidate1, Candidate0, "1.2.3"]) == Create("1.3.0", false, "Login", "Adds login")
  {
    Gates("closed", true);
    LoginBranch();
    BaseBelowCandidates();
    MinorOf123();
    Creates(Event("closed", true, Branch), [Candidate1, Candidate0, "1.2.3"], Feature, "1.2.3", "1.3.0");
  }

  /** Closing the pull request without merging does nothing, even for a valid branch. */
  lemma FeatureClosedUnmerged()
    ensures Decide(Event("closed", false, Branch), [Candidate0, "1.2.3"]) == Skip
  {
    Gates("closed", false);
    LoginBranch();
    SkipOrInvalid(Event("closed", false, Branch), [Candidate0, "1.2.3"]);
  }

  /** A hotfix/ branch is not one of the accepted patterns: the run fails. */
  lemma HotfixFails()
    ensures Decide(Event("opened", false, "hotfix/crash"), ["1.2.3"]) == Fail(InvalidBranchName)
  {
    HotfixInvalid();
    SkipOrInvalid(Event("opened", false, "hotfix/crash"), ["1.2.3"]);
  }

  lemma NoBaseOnPage()
    ensures FirstPage([Candidate0]) == [Candidate0] && SelectBase([Candidate0]) == None
  {
    ParseCandidate0();
    SelectBaseSkips(Candidate0, []);
    assert [Candidate0] + [] == [Candidate0];
  }

  /** With only a candidate tag listed there is no base, and the run fails. */
  lemma OnlyCandidateFails()
    ensures Decide(Event("opened", false, Branch), [Candidate0]) == Fail(NoBaseTag)
  {
    Gates("opened", false);
    LoginBranch();
    NoBaseOnPage();
  }

  // ------------------------------------------- a branch with a second slash

  const Nested: string := "feature/a/b"
  const NestedRc: string := "rc-feature-a/b"
  const NestedCandidate: string := "1.3.0-rc-feature-a/b.0"

  lemma NestedBranch()
    ensures Classify(Nested) == Some(Feature) && RcName(Nested) == NestedRc
  {
    NestedPrefix();
    ClassifyPrefix(Feature, "a/b");
    RcNameOfBranch(Feature, "a/b");
    NestedRcName();
  }

  lemma FormatNested()
    ensures Format(Version(1, 3, 0, [Alpha(NestedRc), Num(0)])) == NestedCandidate
  {
    Format130();
    FormatNestedRc();
    JoinNested();
  }

  lemma NestedFirstTag()
    ensures NextTag(Nested, Feature, true, "1.2.3", ["1.2.3"]) == Some(NestedCandidate)
  {
    NestedBranch();
    ContainsShorter("1.2.3", NestedRc);
    Tag123();
    IncTagOfValid("1.2.3", Version(1, 2, 3, []), PreMinor, NestedRc);
    FormatNested();
  }

  /** semver.inc does not check its identifier, so the first run still creates a tag. */
  lemma NestedOpened()
    ensures Decide(Event("opened", false, Nested), ["1.2.3"]) == Create(NestedCandidate, true, "Login", "Adds login")
  {
    Gates("opened", false);
    NestedBranch();
    OnlyBase();
    NestedFirstTag();
    Creates(Event("opened", false, Nested), ["1.2.3"], Feature, "1.2.3", NestedCandidate);
  }

  lemma NestedPreParts() ensures ParseIdents("rc-feature-a/b.0") == None
  {
    IndexOfFirst("rc-feature-a/b", '.', "0");
    SplitNestedPre();
    SlashNotIdentifier();
  }

  /** The tag the first run created is not a valid version. */
  lemma NestedCandidateInvalid()
    ensures !Valid(NestedCandidate)
  {
    assert ParseMain(NestedCandidate).None? by {
      SplitNested();
      NestedPreParts();
      NoDashInCore();
      ParseMainBadPre("1.3.0", "rc-feature-a/b.0");
    }
    assert Parse(NestedCandidate) == ParseMain(NestedCandidate) by {
      SplitNested();
      ParsePlain(NestedCandidate);
    }
  }

  /**
   * Only the first `/` of the branch is replaced, so the next run finds that
   * tag as its candidate, semver.inc returns null, and every later update of
   * the pull request fails the same way.
   */
  lemma NestedSynchronizedFails()
    ensures Decide(Event("synchronize", false, Nested), [NestedCandidate, "1.2.3"]) == Fail(NullTag)
  {
    var e := Event("synchronize", false, Nested);
    Gates("synchronize", false);
    NestedBranch();
    NestedCandidateInvalid();
    OnlyBase();
    SelectBaseSkips(NestedCandidate, ["1.2.3"]);
    CandidateTagContainsName(Version(1, 3, 0, [Alpha(NestedRc), Num(0)]), NestedRc);
    FormatNested();
    SelectCandidateFirst(NestedCandidate, ["1.2.3"], NestedRc);
    NestedListing();
    NullTagOnlyFromCandidate(e, [NestedCandidate, "1.2.3"]);
  }

  // -------------------------------------------------------- literal facts

  // Each lemma below states one fact about literal strings or lists. The runs
  // above only call them: the verifier handles each fact cheaply on its own,
  // but evaluating the literals inside a larger proof makes that proof too
  // expensive.

  lemma LoginPrefix() ensures Prefix(Feature) + "login" == Branch { }
  lemma LoginRc() ensures "rc-" + Name(Feature) + "-" + "login" == Rc { }
  lemma RcIdentifier() ensures IsAlphanumericId(Rc) { assert !IsDigit(Rc[0]); }

  lemma Format130() ensures FormatIdents([Num(1), Num(3), Num(0)]) == "1.3.0" { }
  lemma Format130Final() ensures Format(Version(1, 3, 0, [])) == "1.3.0" { Format130(); }
  lemma FormatRc0() ensures FormatIdents([Alpha(Rc), Num(0)]) == "rc-feature-login.0" { }
  lemma JoinCandidate0() ensures "1.3.0" + "-" + "rc-feature-login.0" == Candidate0 { }
  lemma FormatRc1() ensures FormatIdents([Alpha(Rc), Num(1)]) == "rc-feature-login.1" { }
  lemma JoinCandidate1() ensures "1.3.0" + "-" + "rc-feature-login.1" == Candidate1 { }

  lemma PrependCandidate0() ensures [Candidate0] + ["1.2.3"] == [Candidate0, "1.2.3"] { }
  lemma Listing3() ensures [Candidate1] + ([Candidate0] + ["1.2.3"]) == [Candidate1, Candidate0, "1.2.3"] { }

  lemma HotfixInvalid()
    ensures !IsValidBranch("hotfix/crash")
  {
    var b := "hotfix/crash";
    assert b[..4][0] == 'h' && b[..8][0] == 'h';
  }

  lemma NestedPrefix() ensures Prefix(Feature) + "a/b" == Nested { }
  lemma NestedRcName() ensures "rc-" + Name(Feature) + "-" + "a/b" == NestedRc { }
  lemma FormatNestedRc() ensures FormatIdents([Alpha(NestedRc), Num(0)]) == "rc-feature-a/b.0" { }
  lemma JoinNested() ensures "1.3.0" + "-" + "rc-feature-a/b.0" == NestedCandidate { }
  lemma NoDashInCore() ensures '-' !in "1.3.0" { }

  lemma SlashNotIdentifier() ensures ParseIdent("rc-feature-a/b") == None
  {
    assert !IsDigit("rc-feature-a/b"[0]) && !IsIdentChar("rc-feature-a/b"[12]);
  }

  lemma SplitNestedPre()
    ensures "rc-feature-a/b.0" == "rc-feature-a/b" + ['.'] + "0"
    ensures "rc-feature-a/b.0"[..14] == "rc-feature-a/b"
  {
  }

  lemma SplitNested()
    ensures NestedCandidate == "1.3.0" + "-" + "rc-feature-a/b.0"
    ensures NestedCandidate[0] != 'v' && '+' !in NestedCandidate
  {
  }

  lemma NestedListing()
    ensures [NestedCandidate] + ["1.2.3"] == [NestedCandidate, "1.2.3"]
    ensures FirstPage([NestedCandidate, "1.2.3"]) == [NestedCandidate, "1.2.3"]
  {
  }
}
