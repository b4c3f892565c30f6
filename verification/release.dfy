/**
 * The release-tag decision of index.ts run(): gating on the pull-request
 * event, branch validation, the bump kind, base and candidate selection from
 * the tag listing, and the semver increment that yields the new tag. The
 * GitHub calls around it are not modelled: the tag listing is an input and the
 * release to create is the output.
 */
module Release {
  import opened Wrappers
  import opened Strings
  import opened Semver
  import opened Branches
  import opened Tags

  /** The parts of the workflow context and pull-request payload that run() reads. */
  datatype PullRequestEvent = PullRequestEvent(
    eventName: string,   // Github.context.eventName
    action: string,      // payload.action
    baseRef: string,     // pull_request.base.ref
    draft: bool,         // pull_request.draft
    merged: bool,        // pull_request.merged
    headRef: string,     // pull_request.head.ref
    title: string,       // pull_request.title, the release name
    body: string)        // pull_request.body, the release body

  const SupportedActions: seq<string> := ["opened", "edited", "closed", "ready_for_review", "synchronize"]

  /** Why a run fails (core.setFailed). */
  datatype Failure =
    | InvalidBranchName   // 'Branch name pattern is not valid'
    | NoBaseTag           // firstValid is undefined, so reading its name throws
    | NullTag             // semver.inc returned null: the candidate tag is not a valid version

  datatype Decision =
    | Skip                // an early return: nothing is created
    | Fail(failure: Failure)
    | Create(tag: string, prerelease: bool, name: string, body: string)   // createRelease arguments

  /** The early returns at index.ts:31-48. */
  predicate PassesGates(e: PullRequestEvent) {
    && e.eventName == "pull_request"
    && e.baseRef == "master"
    && !e.draft
    && e.action in SupportedActions
  }

  predicate ClosedUnmerged(e: PullRequestEvent) { e.action == "closed" && !e.merged }

  predicate IsMerge(e: PullRequestEvent) { e.action == "closed" && e.merged }

  /**
   * index.ts:99-111. A pre-release bumps the first candidate tag's counter, or
   * starts a candidate from the base; a final release bumps the base.
   */
  function NextTag(branch: string, c: Category, prerelease: bool, lastTag: string, tags: seq<string>): Option<string>
  {
    if prerelease then
      var rc := RcName(branch);
      match SelectCandidate(tags, rc)
      case Some(candidate) => IncTag(candidate, PreRelease, "")
      case None => IncTag(lastTag, BumpKind(c, true), rc)
    else
      IncTag(lastTag, BumpKind(c, false), "")
  }

  /** What one run of the action does for one event, given the repository's tag listing. */
  function Decide(e: PullRequestEvent, listing: seq<string>): Decision {
    if !PassesGates(e) then Skip
    else
      match Classify(e.headRef)
      case None => Fail(InvalidBranchName)
      case Some(c) =>
        if ClosedUnmerged(e) then Skip
        else
          var prerelease := !IsMerge(e);
          var tags := FirstPage(listing);
          match SelectBase(tags)
          case None => Fail(NoBaseTag)
          case Some(lastTag) =>
            match NextTag(e.headRef, c, prerelease, lastTag, tags)
            case None => Fail(NullTag)
            case Some(t) => Create(t, prerelease, e.title, e.body)
  }

  /**
   * run() step by step: the locals it keeps, its early returns and the point
   * where it throws, in the order the source has them.
   */
  method Run(e: PullRequestEvent, listing: seq<string>) returns (d: Decision)
    ensures d == Decide(e, listing)
  {
    var prerelease := true;
    var branch := "";
    var body := "";
    var releaseName := "";
    if e.eventName != "pull_request" {
      return Skip;
    }
    if e.baseRef != "master" {
      return Skip;
    }
    if e.draft {
      return Skip;
    }
    if e.action !in SupportedActions {
      return Skip;
    }
    branch := e.headRef;
    if !IsValidBranch(branch) {
      return Fail(InvalidBranchName);
    }
    if e.action == "closed" && !e.merged {
      return Skip;
    }
    if e.action == "closed" && e.merged {
      prerelease := false;
    }
    body := e.body;
    releaseName := e.title;

    // the switch on the patterns; its default case is ruled out by the check above
    var c := Classify(branch).value;
    var bump := BumpKind(c, prerelease);

    var tags := FirstPage(listing);
    var firstValid := SelectBase(tags);
    if firstValid.None? {
      return Fail(NoBaseTag);
    }
    var lastTag := firstValid.value;
    var newTag: Option<string>;
    if prerelease {
      var rcName := RcName(branch);
      var rcs := SelectCandidate(tags, rcName);
      if rcs.Some? {
        newTag := IncTag(rcs.value, PreRelease, "");
      } else {
        newTag := IncTag(lastTag, bump, rcName);
      }
    } else {
      newTag := IncTag(lastTag, bump, "");
    }
    if newTag.None? {
      return Fail(NullTag);
    }
    d := Create(newTag.value, prerelease, releaseName, body);
  }

  // ------------------------------------------------------------------ outcomes

  /** What a created release is made of: the gates passed and the tag is NextTag's. */
  lemma Created(e: PullRequestEvent, listing: seq<string>)
    requires Decide(e, listing).Create?
    ensures PassesGates(e) && Classify(e.headRef).Some? && !ClosedUnmerged(e)
    ensures SelectBase(FirstPage(listing)).Some?
    ensures Decide(e, listing).prerelease == !IsMerge(e)
    ensures NextTag(e.headRef, Classify(e.headRef).value, !IsMerge(e), SelectBase(FirstPage(listing)).value, FirstPage(listing))
            == Some(Decide(e, listing).tag)
  {
  }

  /** The converse: passing gates, a base and a tag from NextTag make a release. */
  lemma Creates(e: PullRequestEvent, listing: seq<string>, c: Category, lastTag: string, t: string)
    requires PassesGates(e) && Classify(e.headRef) == Some(c) && !ClosedUnmerged(e)
    requires SelectBase(FirstPage(listing)) == Some(lastTag)
    requires NextTag(e.headRef, c, !IsMerge(e), lastTag, FirstPage(listing)) == Some(t)
    ensures Decide(e, listing) == Create(t, !IsMerge(e), e.title, e.body)
  {
  }

  /**
   * Nothing is created exactly when a gate fails or a valid-branch pull
   * request was closed without merging; an invalid branch fails even then.
   */
  lemma SkipOrInvalid(e: PullRequestEvent, listing: seq<string>)
    ensures Decide(e, listing) == Skip <==>
              !PassesGates(e) || (IsValidBranch(e.headRef) && ClosedUnmerged(e))
    ensures Decide(e, listing) == Fail(InvalidBranchName) <==>
              PassesGates(e) && !IsValidBranch(e.headRef)
  {
  }

  /** A release is a pre-release exactly when the pull request is not being closed (closed means merged here). */
  lemma PrereleaseUnlessMerged(e: PullRequestEvent, listing: seq<string>)
    requires Decide(e, listing).Create?
    ensures Decide(e, listing).prerelease <==> e.action != "closed"
    ensures Decide(e, listing).name == e.title && Decide(e, listing).body == e.body
  {
  }

  /**
   * With no final release tag on the first page the run fails, even when a
   * release candidate for the branch exists: the base is read first.
   */
  lemma NoBaseFails(e: PullRequestEvent, listing: seq<string>)
    ensures Decide(e, listing) == Fail(NoBaseTag) <==>
              && PassesGates(e) && IsValidBranch(e.headRef) && !ClosedUnmerged(e)
              && forall i :: 0 <= i < |FirstPage(listing)| ==> !IsFinalTag(FirstPage(listing)[i])
  {
    SelectBaseNone(FirstPage(listing));
  }

  /** semver.inc returns null only for a pre-release whose first candidate tag is not a valid version. */
  lemma NullTagOnlyFromCandidate(e: PullRequestEvent, listing: seq<string>)
    ensures Decide(e, listing) == Fail(NullTag) <==>
              && PassesGates(e) && IsValidBranch(e.headRef) && !ClosedUnmerged(e) && !IsMerge(e)
              && SelectBase(FirstPage(listing)).Some?
              && SelectCandidate(FirstPage(listing), RcName(e.headRef)).Some?
              && !Valid(SelectCandidate(FirstPage(listing), RcName(e.headRef)).value)
  {
    if PassesGates(e) && IsValidBranch(e.headRef) && !ClosedUnmerged(e) {
      var tags := FirstPage(listing);
      match SelectBase(tags)
      case None =>
      case Some(lastTag) =>
        assert IsFinalTag(lastTag) && Valid(lastTag);
    }
  }

  // ----------------------------------------------------------- final releases

  /**
   * On merge the new tag is the base with the category's component raised
   * and the lower ones reset, with no pre-release part; it is a final release
   * tag and strictly above the base in precedence.
   */
  lemma MergedRelease(e: PullRequestEvent, listing: seq<string>)
    requires Decide(e, listing).Create? && !Decide(e, listing).prerelease
    ensures IsMerge(e) && IsValidBranch(e.headRef) && SelectBase(FirstPage(listing)).Some?
    ensures var b := Parse(SelectBase(FirstPage(listing)).value).value;
            var t := Decide(e, listing).tag;
            && b.pre == []
            && IsFinalTag(t)
            && Parse(t) == Some(match Classify(e.headRef).value
                                case Fix => Version(b.major, b.minor, b.patch + 1, [])
                                case Feature => Version(b.major, b.minor + 1, 0, [])
                                case ReleaseBranch => Version(b.major + 1, 0, 0, []))
            && Precedes(b, Parse(t).value)
  {
    var tags := FirstPage(listing);
    var base := SelectBase(tags).value;
    var b := Parse(base).value;
    var c := Classify(e.headRef).value;
    assert IsFinalTag(base);
    var w := Inc(b, BumpKind(c, false), "");
    assert Decide(e, listing).tag == Format(w);
    IncFinal(b);
    ParseFormat(w);
    IncIncreases(b, BumpKind(c, false), "");
  }

  /** Listed first, the tag a merge creates is the base of the next run. */
  lemma MergedTagIsNextBase(e: PullRequestEvent, listing: seq<string>)
    requires Decide(e, listing).Create? && !Decide(e, listing).prerelease
    ensures SelectBase([Decide(e, listing).tag] + FirstPage(listing)) == Some(Decide(e, listing).tag)
  {
    MergedRelease(e, listing);
    SelectBaseFirst(Decide(e, listing).tag, FirstPage(listing));
  }

  // ------------------------------------------------------- release candidates

  /** `X.Y.Z-<rc>.<k>`: a version in the shape index.ts gives release candidates. */
  predicate IsCandidateOf(v: Version, rc: string) {
    |v.pre| == 2 && v.pre[0] == Alpha(rc) && v.pre[1].Num?
  }

  /**
   * Without an existing candidate the new tag is the base bumped by
   * pre<category>, carrying the candidate name and counter 0; the tag contains
   * the candidate name, so the next run finds it.
   */
  lemma CreateCandidate(e: PullRequestEvent, listing: seq<string>)
    requires Decide(e, listing).Create? && Decide(e, listing).prerelease
    requires SelectCandidate(FirstPage(listing), RcName(e.headRef)).None?
    ensures SelectBase(FirstPage(listing)).Some?
    ensures var b := Parse(SelectBase(FirstPage(listing)).value).value;
            var rc := RcName(e.headRef);
            var t := Decide(e, listing).tag;
            && t == Format(match Classify(e.headRef).value
                           case Fix => Version(b.major, b.minor, b.patch + 1, [Alpha(rc), Num(0)])
                           case Feature => Version(b.major, b.minor + 1, 0, [Alpha(rc), Num(0)])
                           case ReleaseBranch => Version(b.major + 1, 0, 0, [Alpha(rc), Num(0)]))
            && Contains(t, rc)
  {
    Created(e, listing);
    var base := SelectBase(FirstPage(listing)).value;
    assert IsFinalTag(base);
    FreshCandidateTag(e.headRef, Classify(e.headRef).value, base, FirstPage(listing), Decide(e, listing).tag);
  }

  /** NextTag's side of CreateCandidate: with no candidate listed, the base is bumped by pre<category>. */
  lemma FreshCandidateTag(branch: string, c: Category, base: string, tags: seq<string>, t: string)
    requires IsFinalTag(base) && SelectCandidate(tags, RcName(branch)).None?
    requires NextTag(branch, c, true, base, tags) == Some(t)
    ensures var b := Parse(base).value;
            var w := Inc(b, BumpKind(c, true), RcName(branch));
            && w == (match c
                     case Fix => Version(b.major, b.minor, b.patch + 1, [Alpha(RcName(branch)), Num(0)])
                     case Feature => Version(b.major, b.minor + 1, 0, [Alpha(RcName(branch)), Num(0)])
                     case ReleaseBranch => Version(b.major + 1, 0, 0, [Alpha(RcName(branch)), Num(0)]))
            && t == Format(w)
            && Contains(t, RcName(branch))
  {
    var rc := RcName(branch);
    var b := Parse(base).value;
    var kind := BumpKind(c, true);
    IncTagOfValid(base, b, kind, rc);
    var w := Inc(b, kind, rc);
    assert w.pre == [Alpha(rc), Num(0)];
    CandidateTagContainsName(w, rc);
  }

  lemma CandidateTagContainsName(w: Version, rc: string)
    requires w.pre == [Alpha(rc), Num(0)] || IsCandidateOf(w, rc)
    ensures Contains(Format(w), rc)
  {
    var tail := [w.pre[1]];
    assert w.pre[1..] == tail;
    assert FormatIdents(tail) == FormatIdent(w.pre[1]);
    assert FormatIdent(w.pre[0]) == rc;
    var p := FormatIdents(w.pre);
    assert p == rc + "." + FormatIdent(w.pre[1]);
    assert Format(w) == (FormatIdents(Triple(w)) + "-") + rc + ("." + FormatIdent(w.pre[1]));
    ContainsInfix(FormatIdents(Triple(w)) + "-", rc, "." + FormatIdent(w.pre[1]));
  }

  /**
   * With a candidate, the new tag is semver.inc(candidate, 'prerelease'): the
   * numeric triple and the name stay, the trailing counter goes up by one, and
   * the result is strictly above the candidate.
   */
  lemma IncreaseCandidate(e: PullRequestEvent, listing: seq<string>, candidate: string, v: Version)
    requires Decide(e, listing).Create? && Decide(e, listing).prerelease
    requires SelectCandidate(FirstPage(listing), RcName(e.headRef)) == Some(candidate)
    requires Parse(candidate) == Some(v)
    ensures Decide(e, listing).tag == Format(Inc(v, PreRelease, ""))
    ensures Parse(Decide(e, listing).tag) == Some(Inc(v, PreRelease, ""))
    ensures Precedes(v, Inc(v, PreRelease, ""))
    ensures IsCandidateOf(v, RcName(e.headRef)) ==>
              Inc(v, PreRelease, "") == Version(v.major, v.minor, v.patch, [Alpha(RcName(e.headRef)), Num(v.pre[1].n + 1)])
  {
    Created(e, listing);
    IncTagOfValid(candidate, v, PreRelease, "");
    ParseFormatInc(v, PreRelease, "");
    IncIncreases(v, PreRelease, "");
    if IsCandidateOf(v, RcName(e.headRef)) {
      IncCandidate(v, RcName(e.headRef));
    }
  }

  /**
   * The first candidate on the page, if any, has the release-candidate shape
   * for rc. A candidate of a branch whose name extends this one also contains
   * rc but does not have this shape (CandidateOfLongerBranch).
   */
  predicate CandidatesWellShaped(tags: seq<string>, rc: string) {
    match SelectCandidate(tags, rc)
    case None => true
    case Some(c) => Parse(c).Some? && IsCandidateOf(Parse(c).value, rc)
  }

  /** NextTag's side of CandidateTagShape: a pre-release tag computed from a final base. */
  lemma PreTagShape(branch: string, c: Category, base: string, tags: seq<string>, t: string)
    requires IsAlphanumericId(RcName(branch)) && IsFinalTag(base)
    requires CandidatesWellShaped(tags, RcName(branch))
    requires NextTag(branch, c, true, base, tags) == Some(t)
    ensures Parse(t).Some? && IsCandidateOf(Parse(t).value, RcName(branch))
    ensures Contains(t, RcName(branch)) && !IsFinalTag(t)
  {
    var rc := RcName(branch);
    match SelectCandidate(tags, rc)
    case None =>
      FreshCandidateTag(branch, c, base, tags, t);
      ParseFormatInc(Parse(base).value, BumpKind(c, true), rc);
    case Some(cand) =>
      var cv := Parse(cand).value;
      IncTagOfValid(cand, cv, PreRelease, "");
      ParseFormatInc(cv, PreRelease, "");
      IncCandidate(cv, rc);
      var w := Inc(cv, PreRelease, "");
      assert t == Format(w);
      CandidateTagContainsName(w, rc);
  }

  /**
   * The tag a pre-release run creates is a candidate tag of the branch
   * (`X.Y.Z-<rc>.k`, containing rc, not a final release), when the candidate
   * name is a legal identifier (see Branches.RcNameIsIdentifier) and any
   * candidate already listed had that shape.
   */
  lemma CandidateTagShape(e: PullRequestEvent, listing: seq<string>)
    requires IsAlphanumericId(RcName(e.headRef))
    requires Decide(e, listing).Create? && Decide(e, listing).prerelease
    requires CandidatesWellShaped(FirstPage(listing), RcName(e.headRef))
    ensures Parse(Decide(e, listing).tag).Some?
    ensures IsCandidateOf(Parse(Decide(e, listing).tag).value, RcName(e.headRef))
    ensures Contains(Decide(e, listing).tag, RcName(e.headRef))
    ensures !IsFinalTag(Decide(e, listing).tag)
  {
    Created(e, listing);
    var base := SelectBase(FirstPage(listing)).value;
    assert IsFinalTag(base);
    PreTagShape(e.headRef, Classify(e.headRef).value, base, FirstPage(listing), Decide(e, listing).tag);
  }

  /** NextTag's side of CandidateNumberingAdvances: the candidate listed first is the one bumped. */
  lemma NextTagAfterCandidate(branch: string, c: Category, base: string, tags: seq<string>, t: string, w: Version)
    requires Parse(t) == Some(w) && IsCandidateOf(w, RcName(branch))
    requires Contains(t, RcName(branch))
    ensures CandidatesWellShaped([t] + tags, RcName(branch))
    ensures NextTag(branch, c, true, base, [t] + tags) ==
              Some(Format(Version(w.major, w.minor, w.patch, [Alpha(RcName(branch)), Num(w.pre[1].n + 1)])))
  {
    var rc := RcName(branch);
    SelectCandidateFirst(t, tags, rc);
    IncTagOfValid(t, w, PreRelease, "");
    IncCandidate(w, rc);
  }

  /**
   * includes(rcName) is a substring test, so a branch also picks up the
   * candidate of any branch whose name extends its own: for `fix/a` the first
   * listed tag `X.Y.Z-rc-fix-ab.k` of `fix/ab` is the candidate, and the run
   * creates `X.Y.Z-rc-fix-ab.(k+1)`, a tag of the other branch.
   */
  lemma CandidateOfLongerBranch(c: Category, rest: string, more: string, base: string, tags: seq<string>, w: Version)
    requires IsIdentChars(rest + more)
    requires IsCandidateOf(w, RcName(Prefix(c) + rest + more))
    ensures RcName(Prefix(c) + rest + more) == RcName(Prefix(c) + rest) + more
    ensures |more| > 0 ==> !IsCandidateOf(w, RcName(Prefix(c) + rest))
    ensures NextTag(Prefix(c) + rest, c, true, base, [Format(w)] + tags) ==
              Some(Format(Version(w.major, w.minor, w.patch, [Alpha(RcName(Prefix(c) + rest + more)), Num(w.pre[1].n + 1)])))
  {
    var rc := RcName(Prefix(c) + rest);
    var other := RcName(Prefix(c) + rest + more);
    LongerBranchName(c, rest, more);
    assert WellFormed(w) by {
      assert w.pre == [Alpha(other), w.pre[1]];
    }
    ParseFormat(w);
    CandidateTagContainsName(w, other);
    ContainsPrefixOf(Format(w), rc, more);
    FirstCandidateBumped(Prefix(c) + rest, c, base, tags, Format(w), w, other);
  }

  /** The candidate name of a branch extending another extends that branch's candidate name. */
  lemma LongerBranchName(c: Category, rest: string, more: string)
    requires IsIdentChars(rest + more)
    ensures RcName(Prefix(c) + rest + more) == RcName(Prefix(c) + rest) + more
    ensures IsAlphanumericId(RcName(Prefix(c) + rest + more))
  {
    assert Prefix(c) + rest + more == Prefix(c) + (rest + more);
    LongerRcName(c, rest, more);
    RcNameIsIdentifier(c, rest + more);
  }

  lemma LongerRcName(c: Category, rest: string, more: string)
    ensures RcName(Prefix(c) + (rest + more)) == RcName(Prefix(c) + rest) + more
  {
    RcNameOfBranch(c, rest);
    RcNameOfBranch(c, rest + more);
    ConcatAssoc("rc-" + Name(c) + "-", rest, more);
  }

  lemma ConcatAssoc(x: string, y: string, z: string)
    ensures x + (y + z) == x + y + z
  {
  }

  /** A valid `X.Y.Z-<id>.k` listed first and containing the branch's candidate name is bumped, whatever id is. */
  lemma FirstCandidateBumped(branch: string, c: Category, base: string, tags: seq<string>, t: string, w: Version, id: string)
    requires Parse(t) == Some(w) && IsCandidateOf(w, id)
    requires Contains(t, RcName(branch))
    ensures NextTag(branch, c, true, base, [t] + tags) ==
              Some(Format(Version(w.major, w.minor, w.patch, [Alpha(id), Num(w.pre[1].n + 1)])))
  {
    SelectCandidateFirst(t, tags, RcName(branch));
    IncTagOfValid(t, w, PreRelease, "");
    IncCandidate(w, id);
  }

  /**
   * Release-candidate numbering advances by one per run. A candidate tag t of
   * the branch (`X.Y.Z-<rc>.k`, as CandidateTagShape shows every pre-release
   * run creates), once listed first, makes the next run for the same event
   * create `X.Y.Z-<rc>.(k+1)`; the base is unaffected, since t is not a final
   * release. The listing must leave room for t on the first page. Since t is
   * then the first candidate and well shaped (NextTagAfterCandidate),
   * CandidateTagShape applies again to the longer listing, so the argument
   * repeats run after run.
   */
  lemma CandidateNumberingAdvances(e: PullRequestEvent, listing: seq<string>, t: string, w: Version)
    requires Decide(e, listing).Create? && Decide(e, listing).prerelease
    requires |listing| < PerPage
    requires Parse(t) == Some(w) && IsCandidateOf(w, RcName(e.headRef))
    requires Contains(t, RcName(e.headRef)) && !IsFinalTag(t)
    ensures Decide(e, [t] + listing) ==
              Create(Format(Version(w.major, w.minor, w.patch, [Alpha(RcName(e.headRef)), Num(w.pre[1].n + 1)])),
                     true, e.title, e.body)
  {
    Created(e, listing);
    assert FirstPage(listing) == listing;
    RunAfterCandidate(e, listing, Classify(e.headRef).value, SelectBase(listing).value, t, w);
  }

  /** The run on [t] + listing, from the gates passed and the base found on listing. */
  lemma RunAfterCandidate(e: PullRequestEvent, listing: seq<string>, c: Category, base: string, t: string, w: Version)
    requires PassesGates(e) && Classify(e.headRef) == Some(c) && !ClosedUnmerged(e) && !IsMerge(e)
    requires |listing| < PerPage && SelectBase(listing) == Some(base)
    requires Parse(t) == Some(w) && IsCandidateOf(w, RcName(e.headRef))
    requires Contains(t, RcName(e.headRef)) && !IsFinalTag(t)
    ensures Decide(e, [t] + listing) ==
              Create(Format(Version(w.major, w.minor, w.patch, [Alpha(RcName(e.headRef)), Num(w.pre[1].n + 1)])),
                     true, e.title, e.body)
  {
    var listing' := [t] + listing;
    assert FirstPage(listing') == listing';
    SelectBaseSkips(t, listing);
    NextTagAfterCandidate(e.headRef, c, base, listing, t, w);
    Creates(e, listing', c, base,
            Format(Version(w.major, w.minor, w.patch, [Alpha(RcName(e.headRef)), Num(w.pre[1].n + 1)])));
  }
}
