/**
 * The tag listing and the two selections made from it in index.ts: the base
 * tag (`filter` out pre-releases, then `find` the first valid version) and the
 * release-candidate tags (`filter` by the candidate name, then take the first).
 * Listing order is trusted as given: nothing is sorted.
 */
module Tags {
  import opened Wrappers
  import opened Strings
  import opened Seqs
  import opened Semver

  /** listTags is called once with per_page 100: only the first page is ever seen. */
  const PerPage: nat := 100

  function FirstPage(listing: seq<string>): (page: seq<string>)
    ensures |page| == if |listing| < PerPage then |listing| else PerPage
    ensures page == listing[..|page|]
  {
    if |listing| < PerPage then listing else listing[..PerPage]
  }

  /** Tags beyond the first hundred never reach the decision. */
  lemma FirstPageIgnoresRest(listing: seq<string>, more: seq<string>)
    requires |listing| >= PerPage
    ensures FirstPage(listing + more) == FirstPage(listing)
  {
    assert (listing + more)[..PerPage] == listing[..PerPage];
  }

  predicate NotPrerelease(name: string) { !IsPrerelease(name) }

  /** A final release tag: a valid version without pre-release identifiers. */
  predicate IsFinalTag(name: string) { Valid(name) && !IsPrerelease(name) }

  /**
   * `fullReleases.find(tag => semver.valid(tag.name))` over
   * `tags.filter(tag => !semver.prerelease(tag.name))`: the first final
   * release tag in listing order, pre-release tags never qualifying.
   */
  function SelectBase(tags: seq<string>): (r: Option<string>)
    ensures IsFirstMatch(tags, IsFinalTag, r)
  {
    FindAfterFilter(tags, NotPrerelease, Valid, IsFinalTag);
    Find(Filter(tags, NotPrerelease), Valid)
  }

  /** `tags.filter(tag => tag.name.includes(rcName))[0]`, None when the filter is empty. */
  function SelectCandidate(tags: seq<string>, rc: string): (r: Option<string>)
    ensures IsFirstMatch(tags, (t: string) => Contains(t, rc), r)
  {
    var rcs := Filter(tags, (t: string) => Contains(t, rc));
    if |rcs| != 0 then Some(rcs[0]) else None
  }

  /** There is no base exactly when no tag is a final release. */
  lemma SelectBaseNone(tags: seq<string>)
    ensures SelectBase(tags).None? <==> forall i :: 0 <= i < |tags| ==> !IsFinalTag(tags[i])
  {
    if SelectBase(tags).Some? {
      var i :| 0 <= i < |tags| && tags[i] == SelectBase(tags).value && IsFinalTag(tags[i]);
    }
  }

  /** A tag listed first that is not a final release leaves the base unchanged. */
  lemma SelectBaseSkips(t: string, tags: seq<string>)
    requires !IsFinalTag(t)
    ensures SelectBase([t] + tags) == SelectBase(tags)
  {
    var s := [t] + tags;
    assert s[0] == t && s[1..] == tags;
    if IsPrerelease(t) {
      assert Filter(s, NotPrerelease) == Filter(tags, NotPrerelease);
    } else {
      assert Filter(s, NotPrerelease) == [t] + Filter(tags, NotPrerelease);
      var f := [t] + Filter(tags, NotPrerelease);
      assert f[0] == t && f[1..] == Filter(tags, NotPrerelease);
    }
  }

  /** A final release tag listed first becomes the base. */
  lemma SelectBaseFirst(t: string, tags: seq<string>)
    requires IsFinalTag(t)
    ensures SelectBase([t] + tags) == Some(t)
  {
    var s := [t] + tags;
    assert s[0] == t && s[1..] == tags;
    assert Filter(s, NotPrerelease) == [t] + Filter(tags, NotPrerelease);
  }

  /** A tag listed first that contains the candidate name is the candidate. */
  lemma SelectCandidateFirst(t: string, tags: seq<string>, rc: string)
    requires Contains(t, rc)
    ensures SelectCandidate([t] + tags, rc) == Some(t)
  {
    var s := [t] + tags;
    assert s[0] == t;
  }
}
