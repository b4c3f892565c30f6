/**
 * Branch classification (index.ts, the three start-anchored patterns and the
 * `switch (true)` on them), the bump kind, and the release-candidate name.
 */
module Branches {
  import opened Wrappers
  import opened Strings
  import opened Semver

  /** The change category a head branch names: patchRegex, minorRegex, majorRegex. */
  datatype Category = Fix | Feature | ReleaseBranch

  /** The word before the first `/` of a branch of that category. */
  function Name(c: Category): string {
    match c
    case Fix => "fix"
    case Feature => "feature"
    case ReleaseBranch => "release"
  }

  function Prefix(c: Category): string { Name(c) + "/" }

  /** The validation at index.ts:51: one of /^fix\/.*\/, /^feature\/.*\/, /^release\/.*\/ matches. */
  predicate IsValidBranch(branch: string) {
    StartsWith(branch, "fix/") || StartsWith(branch, "feature/") || StartsWith(branch, "release/")
  }

  /**
   * The `switch (true)` over the three patterns, tried in order, first match
   * wins. None is the `default:` case.
   */
  function Classify(branch: string): (r: Option<Category>)
    ensures r.Some? <==> IsValidBranch(branch)
    ensures r.Some? ==> StartsWith(branch, Prefix(r.value))
  {
    if StartsWith(branch, Prefix(Fix)) then Some(Fix)
    else if StartsWith(branch, Prefix(Feature)) then Some(Feature)
    else if StartsWith(branch, Prefix(ReleaseBranch)) then Some(ReleaseBranch)
    else None
  }

  /** Any remainder after the prefix, the empty one included, is accepted with the prefix's category. */
  lemma ClassifyPrefix(c: Category, rest: string)
    ensures Classify(Prefix(c) + rest) == Some(c)
  {
    var b := Prefix(c) + rest;
    assert b[..|Prefix(c)|] == Prefix(c);
    match c
    case Fix =>
    case Feature =>
      assert b[1] == 'e';
    case ReleaseBranch =>
      assert b[0] == 'r';
  }

  /** A branch matching none of the patterns is classified by none of them. */
  lemma ClassifyRejects(branch: string)
    requires forall c: Category :: !StartsWith(branch, Prefix(c))
    ensures Classify(branch) == None && !IsValidBranch(branch)
  {
    assert !StartsWith(branch, Prefix(Fix));
    assert !StartsWith(branch, Prefix(Feature));
    assert !StartsWith(branch, Prefix(ReleaseBranch));
  }

  /** `${prefix}patch` etc., where prefix is 'pre' for a pre-release. */
  function BumpKind(c: Category, prerelease: bool): (r: Bump)
    ensures IsPreKind(r) <==> prerelease
    ensures !r.PreRelease?
    ensures (r.Patch? || r.PrePatch?) <==> c == Fix
    ensures (r.Minor? || r.PreMinor?) <==> c == Feature
    ensures (r.Major? || r.PreMajor?) <==> c == ReleaseBranch
  {
    match c
    case Fix => if prerelease then PrePatch else Patch
    case Feature => if prerelease then PreMinor else Minor
    case ReleaseBranch => if prerelease then PreMajor else Major
  }

  /** `rc-${branch.replace('/', '-')}`: only the first `/` is replaced. */
  function RcName(branch: string): (r: string)
    ensures |r| == |branch| + 3 && StartsWith(r, "rc-")
  {
    "rc-" + ReplaceFirst(branch, '/', '-')
  }

  /** For a branch `<name>/<rest>` the candidate name is `rc-<name>-<rest>`, whatever rest holds. */
  lemma RcNameOfBranch(c: Category, rest: string)
    ensures RcName(Prefix(c) + rest) == "rc-" + Name(c) + "-" + rest
  {
    assert '/' !in Name(c) by {
      match c
      case Fix => assert Name(c) == ['f', 'i', 'x'];
      case Feature => assert Name(c) == ['f', 'e', 'a', 't', 'u', 'r', 'e'];
      case ReleaseBranch => assert Name(c) == ['r', 'e', 'l', 'e', 'a', 's', 'e'];
    }
    assert Prefix(c) + rest == Name(c) + ['/'] + rest;
    ReplaceFirstAfter(Name(c), '/', '-', rest);
  }

  lemma IdentCharsConcat(a: string, b: string)
    requires IsIdentChars(a) && IsIdentChars(b)
    ensures IsIdentChars(a + b)
  {
    forall k | 0 <= k < |a + b| ensures IsIdentChar((a + b)[k]) {
      if k >= |a| { assert (a + b)[k] == b[k - |a|]; }
    }
  }

  lemma NameIsIdentChars(c: Category)
    ensures IsIdentChars(Name(c))
  {
    match c
    case Fix => assert Name(c) == ['f', 'i', 'x'];
    case Feature => assert Name(c) == ['f', 'e', 'a', 't', 'u', 'r', 'e'];
    case ReleaseBranch => assert Name(c) == ['r', 'e', 'l', 'e', 'a', 's', 'e'];
  }

  /** The candidate name is a single legal pre-release identifier when the remainder is one plain word. */
  lemma RcNameIsIdentifier(c: Category, rest: string)
    requires IsIdentChars(rest)
    ensures IsAlphanumericId(RcName(Prefix(c) + rest))
  {
    RcNameOfBranch(c, rest);
    var r := RcName(Prefix(c) + rest);
    assert IsIdentChars("rc-") by { assert "rc-" == ['r', 'c', '-']; }
    assert IsIdentChars("-") by { assert "-" == ['-']; }
    NameIsIdentChars(c);
    IdentCharsConcat("rc-", Name(c));
    IdentCharsConcat("rc-" + Name(c), "-");
    IdentCharsConcat("rc-" + Name(c) + "-", rest);
    assert r[2] == '-';
  }
}
