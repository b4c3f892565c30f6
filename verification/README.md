# fury-core-ci release tagging, modelled in Dafny

The GitHub Action in `index.ts` creates a GitHub release whenever a pull
request into `master` is opened, edited, synchronised, marked ready for
review or merged. Its `run()` function decides the release tag:

- **Gates.** The event must be a `pull_request` into `master`. The pull
  request must not be a draft, and its action must be one of `opened`,
  `edited`, `closed`, `ready_for_review` or `synchronize`. Otherwise nothing
  happens.
- **Branch.** The head branch must start with `fix/`, `feature/` or
  `release/`. Any other branch name fails the run. A pull request closed
  without merging is skipped.
- **Bump kind.** `fix/` is a patch, `feature/` a minor and `release/` a major
  change. The kind gets a `pre` prefix unless the pull request is being merged.
- **Base tag.** The base is the first tag in the listing (one page of 100
  tags) that is a valid semantic version and not a pre-release. With no base
  the run fails.
- **Pre-release runs.** The candidate name is `rc-<branch>`, with the first
  `/` replaced by `-`. The first listed tag that contains that name gets its
  pre-release counter raised (`semver.inc(tag, 'prerelease')`). With no such
  tag, the base is bumped by `pre<kind>` with the candidate name as
  identifier, e.g. `1.3.0-rc-feature-login.0`.
- **Merge runs.** The base is bumped by `patch`, `minor` or `major`.

The model is split into modules:

- `Branches`: classification, bump kind and candidate name.
- `Tags`: the first page, base selection and candidate selection.
- `Semver`: a strict semantic-version parser and formatter, with `inc` for
  the seven release types the action uses and `compare` precedence, as
  node-semver 6.x and the early 7.x releases implement them. In those
  releases `inc` does not check the pre-release identifier it is given.
- `Release`: the whole decision, as the function `Decide` and as the method
  `Run`, which mirrors `run()` step by step with its locals and early
  returns.
- `Strings` and `Seqs`: the JavaScript string and array operations the code
  relies on (`includes`, `replace`, `filter`, `find`).
- `Scenarios`: the decision on concrete pull requests. A `feature/login`
  branch is opened over `1.2.3`, synchronised and merged. A `hotfix/` branch
  and a listing without a final tag fail. A `feature/a/b` branch shows the
  second-slash case.

The GitHub API is not called. The tag listing is an input and the decision
(skip, fail with a reason, or create a release with tag, pre-release flag,
name and body) is the output.

Points where `index.ts` behaves in a way a reader might not expect:

- There is no `0.0.0` fallback when no base tag exists: the run fails.
- Tags are taken in listing order and are not sorted by version.
- Only the `fix/`, `feature/` and `release/` prefixes are recognised.
- A pull request closed without merging, an unsupported event and an
  unsupported action are all skipped.

## Model

| member | source | states |
|---|---|---|
| Release.Decide | index.ts:31-111 | the definition of one run: skip at a failed gate, fail on an invalid branch, skip a closed-unmerged PR, fail without a base, fail when semver.inc gives null, otherwise create the release; its properties are the Release lemmas below |
| Release.PassesGates | index.ts:31-48 | the early returns: a `pull_request` event into `master`, not a draft, with one of the five supported actions |
| Release.NextTag | index.ts:99-111 | the tag computation: on a pre-release run, inc(first candidate, prerelease) or inc(base, pre<kind>, rcName); on a merge, inc(base, kind) |
| Release.Run | index.ts:31-111 | run() taken step by step (gates, branch check, closed-unmerged return, prerelease flag, bump, base, candidate, inc) yields exactly the decision `Decide` describes |
| Release.Created | index.ts:31-111 | a created release implies every gate passed, the branch is valid, the PR is not closed-unmerged, a base exists, `prerelease` is "not a merge", and the tag is the one NextTag computes |
| Release.Creates | index.ts:31-111 | conversely, passing gates, a valid branch, a base and a tag from NextTag make the run create exactly that release with the PR title and body |
| Release.SkipOrInvalid | index.ts:31-57 | nothing happens iff a gate fails or a valid-branch PR is closed unmerged; the run fails with an invalid branch name iff the gates pass and no pattern matches (even for a closed-unmerged PR) |
| Release.PrereleaseUnlessMerged | index.ts:55-66 | a created release is a pre-release iff the action is not `closed`; its name and body are the PR title and body |
| Release.NoBaseFails | index.ts:95-98 | the run fails for lack of a base iff it got past the gates and no tag on the first page is a valid final version, whatever candidates exist |
| Release.NullTagOnlyFromCandidate | index.ts:99-104 | semver.inc yields null iff this is a pre-release run whose first candidate tag is not a valid version; base increments never fail |
| Release.MergedRelease | index.ts:109-111 | on merge the new tag parses to the base with the category's component raised and the lower ones zero, has no pre-release part, and strictly follows the base in precedence |
| Release.MergedTagIsNextBase | index.ts:95-111 | listed first, the tag a merge creates becomes the next run's base |
| Release.CreateCandidate | index.ts:105-108 | with no candidate listed, the tag is the base bumped by pre<category> with pre-release part `[rc, 0]`, and it contains the candidate name |
| Release.FreshCandidateTag | index.ts:105-108 | the same at the level of the tag computation: pre<category> on a final base gives `X.Y.Z-rc.0` with the right component raised |
| Release.CandidateTagContainsName | index.ts:100-101 | a tag whose pre-release part is `[rc, k]` contains rc, so the next run's `includes(rcName)` filter finds it |
| Release.IncreaseCandidate | index.ts:102-104 | with a candidate listed, the tag is inc(candidate, prerelease); it parses back, strictly follows the candidate, and for `X.Y.Z-rc.k` is `X.Y.Z-rc.(k+1)` |
| Release.PreTagShape | index.ts:99-108 | a pre-release tag computed from a final base, with a legal candidate name and a well-shaped first candidate, parses to `X.Y.Z-rc.k`, contains rc and is not a final tag |
| Release.CandidateTagShape | index.ts:99-108 | every pre-release run creates a candidate tag of its branch (`X.Y.Z-rc.k`, containing rc, not final) when the listed candidate, if any, has that shape |
| Release.NextTagAfterCandidate | index.ts:99-104 | a well-shaped candidate listed first is the one bumped: the next tag is its counter plus one, and the longer listing's first candidate is still well shaped |
| Release.CandidateOfLongerBranch | index.ts:100-104 | `includes` is a substring test: a branch also picks up, listed first, the candidate `X.Y.Z-<rc><more>.k` of a branch whose name extends its own, and bumps it to `.(k+1)`, a tag of the other branch |
| Release.LongerBranchName | index.ts:100 | the candidate name of `<branch><more>` is the candidate name of `<branch>` followed by more |
| Release.FirstCandidateBumped | index.ts:101-104 | a valid `X.Y.Z-<id>.k` listed first that contains the branch's candidate name is bumped to `X.Y.Z-<id>.(k+1)`, whatever id is |
| Release.CandidateNumberingAdvances | index.ts:95-108 | once a run's candidate `X.Y.Z-rc.k` is listed first, the next run for the same event creates `X.Y.Z-rc.(k+1)` with the same base |
| Release.RunAfterCandidate | index.ts:95-108 | the same from the gates and base directly: prepending a non-final candidate keeps the base and bumps the counter |
| Branches.Classify | index.ts:72-85 | the switch finds a category iff one of the three patterns matches, and the branch then starts with that category's prefix |
| Branches.ClassifyPrefix | index.ts:7-9 | the patterns are anchored at the start only: any remainder after `fix/`, `feature/`, `release/`, the empty one included, gets that category |
| Branches.ClassifyRejects | index.ts:51-53 | a branch with none of the prefixes is invalid and gets no category |
| Branches.BumpKind | index.ts:70-81 | the kind is a pre-kind iff prerelease; patch kinds come from fix/, minor from feature/, major from release/; never `prerelease` |
| Branches.RcName | index.ts:100 | the candidate name starts with `rc-` and is three characters longer than the branch |
| Branches.RcNameOfBranch | index.ts:100 | for `<name>/<rest>` the candidate name is `rc-<name>-<rest>`; later slashes in rest stay |
| Branches.RcNameIsIdentifier | index.ts:100-107 | when the remainder uses only identifier characters, the candidate name is a legal pre-release identifier |
| Tags.FirstPage | index.ts:86-90 | the page is the listing's first min(100, length) tags, in order |
| Tags.FirstPageIgnoresRest | index.ts:86-90 | tags after the first hundred never change the page |
| Tags.SelectBase | index.ts:95-96 | the base is the first tag, in listing order, that is valid and not a pre-release; none when there is no such tag |
| Tags.SelectBaseNone | index.ts:95-98 | there is no base exactly when no tag is a valid final version |
| Tags.SelectBaseSkips | index.ts:95-96 | a non-final tag listed first does not change the base |
| Tags.SelectBaseFirst | index.ts:95-96 | a final tag listed first becomes the base |
| Tags.SelectCandidate | index.ts:101-102 | the candidate is the first tag, in listing order, containing the candidate name; none when no tag does |
| Tags.SelectCandidateFirst | index.ts:101-102 | a tag listed first that contains the candidate name is the candidate |
| Seqs.Find | index.ts:96 | `find` returns the first element satisfying the predicate, or none when none does |
| Seqs.Filter | index.ts:95 | `filter` keeps only elements of the input satisfying the predicate, and its head is what `find` returns (FilterCounts and FilterOrder give completeness and order) |
| Seqs.FilterCounts | index.ts:95-101 | `filter` keeps every element satisfying the predicate, as often as the input has it, and nothing else |
| Seqs.FilterOrder | index.ts:95-101 | `filter` keeps the elements it keeps in their input order (the result is a subsequence of the input) |
| Seqs.FindAfterFilter | index.ts:95-96 | finding with q in the result of filtering by p finds the first element satisfying both |
| Strings.ReplaceFirst | index.ts:100 | `replace` with a string pattern changes only the first occurrence, to the new character, and leaves a string without it unchanged |
| Strings.ReplaceFirstAfter | index.ts:100 | replacing in `a + from + b`, where a lacks `from`, gives `a + to + b` |
| Strings.Contains | index.ts:101 | the definition of `includes`: sub is a prefix of s or of one of its suffixes |
| Strings.ContainsOccurs | index.ts:101 | `includes` holds iff sub is the slice of s at some index |
| Strings.ContainsPrefixOf | index.ts:101 | a string containing a + b contains a, so a candidate name is found inside any longer name that extends it |
| Strings.ContainsInfix | index.ts:101 | a string contains every infix of itself (`includes`) |
| Strings.NatToStringRoundTrip | index.ts:104-110 | a number's decimal form is a canonical numeral whose value is the number |
| Strings.NumeralRoundTrip | index.ts:95-96 | a canonical numeral is the decimal form of its value |
| Semver.Parse | index.ts:95-96 | strict `semver.parse`: optional `v`, three canonical numerals, optional pre-release identifiers, optional build metadata; a result is always well formed |
| Semver.ParseMain | index.ts:95-96 | the version between the `v` and the build metadata: exactly three numeric identifiers, then after the first `-` a non-empty identifier list; a result is always well formed |
| Semver.Valid | index.ts:96 | `semver.valid(tag)` is not null iff the tag parses |
| Semver.IsPrerelease | index.ts:95 | `semver.prerelease(tag)` is not null iff the tag parses with a non-empty pre-release list |
| Semver.Format | index.ts:104-110 | `major.minor.patch`, then `-` and the dot-joined pre-release identifiers when there are any; build metadata is dropped; ParseFormat is its inverse |
| Semver.Inc | index.ts:104-110 | node-semver's `inc` for major, minor, patch, premajor, preminor, prepatch and prerelease, including the completion of a pending pre-release (`1.3.0-x` minor gives `1.3.0`); IncIncreases, IncFinal and IncCandidate state its properties |
| Semver.ParseFormat | index.ts:95-110 | every well-formed version formats to a string that parses back to it, so a tag the action creates is valid in the next run |
| Semver.ParseFormatIdents | index.ts:95-110 | a dot-joined list of legal identifiers parses back to the list |
| Semver.FormatIdentRoundTrip | index.ts:95-110 | a single identifier parses back from its text, which has only identifier characters |
| Semver.IncTag | index.ts:104-110 | semver.inc returns a tag iff its input is valid, and then (with a legal or no identifier) a valid tag strictly above the input |
| Semver.IncIncreases | index.ts:104-110 | every one of the seven increments moves the version strictly forward in semver precedence |
| Semver.IncPreservesWellFormed | index.ts:104-110 | an increment of a well-formed version with a legal or no identifier is well formed |
| Semver.IncFinal | index.ts:110 | on a final version patch, minor and major raise their component, zero the lower ones and drop the pre-release |
| Semver.IncCandidate | index.ts:104 | `prerelease` on `X.Y.Z-id.k` gives `X.Y.Z-id.(k+1)` |
| Semver.IncTagOfValid | index.ts:104-110 | on a valid tag, semver.inc returns the formatted increment of its parsed version |
| Semver.ParseFormatInc | index.ts:104-110 | an increment of a parsed version formats to a tag that parses back to that increment |
| Semver.BumpLastNum | index.ts:104 | none exactly when every identifier is a string; otherwise the result is the input with its last numeric identifier raised by one and nothing else changed |
| Semver.BumpPreIncreases | index.ts:104 | the `pre` step of `prerelease` strictly raises a non-empty pre-release list |
| Semver.PrecedesIrreflexive | index.ts:104-110 | no version precedes itself, so an increment that precedes its result changed the version |
| Semver.ParseMainBadPre | index.ts:104 | a tag whose pre-release part is not a dot-separated list of legal identifiers is not a valid version, so semver.inc returns null for it |
| Strings.ContainsShorter | index.ts:101 | `includes` is false for a name longer than the tag |
| Scenarios.FeatureOpened | index.ts:99-108 | opening a PR from `feature/login` over a listing `[1.2.3]` creates the pre-release `1.3.0-rc-feature-login.0` named by the PR title |
| Scenarios.FeatureSynchronized | index.ts:99-104 | a synchronize with `1.3.0-rc-feature-login.0` listed first creates `1.3.0-rc-feature-login.1` |
| Scenarios.FeatureMerged | index.ts:95-111 | merging with both candidates listed above `1.2.3` creates the final release `1.3.0`, not a pre-release |
| Scenarios.FeatureClosedUnmerged | index.ts:55-57 | closing the PR without merging does nothing |
| Scenarios.HotfixFails | index.ts:51-53 | a `hotfix/crash` branch fails the run with an invalid branch name |
| Scenarios.OnlyCandidateFails | index.ts:95-98 | a listing holding only a candidate tag fails for lack of a base, even though a candidate exists |
| Scenarios.NestedOpened | index.ts:99-108 | opening a PR from `feature/a/b` creates `1.3.0-rc-feature-a/b.0`, whose candidate name keeps the second slash |
| Scenarios.NestedCandidateInvalid | index.ts:100-104 | that tag is not a valid version |
| Scenarios.NestedSynchronizedFails | index.ts:99-104 | the next synchronize of that branch gets null from semver.inc: `Fail(NullTag)` |

## Left out

- The GitHub API is not modelled. The token, `Github.context`, `listTags`, `createRelease` and `createComment` are left out. The tag listing is an input and the release to create is the output. The PR number and the comment posted after a 201 response (index.ts:126-134) are not modelled.
- Logging (`core.info`, `core.debug`, `console.log`) is not modelled. Failures are reported as a `Fail` decision instead of `core.setFailed`.
- The commented-out push handler and output variables are not part of the behaviour.
- Only the first page of `listTags` is modelled. That is what the code reads.
- The `default:` branch of the switch (index.ts:82-84) is not modelled. The branch check at index.ts:51 makes it unreachable, and `Run` takes the category directly.
- `Fail(NullTag)` stands for `createRelease` being called with a null tag name. What the API does with that is not part of this model.
- Semver.Inc: the identifier argument is modelled only for prepatch, preminor and premajor. `prerelease` requires an empty identifier, the only way index.ts calls it. node-semver's handling of an identifier with `prerelease` is left out.
- Semver.Parse: parses strictly only. These are left out: the 256-character length limit, the `Number.MAX_SAFE_INTEGER` bound on components, trimming of surrounding whitespace, loose mode and the `=` prefix. Numbers are unbounded.
- Semver.IncTag: like node-semver 6.x and early 7.x, it does not check the identifier. Later 7.x releases reject a malformed identifier in `inc` and return null; under those, `Scenarios.NestedOpened` would already end in `Fail(NullTag)`. A branch whose remainder holds a character outside `[0-9A-Za-z-]` (a second `/`, say) gives a candidate tag that is not a valid version. The next run then ends in `Fail(NullTag)`. The shape lemmas therefore require a plain-word remainder (`RcNameIsIdentifier`). `Scenarios.NestedSynchronizedFails` works this case through for `feature/a/b`.
- Release.PreTagShape: requires the first tag containing the candidate name to be a candidate of this branch (`CandidatesWellShaped`). Because `includes` is a substring test, `fix/a` also picks up `fix/ab`'s candidate `X.Y.Z-rc-fix-ab.k` and creates `X.Y.Z-rc-fix-ab.(k+1)`; `Release.CandidateOfLongerBranch` proves this case.
- Release.CandidateTagShape: the same hypothesis and the same excluded case as `Release.PreTagShape`.
- Release.CandidateNumberingAdvances: the listed tag must be a candidate of this branch (`IsCandidateOf`); the longer-branch case is `Release.CandidateOfLongerBranch`.
- Release.CandidateNumberingAdvances: stated for listings shorter than 100 tags. With a full page the new candidate pushes the hundredth tag off the page, which can change the base.
