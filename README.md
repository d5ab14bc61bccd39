# Release versions of the bosh director's release manager

This project models the release-version logic of the bosh director's
`Api::ReleaseManager`, as its unit tests in
`src/bosh-director/spec/unit/api/release_manager_spec.rb` pin it down:

- **Version grammar.** A release version is either a final version or a dev
  build. A final version is numeric segments joined by dots (`9`, `2.1`). A
  dev build is written in the old notation `<release>.<n>-dev` (`9.1-dev`) or
  the new one `<release>+dev.<n>` (`9+dev.1`). Normalisation turns each dev
  notation into the other. Any other string, such as `1+2+3`, is invalid.
- **`find_version`.** It returns the stored version whose string is exactly
  the request. Failing that, it returns the one stored in the request's other
  dev notation. Otherwise it fails with `ReleaseVersionInvalid` for a
  malformed request, or with `ReleaseVersionNotFound` for a well-formed one.
- **Catalog.**
  - `sorted_release_versions` lists a release's versions in numeric
    segment order. It can keep only the versions whose string starts with a
    literal prefix.
  - `all_releases` lists every release in ordinal order of name.
  - Each listed version carries its version string, commit hash,
    uncommitted-changes flag, whether any deployment uses it, and its job
    names.
- **Upload and deletion.** `create_release_from_url`,
  `create_release_from_file_path` and `delete_release` hand their work to the
  job queue. The model returns the request each would enqueue. An upload from
  a missing file fails with a "file not found" error and enqueues nothing.

Modules, one per file:

- `Results`: `Option` and `Result`.
- `Sorting`: a generic insertion sort by a comparison function, proved to
  return a sorted permutation. A uniqueness lemma pins down its result.
- `VersionGrammar`: `Parse` and `Render` of version strings, proved mutually
  inverse.
- `VersionNormalizer`: normalisation between the two dev notations, and the
  alias relation it induces.
- `VersionComparator`: the numeric version order and the ordinal name order,
  with their order laws.
- `Models`: the stored records (release, release version, template).
- `ReleaseVersionResolver`: `find_version`.
- `ReleaseCatalog`: `sorted_release_versions` and `all_releases`.
- `ReleaseManager`: the facade operations that build enqueue requests.
- `ReleaseManagerExamples`: each scenario of the unit tests, derived from the
  general contracts.

The implementation file of `Api::ReleaseManager` is not part of this model.
Its behaviour here follows what the unit tests assert. Where the tests say
nothing, the model makes the smallest choice, noted under "Left out".

## Model

| member | source | states |
|---|---|---|
| VersionGrammar.Parse | src/bosh-director/spec/unit/api/release_manager_spec.rb:194-196 | a string that parses is a valid final, old-dev or new-dev spelling that renders back to exactly that string |
| VersionGrammar.ParseRender | src/bosh-director/spec/unit/api/release_manager_spec.rb:194-196 | every valid spelling (final `9`, old-dev `9.1-dev`, new-dev `9+dev.2`) parses back from its rendering |
| VersionGrammar.ParseIffRender | src/bosh-director/spec/unit/api/release_manager_spec.rb:194-196 | a string parses to a spelling if and only if that spelling is valid and renders to the string |
| VersionGrammar.Render | src/bosh-director/spec/unit/api/release_manager_spec.rb:194-196 | the text of a version in its own notation: the release segments joined by dots, then `.<build>-dev` for an old-dev build or `+dev.<build>` for a new-dev build; a `+` appears exactly in the new-dev notation |
| VersionGrammar.RenderHasOnePlusAtMost | src/bosh-director/spec/unit/api/release_manager_spec.rb:214-219 | no well-formed version contains more than one `+` |
| VersionGrammar.ManyPlusesInvalid | src/bosh-director/spec/unit/api/release_manager_spec.rb:214-219 | a string with two or more `+` is not a version |
| VersionGrammar.DecimalString | src/bosh-director/spec/unit/api/release_manager_spec.rb:44-55 | a version given as an integer is stored as a decimal numeral of that value without leading zeros (`1` is stored as `'1'`) |
| VersionNormalizer.Counterpart | src/bosh-director/spec/unit/api/release_manager_spec.rb:207-226 | the other notation of a dev build keeps its release segments and build number and flips the notation |
| VersionNormalizer.Normalize | src/bosh-director/spec/unit/api/release_manager_spec.rb:207-226 | a string has a normal form exactly when it is a dev build; the form differs from the string, parses, and names the same dev build in the other notation |
| VersionNormalizer.NormalizeInvolution | src/bosh-director/spec/unit/api/release_manager_spec.rb:207-226 | normalising a normalised dev build gives back the original string |
| VersionNormalizer.AliasesIffNormalized | src/bosh-director/spec/unit/api/release_manager_spec.rb:207-226 | two strings name the same version exactly when they are equal or one is the normal form of the other |
| VersionNormalizer.Aliases | src/bosh-director/spec/unit/api/release_manager_spec.rb:207-226 | the equivalence `find_version` resolves by: two texts name the same version when they are equal or both parse as dev builds with the same release segments and build number; two different aliases are always dev builds of the same release segments |
| VersionNormalizer.OtherReleaseNoAlias | src/bosh-director/spec/unit/api/release_manager_spec.rb:228-233 | versions with different release segments never name the same version, so `9.1` is no alias of any stored `9` build |
| VersionNormalizer.AliasesSymmetric | src/bosh-director/spec/unit/api/release_manager_spec.rb:207-226 | naming the same version is symmetric |
| VersionNormalizer.AliasesTransitive | src/bosh-director/spec/unit/api/release_manager_spec.rb:207-226 | naming the same version is transitive |
| ReleaseVersionResolver.Lookup | src/bosh-director/spec/unit/api/release_manager_spec.rb:199-205 | the exact-match lookup finds a stored version with exactly the requested string, and finds none only when no stored string is equal to it |
| ReleaseVersionResolver.FindVersion | src/bosh-director/spec/unit/api/release_manager_spec.rb:191-239 | resolution succeeds exactly when a stored version is an alias of the request, and then returns one; an exactly stored string is returned as is; a failure is `ReleaseVersionInvalid` for a malformed request and `ReleaseVersionNotFound` for a well-formed one |
| ReleaseVersionResolver.AliasesFound | src/bosh-director/spec/unit/api/release_manager_spec.rb:207-226 | a stored alias exists exactly when the request or its other notation is stored |
| ReleaseVersionResolver.FindVersionSucceedsInEitherNotation | src/bosh-director/spec/unit/api/release_manager_spec.rb:207-226 | whether `find_version` succeeds does not depend on the dev notation of the request, with no assumption on the stored versions |
| ReleaseVersionResolver.FindVersionNotationInvariant | src/bosh-director/spec/unit/api/release_manager_spec.rb:207-226 | when no two stored versions are aliases, every alias of a stored version resolves to that version, in whichever notation it is written |
| ReleaseVersionResolver.ResolutionOrderIrrelevant | src/bosh-director/spec/unit/api/release_manager_spec.rb:214-238 | over well-formed stored versions, validating the request before the exact-match lookup gives the same result as looking first |
| ReleaseVersionResolver.FindVersionValidatingFirst | src/bosh-director/spec/unit/api/release_manager_spec.rb:191-239 | the resolution with the request validated before the exact-match lookup: it succeeds exactly when the request is well formed and a stored version is its alias, returns a stored alias, returns the exactly stored string as is, and fails with `ReleaseVersionInvalid` for a malformed request and `ReleaseVersionNotFound` for a well-formed one |
| VersionComparator.LexLeTotal | src/bosh-director/spec/unit/api/release_manager_spec.rb:110-117 | segment-wise comparison relates any two segment lists |
| VersionComparator.LexLeTransitive | src/bosh-director/spec/unit/api/release_manager_spec.rb:110-117 | segment-wise comparison is transitive |
| VersionComparator.LexLeAntisymmetric | src/bosh-director/spec/unit/api/release_manager_spec.rb:110-117 | segment lists that each sort no later than the other are equal |
| VersionComparator.VersionKey | src/bosh-director/spec/unit/api/release_manager_spec.rb:86-97 | the sort key of a stored version: the numeric value of each release segment, in order, and for a dev build in either notation its build number; a final version has no build number |
| VersionComparator.NotationKeepsKey | src/bosh-director/spec/unit/api/release_manager_spec.rb:207-226 | both notations of a dev build (`9.1-dev` and `9+dev.1`) have the same key, so they sort at the same place |
| VersionComparator.KeyLe | src/bosh-director/spec/unit/api/release_manager_spec.rb:86-97 | keys compare by their release segments numerically, segment by segment, and for equal segments the final version first (an order the tests leave open), then dev builds by build number; every key sorts no later than itself |
| VersionComparator.VersionLe | src/bosh-director/spec/unit/api/release_manager_spec.rb:110-117 | the version order of `sorted_release_versions`: by key, so two texts with one key (both notations of a dev build) sort at the same place |
| VersionComparator.VersionLeTotal | src/bosh-director/spec/unit/api/release_manager_spec.rb:86-97 | the version order relates any two versions |
| VersionComparator.VersionLeTransitive | src/bosh-director/spec/unit/api/release_manager_spec.rb:86-97 | the version order is transitive |
| VersionComparator.VersionLeAntisymmetric | src/bosh-director/spec/unit/api/release_manager_spec.rb:86-97 | versions that each sort no later than the other have the same segment values and build number |
| VersionComparator.NumericNotLexical | src/bosh-director/spec/unit/api/release_manager_spec.rb:86-97 | `3` sorts before `10` as a version, although `10` comes first by character code |
| VersionComparator.IntegerVersionKey | src/bosh-director/spec/unit/api/release_manager_spec.rb:86-97 | a version given as the integer n is a final version whose sort key is n |
| VersionComparator.IntegerVersionsOrdered | src/bosh-director/spec/unit/api/release_manager_spec.rb:86-97 | versions given as integers sort exactly as those integers |
| VersionComparator.Codes | src/bosh-director/spec/unit/api/release_manager_spec.rb:72-84 | a name is compared by the character code at each position |
| VersionComparator.OrdinalLeTotal | src/bosh-director/spec/unit/api/release_manager_spec.rb:72-84 | ordinal name comparison relates any two names |
| VersionComparator.OrdinalLeTransitive | src/bosh-director/spec/unit/api/release_manager_spec.rb:72-84 | ordinal name comparison is transitive |
| VersionComparator.OrdinalLe | src/bosh-director/spec/unit/api/release_manager_spec.rb:72-84 | the order of release names: lexicographic on character codes, so a name sorts no later than every name it begins and `1c` sorts before `a` |
| VersionComparator.OrdinalLeAntisymmetric | src/bosh-director/spec/unit/api/release_manager_spec.rb:72-84 | names that each sort no later than the other are equal |
| Sorting.Insert | src/bosh-director/spec/unit/api/release_manager_spec.rb:86-97 | inserting into a sorted list adds exactly that element and keeps the list sorted |
| Sorting.SortBy | src/bosh-director/spec/unit/api/release_manager_spec.rb:86-97 | sorting returns a permutation of its input that is sorted by the given total, transitive order |
| Sorting.SortedUnique | src/bosh-director/spec/unit/api/release_manager_spec.rb:72-97 | two sorted permutations of the same elements are equal when the order is antisymmetric on them, so the listing is determined |
| ReleaseCatalog.JobNames | src/bosh-director/spec/unit/api/release_manager_spec.rb:42-59 | the job names are the version's template names, in template order |
| ReleaseCatalog.ToEntry | src/bosh-director/spec/unit/api/release_manager_spec.rb:52-69 | a listed version carries its version string, commit hash and uncommitted-changes flag, is currently deployed exactly when some deployment uses it, and lists its template names |
| ReleaseCatalog.ByVersionOrders | src/bosh-director/spec/unit/api/release_manager_spec.rb:110-117 | the version order is total and transitive on any list of stored versions |
| ReleaseCatalog.Select | src/bosh-director/spec/unit/api/release_manager_spec.rb:119-141 | the prefix filter keeps only versions whose string starts with the prefix, character for character |
| ReleaseCatalog.Matches | src/bosh-director/spec/unit/api/release_manager_spec.rb:119-141 | the literal prefix test: a version is kept when no prefix is given or its string starts with the prefix, character for character |
| ReleaseCatalog.MatchesLiterally | src/bosh-director/spec/unit/api/release_manager_spec.rb:119-141 | a version matches a prefix exactly when its string begins with the prefix characters, in both directions, and every version matches its own text |
| ReleaseCatalog.SelectCounts | src/bosh-director/spec/unit/api/release_manager_spec.rb:119-141 | each matching version occurs in the filtered list as often as it is stored, and each other version not at all |
| ReleaseCatalog.SelectMembers | src/bosh-director/spec/unit/api/release_manager_spec.rb:119-141 | a version is in the filtered list exactly when it is stored and matches the prefix |
| ReleaseCatalog.SelectAppend | src/bosh-director/spec/unit/api/release_manager_spec.rb:119-141 | filtering a concatenation concatenates the filtered parts |
| ReleaseCatalog.SelectKeepsMatching | src/bosh-director/spec/unit/api/release_manager_spec.rb:119-126 | a prefix every version matches keeps the whole list |
| ReleaseCatalog.SelectDropsUnmatched | src/bosh-director/spec/unit/api/release_manager_spec.rb:134-140 | a prefix no version matches yields the empty list, not an error |
| ReleaseCatalog.SelectSorted | src/bosh-director/spec/unit/api/release_manager_spec.rb:119-126 | filtering a sorted list leaves it sorted |
| ReleaseCatalog.SortedVersionRecords | src/bosh-director/spec/unit/api/release_manager_spec.rb:110-141 | the listed records are sorted by version and are a permutation of the stored versions that match the prefix |
| ReleaseCatalog.Entries | src/bosh-director/spec/unit/api/release_manager_spec.rb:52-69 | each listed entry is the projection of the record at the same position |
| ReleaseCatalog.SortedReleaseVersions | src/bosh-director/spec/unit/api/release_manager_spec.rb:100-141 | sorted_release_versions lists one entry per matching stored version, in ascending version order; every entry is the projection of a matching stored version, and every matching stored version is listed |
| ReleaseCatalog.ListingFacts | src/bosh-director/spec/unit/api/release_manager_spec.rb:100-141 | the listing has as many entries as matching stored versions, and they are exactly the projections of those versions |
| ReleaseCatalog.ListingCounts | src/bosh-director/spec/unit/api/release_manager_spec.rb:100-141 | the listing holds each projected matching version as many times as it is stored, so identical records are all listed |
| ReleaseCatalog.EntriesOf | src/bosh-director/spec/unit/api/release_manager_spec.rb:52-69 | the entries of a list of records are exactly the projections of its members |
| ReleaseCatalog.ByNameOrders | src/bosh-director/spec/unit/api/release_manager_spec.rb:72-84 | the name order is total and transitive on any list of releases |
| ReleaseCatalog.Summaries | src/bosh-director/spec/unit/api/release_manager_spec.rb:52-69 | each release is summarised by its name and its full version listing, position by position |
| ReleaseCatalog.Summary | src/bosh-director/spec/unit/api/release_manager_spec.rb:52-54 | the `{name, release_versions}` entry of one release: its name, and the projections of all its versions, each as many times as it is stored |
| ReleaseCatalog.SummarySorted | src/bosh-director/spec/unit/api/release_manager_spec.rb:86-97 | a release summary lists its versions in ascending version order |
| ReleaseCatalog.AllReleases | src/bosh-director/spec/unit/api/release_manager_spec.rb:37-97 | all_releases lists one summary per release, in ascending ordinal order of name |
| ReleaseCatalog.AllReleasesMembers | src/bosh-director/spec/unit/api/release_manager_spec.rb:37-70 | every listed summary is that of a stored release, and every stored release is listed |
| ReleaseCatalog.AllReleasesVersionsSorted | src/bosh-director/spec/unit/api/release_manager_spec.rb:86-97 | in every release that all_releases lists, the versions are in ascending version order |
| ReleaseCatalog.SummariesOf | src/bosh-director/spec/unit/api/release_manager_spec.rb:37-70 | the summaries of a list of releases are exactly the summaries of its members |
| ReleaseManager.CreateReleaseFromUrl | src/bosh-director/spec/unit/api/release_manager_spec.rb:17-35 | a remote upload enqueues, for the caller, an update job described as "create release" whose arguments are the URL with remote set and the caller's rebase and skip-if-exists flags |
| ReleaseManager.CreateReleaseFromFilePath | src/bosh-director/spec/unit/api/release_manager_spec.rb:144-177 | a file upload fails exactly when the file is missing, with an error whose message starts with "Failed to create release: file not found"; otherwise it enqueues an update job with the path and the rebase flag |
| ReleaseManager.DeleteRelease | src/bosh-director/spec/unit/api/release_manager_spec.rb:179-189 | deletion enqueues a delete job described as "delete release: " and the release name, with the name and the options as arguments |
| ReleaseManagerExamples.FindExactVersions | src/bosh-director/spec/unit/api/release_manager_spec.rb:199-205 | `9`, `9.1-dev` and `9+dev.2` each resolve to the stored record with that string |
| ReleaseManagerExamples.FindNewDevAsOldDev | src/bosh-director/spec/unit/api/release_manager_spec.rb:207-212 | `9+dev.1` resolves to the stored `9.1-dev` |
| ReleaseManagerExamples.FindInvalidVersion | src/bosh-director/spec/unit/api/release_manager_spec.rb:214-219 | `1+2+3` fails with `ReleaseVersionInvalid` |
| ReleaseManagerExamples.FindOldDevAsNewDev | src/bosh-director/spec/unit/api/release_manager_spec.rb:222-226 | `9.2-dev` resolves to the stored `9+dev.2` |
| ReleaseManagerExamples.FindMissingFinal | src/bosh-director/spec/unit/api/release_manager_spec.rb:228-233 | `9.1` is a well-formed version that fails with `ReleaseVersionNotFound` |
| ReleaseManagerExamples.FindMissingDev | src/bosh-director/spec/unit/api/release_manager_spec.rb:234-237 | `9.1.3-dev` is a well-formed dev version that fails with `ReleaseVersionNotFound`, even in its other notation |
| ReleaseManagerExamples.NormalizeNineOne | src/bosh-director/spec/unit/api/release_manager_spec.rb:207-226 | `9.1-dev` and `9+dev.1` are each other's normal form |
| ReleaseManagerExamples.ListsDottedVersions | src/bosh-director/spec/unit/api/release_manager_spec.rb:103-117 | without a prefix, `1`, `2.1`, `2.2`, `2.3` are listed in that order |
| ReleaseManagerExamples.ListsPrefixTwo | src/bosh-director/spec/unit/api/release_manager_spec.rb:120-126 | prefix `2` lists exactly `2.1`, `2.2`, `2.3`, in that order |
| ReleaseManagerExamples.ListsPrefixTwoTwo | src/bosh-director/spec/unit/api/release_manager_spec.rb:128-132 | prefix `2.2` lists only `2.2` |
| ReleaseManagerExamples.ListsUnmatchedPrefix | src/bosh-director/spec/unit/api/release_manager_spec.rb:134-140 | prefix `3` lists nothing |
| ReleaseManagerExamples.PrefixIsLiteral | src/bosh-director/spec/unit/api/release_manager_spec.rb:119-141 | the prefix is literal text: `1` keeps both `1` and `10` |
| ReleaseManagerExamples.ListsEveryRelease | src/bosh-director/spec/unit/api/release_manager_spec.rb:37-70 | release-a and release-b are listed in that order, each with its one version and that version's commit data, deployment status and job names |
| ReleaseManagerExamples.OrdersReleasesByName | src/bosh-director/spec/unit/api/release_manager_spec.rb:72-84 | releases made as `b`, `1c`, `a` are listed as `1c`, `a`, `b` |
| ReleaseManagerExamples.OrdersVersionsNumerically | src/bosh-director/spec/unit/api/release_manager_spec.rb:86-97 | versions made as `3`, `10`, `1` are listed as `1`, `3`, `10` |
| ReleaseManagerExamples.UploadsFromUrl | src/bosh-director/spec/unit/api/release_manager_spec.rb:20-34 | the test's remote upload enqueues the documented request |
| ReleaseManagerExamples.UploadsExistingFile | src/bosh-director/spec/unit/api/release_manager_spec.rb:147-161 | the test's upload of an existing file enqueues `[path, {rebase}]` |
| ReleaseManagerExamples.MissingFileFails | src/bosh-director/spec/unit/api/release_manager_spec.rb:164-176 | the test's upload of a missing file fails with the file-not-found error |
| ReleaseManagerExamples.FileUploadReadsOnlyItsFile | src/bosh-director/spec/unit/api/release_manager_spec.rb:144-177 | a file upload depends only on whether its own file exists |
| ReleaseManagerExamples.DeletesByName | src/bosh-director/spec/unit/api/release_manager_spec.rb:179-189 | deleting `FAKE RELEASE` with options `{foo: bar}` enqueues the documented request |

## Left out

- The job queue and its enqueue, the `UpdateRelease` and `DeleteRelease` jobs, and the temporary release directory: these dispatch work to other processes and touch the filesystem. Each facade operation returns the request it would enqueue. The task handle the queue returns is the queue's answer to that request.
- `File.exist?`: it is the parameter `fileExists` of `ReleaseManager.CreateReleaseFromFilePath`.
- The Sequel models and persistence: releases, versions, templates and deployments are in-memory values. A deployment is represented by its name only.
- The implementation file of `Api::ReleaseManager` is not part of this model. The model follows the behaviour its unit tests assert.
- `go_agent/src/bosh/agent/agent_test.go`: the agent run loop, its timers and message handlers are outside this model.
- The full bosh version grammar (pre-release labels, alphanumeric segments): only numeric segments are modelled, because that is the grammar the tests exercise. Leading zeros are kept as written, and `1.0` and `1` are distinct versions.
- The order of a final version against the dev builds of the same release: the model puts the final version first, then dev builds by build number. The tests do not assert this, so no example relies on it.
- The rewrite of a multi-segment old-dev string such as `9.1.3-dev`: the model reads it as dev build 3 of release `9.1`. The only tested outcome is that it is not found.
- ReleaseVersionResolver.FindVersion: the request is looked up exactly before it is validated. A string that fails the grammar but is stored verbatim therefore resolves. The validate-first order would reject it. `ResolutionOrderIrrelevant` proves the two orders agree whenever every stored version is well formed, which is the store's invariant.
- ReleaseCatalog.SortedReleaseVersions: requires every stored version string to be well formed (`WellFormed`), the invariant of the upload workflow. The model does not say what happens when a malformed stored version is sorted.
- ReleaseCatalog.AllReleases: requires the same invariant of every release.
- ReleaseManager.CreateReleaseFromFilePath: the error message is stated to start with "Failed to create release: file not found", as the test matches it. The text after it, "` - `" and the path, is this model's choice.
