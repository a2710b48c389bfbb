# gomodctl version check, modelled in Dafny

This project models the version-check engine of gomodctl (`internal/module/check.go`). For every dependency that the go.mod parser reports, the engine picks the latest available version, or it records why there is none. It has three parts:

- **getLatestVersion**, the default selection strategy. With no candidate versions it returns no version and `ErrNoVersionAvailable`. Otherwise it sorts the caller's slice in place into ascending semantic-version precedence and returns the last element.
- **getIgnoredModules** turns the configured `ignored_modules` list into a membership set.
- **getModAndFilter**, with `Checker.Check` wiring it to getLatestVersion. A parser failure is returned unchanged, with no map. Otherwise the engine loops over the parsed records and stores one `CheckResult` per path. An ignored path gets `ErrModuleIgnored`, and the filter is never called for it. Any other path gets the filter's version and the filter's error, each copied on its own.

Files:

- `semver.dfy` (module `Semver`) holds the versions and their precedence order. This is the order of Semantic Versioning 2.0.0, section 11, that `semver.Collection` sorts by. Major, minor and patch compare numerically. A pre-release sorts below its release. Pre-release identifiers compare field by field: numeric identifiers compare numerically and sort below alphanumeric ones, alphanumeric identifiers compare lexicographically by code point (the same order as Go's byte-wise string comparison, because UTF-8 preserves code-point order), and a shorter list that is a prefix of a longer one sorts first. The module proves that this order is a strict total order. It also proves that the last element of an ascending sequence is its unique greatest element.
- `check.dfy` (module `Check`) holds the engine:
  - `GetLatestVersion` is an in-place array method that calls the insertion sort `SortVersions`. It is proved equal to the pure strategy `LatestVersion`, which picks the greatest element `MaxOf`.
  - `GetIgnoredModules` is a loop that builds a set.
  - `GetModAndFilter` is a loop that builds a map. Its filter is a function-valued parameter. A ghost out-parameter of it records the records the filter was applied to.
  - `Check` passes `LatestVersion` to `GetModAndFilter` as the filter.
  - The specification functions `ResultFor`, `Results` and `Filtered` state what the loop builds, and the lemmas state the engine's guarantees about them.

Inputs that come from I/O are parameters. The parser's output (`ModParser.Parse`, which reads go.mod and queries version sources) is a `Result` of records or an error. The `ignored_modules` configuration value (read through viper) is a `seq<string>`.

Two points of the code that the model keeps:

- `getLatestVersion` sorts the caller's slice in place, and `GetLatestVersion` does the same to its array.
- `getModAndFilter` copies the filter's version and the filter's error independently, so a filter may return both. `LatestVersionOutcome` proves that the default strategy returns exactly one of the two.

## Model

| member | source | states |
|---|---|---|
| `Semver.Less` | internal/module/check.go:34 | definition of the precedence order that `semver.Collection` sorts by; its properties are proved by the order lemmas below |
| `Semver.LessIrreflexive` | internal/module/check.go:34 | no version has higher precedence than itself |
| `Semver.LessTransitive` | internal/module/check.go:34 | precedence is transitive, including across pre-release identifier lists |
| `Semver.LessAsymmetric` | internal/module/check.go:34 | two versions are never each below the other |
| `Semver.LessTotal` | internal/module/check.go:34 | any two versions are equal or one is below the other, so the sorted order is unique |
| `Semver.SortedPairwise` | internal/module/check.go:34 | in a sequence whose neighbours are in ascending order, every later element is not below any earlier one |
| `Semver.SortedLastIsGreatest` | internal/module/check.go:36 | the last element of a non-empty ascending sequence belongs to it and nothing in it is above it |
| `Semver.GreatestUnique` | internal/module/check.go:36 | a sequence has at most one greatest version |
| `Semver.PrecedenceExample` | internal/module/check.go:34 | the example chain of section 11 of Semantic Versioning 2.0.0 (1.0.0-alpha < 1.0.0-alpha.1 < … < 1.0.0-rc.1 < 1.0.0), and 1.9.0 < 1.10.0 < 1.11.0 |
| `Check.MaxOf` | internal/module/check.go:34-36 | for a non-empty sequence, an element that no element of the sequence is above |
| `Check.LatestVersion` | internal/module/check.go:29-39 | no candidates gives no version and ErrNoVersionAvailable; otherwise no error and a greatest candidate |
| `Check.SortVersions` | internal/module/check.go:34 | the array afterwards is in ascending precedence and is a permutation of its old contents |
| `Check.GetLatestVersion` | internal/module/check.go:29-39 | an empty array gives no version and ErrNoVersionAvailable; otherwise the caller's array ends up sorted and a permutation of its old contents, and the result is its last element with no error; either way the outcome equals LatestVersion on the old contents |
| `Check.GetIgnoredModules` | internal/module/check.go:83-92 | a path is in the set exactly when it is in the configured list (an empty list ignores nothing) |
| `Check.GetModAndFilter` | internal/module/check.go:41-77 | a parser error is returned as the error with no map and no filter call; otherwise the map is the record-by-record result map, and the filter was applied to exactly the non-ignored records, in order |
| `Check.Check` | internal/module/check.go:25-27 | getModAndFilter with the default strategy as the filter |
| `Check.ResultFor` | internal/module/check.go:54-71 | definition of the verdict for one record; its properties are proved by `IgnoredResult`, `NotIgnoredResult` and `LatestVersionOutcome` |
| `Check.Results` | internal/module/check.go:51-74 | definition of the map the loop builds; its properties are proved by the `Results…` lemmas below |
| `Check.ResultsKeys` | internal/module/check.go:53-73 | the map's keys are exactly the records' paths |
| `Check.ResultsLastWins` | internal/module/check.go:73 | the entry for a path is the verdict of the last record with that path |
| `Check.ResultsFromRecords` | internal/module/check.go:54-56 | every entry comes from a record with that path and carries that record's local version |
| `Check.IgnoredResult` | internal/module/check.go:58-60 | an ignored path that appears among the records has ErrModuleIgnored and no latest version |
| `Check.NotIgnoredResult` | internal/module/check.go:62-70 | a path that is not ignored has its last record's local version, the filter's version and the filter's error, each as the filter returned it |
| `Check.FilteredExactly` | internal/module/check.go:58-62 | the filter is applied to a record exactly when that record's path is not ignored |
| `Check.IgnoredIndependentOfFilter` | internal/module/check.go:58-60 | the entry of an ignored path is the same whatever filter is used |
| `Check.LatestVersionOutcome` | internal/module/check.go:62-70 | with the default strategy, a path that is not ignored gets a greatest available version and no error, or no version and ErrNoVersionAvailable when nothing is available |
| `Check.ScenarioNothingIgnored` | internal/module/check.go:53-73 | a at 1.0.0 with 1.0.0, 1.1.0 and 1.2.0 available, and b at 2.1.0 with 2.1.0 available, nothing ignored: a gets 1.2.0 and b gets 2.1.0 |
| `Check.ScenarioFirstIgnored` | internal/module/check.go:58-60 | the same records with a ignored: a gets ErrModuleIgnored and no version, and b gets 2.1.0 |

## Left out

- Version strings are not parsed. Versions are values, and build metadata is not modelled because it does not affect precedence.
- A numeric pre-release identifier has only one spelling in the model. The Masterminds library parses identifiers such as `01` and `1` to the same number and then reports each as below the other. The model cannot express that case.
- `SortVersions` is an insertion sort. The algorithm inside Go's `sort.Sort` is library code, and the model proves only what the engine relies on: the result is sorted and is a permutation. Because the order is total on the modelled values, the sorted arrangement is unique. Distinct pointers to equal versions are not modelled.
- Check.GetModAndFilter: records and their version lists are values. So the in-place sort that getLatestVersion applies to each record's slice while the engine runs is not modelled there. It has no effect on the returned map, because the records are discarded. The in-place sort itself is modelled by `GetLatestVersion` on an array, and that method is proved equal to the function `LatestVersion` used as the filter.
- `ModParser.Parse` is not part of this model. It reads go.mod and queries remote version sources. Its result is an input: records or an error.
- Reading `ignored_modules` through viper is configuration I/O. The list is an input.
- The `Ctx` field of `Checker` and cancellation are left out. They do not change the result of the code shown.
- `cmd/gomodctl/gomodctl.go` is left out. It is command-line wiring: cobra commands, flags, configuration discovery and signal handling.
