/** The version-check engine: for each dependency the manifest parser reports,
    choose its latest available version, or record why there is none. */
module Check {
  import opened Semver

  datatype Option<T> = None | Some(value: T)

  datatype Result<T, E> = Success(value: T) | Failure(error: E)

  /** The error values: the two this engine defines, and any other error a
      parser or a filter may report. */
  datatype Error =
    | ErrNoVersionAvailable
    | ErrModuleIgnored
    | ErrOther(message: string)

  /** One dependency as the manifest parser reports it. */
  datatype ModResult = ModResult(path: string, localVersion: Version, availableVersions: seq<Version>)

  /** The verdict for one dependency. Either field may be absent. */
  datatype CheckResult = CheckResult(localVersion: Version, latestVersion: Option<Version>, error: Option<Error>)

  /** What a selection strategy returns: a version (absent for nil) and an error
      (absent for nil), independently of each other. */
  datatype FilterResult = FilterResult(version: Option<Version>, err: Option<Error>)

  /** A selection strategy: the local version and the available versions in,
      the chosen version or an error out. */
  type Filter = (Version, seq<Version>) -> FilterResult

  // ---------------------------------------------------------------------------
  // Default selection strategy

  /** A greatest element of a non-empty sequence of versions. */
  function MaxOf(s: seq<Version>): (r: Version)
    requires |s| > 0
    ensures IsGreatest(r, s)
    decreases |s|
  {
    if |s| == 1 then LessIrreflexive(s[0]); s[0]
    else
      var m := MaxOf(s[..|s| - 1]);
      var x := s[|s| - 1];
      assert forall k :: 0 <= k < |s| - 1 ==> s[..|s| - 1][k] == s[k];
      if Less(m, x) then
        NotBelowGreatest(m, x, s[..|s| - 1]);
        LessIrreflexive(x);
        x
      else m
  }

  /** If `m` is greatest in `s` and `x` is above `m`, nothing in `s` is above `x`. */
  lemma NotBelowGreatest(m: Version, x: Version, s: seq<Version>)
    requires IsGreatest(m, s) && Less(m, x)
    ensures forall k :: 0 <= k < |s| ==> !Less(x, s[k])
  {
    forall k | 0 <= k < |s| ensures !Less(x, s[k]) {
      LessAsymmetric(m, x);
      NotLessTransitive(s[k], m, x);
    }
  }

  /** The default strategy as a value: no version and ErrNoVersionAvailable for
      no candidates, otherwise the greatest candidate and no error. The local
      version is not consulted. */
  function LatestVersion(current: Version, versions: seq<Version>): (r: FilterResult)
    ensures versions == [] ==> r == FilterResult(None, Some(ErrNoVersionAvailable))
    ensures versions != [] ==> r.err == None && r.version.Some? && IsGreatest(r.version.value, versions)
  {
    if versions == [] then FilterResult(None, Some(ErrNoVersionAvailable))
    else FilterResult(Some(MaxOf(versions)), None)
  }

  /** Sorts the versions in place into ascending precedence. */
  method SortVersions(a: array<Version>)
    modifies a
    ensures Sorted(a[..])
    ensures multiset(a[..]) == multiset(old(a[..]))
  {
    var i := 0;
    while i < a.Length
      invariant 0 <= i <= a.Length
      invariant Sorted(a[..i])
      invariant multiset(a[..]) == multiset(old(a[..]))
    {
      InsertLast(a, i);
      i := i + 1;
    }
    assert a[..a.Length] == a[..];
  }

  /** One insertion step: moves `a[i]` down into the ascending prefix `a[..i]`. */
  method InsertLast(a: array<Version>, i: int)
    requires 0 <= i < a.Length && Sorted(a[..i])
    modifies a
    ensures Sorted(a[..i + 1])
    ensures multiset(a[..]) == multiset(old(a[..]))
  {
    var j := i;
    while j > 0 && Less(a[j], a[j - 1])
      invariant 0 <= j <= i
      invariant forall k :: 0 < k <= i && k != j ==> !Less(a[k], a[k - 1])
      invariant 0 < j < i ==> !Less(a[j + 1], a[j - 1])
      invariant multiset(a[..]) == multiset(old(a[..]))
    {
      LessAsymmetric(a[j], a[j - 1]);
      Swap(a, j - 1, j);
      j := j - 1;
    }
  }

  /** Exchanges two elements and leaves the rest alone. */
  method Swap(a: array<Version>, i: int, j: int)
    requires 0 <= i < j < a.Length
    modifies a
    ensures a[i] == old(a[j]) && a[j] == old(a[i])
    ensures forall k :: 0 <= k < a.Length && k != i && k != j ==> a[k] == old(a[k])
    ensures multiset(a[..]) == multiset(old(a[..]))
  {
    a[i], a[j] := a[j], a[i];
  }

  /** getLatestVersion: fails on no candidates; otherwise sorts the caller's
      array in place and returns its last element. */
  method GetLatestVersion(current: Version, versions: array<Version>) returns (latest: Option<Version>, err: Option<Error>)
    modifies versions
    ensures FilterResult(latest, err) == LatestVersion(current, old(versions[..]))
    ensures versions.Length == 0 ==> latest == None && err == Some(ErrNoVersionAvailable)
    ensures versions.Length > 0 ==> err == None && latest == Some(versions[versions.Length - 1])
    ensures Sorted(versions[..])
    ensures multiset(versions[..]) == multiset(old(versions[..]))
  {
    if versions.Length == 0 {
      return None, Some(ErrNoVersionAvailable);
    }
    SortVersions(versions);
    var last := versions[versions.Length - 1];
    ghost var was := old(versions[..]);
    SortedLastIsGreatest(versions[..]);
    assert IsGreatest(last, was) by {
      assert last in multiset(was);
      forall k | 0 <= k < |was| ensures !Less(last, was[k]) {
        assert was[k] in multiset(versions[..]);
      }
    }
    GreatestUnique(last, MaxOf(was), was);
    return Some(last), None;
  }

  // ---------------------------------------------------------------------------
  // Ignore policy

  /** The configured ignored_modules list as a membership set. */
  ghost function IgnoreSet(configured: seq<string>): set<string> {
    set m | m in configured
  }

  /** getIgnoredModules: collects the configured paths into a set. */
  method GetIgnoredModules(configured: seq<string>) returns (s: set<string>)
    ensures forall p :: p in s <==> p in configured
    ensures s == IgnoreSet(configured)
  {
    s := {};
    for i := 0 to |configured|
      invariant forall p :: p in s <==> p in configured[..i]
    {
      s := s + {configured[i]};
    }
    assert configured[..|configured|] == configured;
  }

  // ---------------------------------------------------------------------------
  // The engine

  /** The verdict for one record: ignored paths get ErrModuleIgnored and no
      version; the others get the filter's version and the filter's error. */
  function ResultFor(r: ModResult, ignored: set<string>, filter: Filter): CheckResult {
    if r.path in ignored then CheckResult(r.localVersion, None, Some(ErrModuleIgnored))
    else
      var f := filter(r.localVersion, r.availableVersions);
      CheckResult(r.localVersion, f.version, f.err)
  }

  /** The result map after processing `records` in order; a later record for a
      path replaces an earlier one. */
  function Results(records: seq<ModResult>, ignored: set<string>, filter: Filter): map<string, CheckResult>
    decreases |records|
  {
    if records == [] then map[]
    else
      var last := records[|records| - 1];
      Results(records[..|records| - 1], ignored, filter)[last.path := ResultFor(last, ignored, filter)]
  }

  /** The records the filter is applied to, in order: those whose path is not ignored. */
  function Filtered(records: seq<ModResult>, ignored: set<string>): seq<ModResult>
    decreases |records|
  {
    if records == [] then []
    else
      var last := records[|records| - 1];
      Filtered(records[..|records| - 1], ignored) + (if last.path in ignored then [] else [last])
  }

  /** The set of paths of the records. */
  function Paths(records: seq<ModResult>): set<string> {
    set k | 0 <= k < |records| :: records[k].path
  }

  /** getModAndFilter: a parser failure is returned as it is, with no map;
      otherwise every record is turned into a verdict and stored under its path.
      `filtered` lists the records the filter was applied to, in order. */
  method GetModAndFilter(parsed: Result<seq<ModResult>, Error>, configured: seq<string>, filter: Filter)
    returns (res: Result<map<string, CheckResult>, Error>, ghost filtered: seq<ModResult>)
    ensures parsed.Failure? ==> res == Failure(parsed.error) && filtered == []
    ensures parsed.Success? ==> res == Success(Results(parsed.value, IgnoreSet(configured), filter))
    ensures parsed.Success? ==> filtered == Filtered(parsed.value, IgnoreSet(configured))
  {
    if parsed.Failure? {
      return Failure(parsed.error), [];
    }
    var records := parsed.value;
    var ignoredModules := GetIgnoredModules(configured);
    var checkResults: map<string, CheckResult> := map[];
    filtered := [];
    var i := 0;
    while i < |records|
      invariant 0 <= i <= |records|
      invariant checkResults == Results(records[..i], ignoredModules, filter)
      invariant filtered == Filtered(records[..i], ignoredModules)
    {
      var result := records[i];
      var checkResult := CheckResult(result.localVersion, None, None);
      if result.path in ignoredModules {
        checkResult := checkResult.(error := Some(ErrModuleIgnored));
      } else {
        var f := filter(result.localVersion, result.availableVersions);
        if f.err.Some? {
          checkResult := checkResult.(error := f.err);
        }
        if f.version.Some? {
          checkResult := checkResult.(latestVersion := f.version);
        }
        filtered := filtered + [result];
      }
      checkResults := checkResults[result.path := checkResult];
      assert records[..i + 1][..i] == records[..i];
      i := i + 1;
    }
    assert records[..i] == records;
    return Success(checkResults), filtered;
  }

  /** Checker.Check: getModAndFilter with getLatestVersion as the filter. */
  method Check(parsed: Result<seq<ModResult>, Error>, configured: seq<string>)
    returns (res: Result<map<string, CheckResult>, Error>)
    ensures parsed.Failure? ==> res == Failure(parsed.error)
    ensures parsed.Success? ==> res == Success(Results(parsed.value, IgnoreSet(configured), LatestVersion))
  {
    ghost var filtered;
    res, filtered := GetModAndFilter(parsed, configured, LatestVersion);
  }

  // ---------------------------------------------------------------------------
  // Properties of the result map

  /** The keys are exactly the paths of the records. */
  lemma {:induction false} ResultsKeys(records: seq<ModResult>, ignored: set<string>, filter: Filter)
    ensures Results(records, ignored, filter).Keys == Paths(records)
    decreases |records|
  {
    if records != [] {
      var init := records[..|records| - 1];
      ResultsKeys(init, ignored, filter);
      assert forall k :: 0 <= k < |init| ==> init[k] == records[k];
      assert Paths(records) == Paths(init) + {records[|records| - 1].path};
    }
  }

  /** The verdict stored under a path is that of the last record with that path. */
  lemma {:induction false} ResultsLastWins(records: seq<ModResult>, ignored: set<string>, filter: Filter, k: int)
    requires 0 <= k < |records|
    requires forall j :: k < j < |records| ==> records[j].path != records[k].path
    ensures records[k].path in Results(records, ignored, filter)
    ensures Results(records, ignored, filter)[records[k].path] == ResultFor(records[k], ignored, filter)
    decreases |records|
  {
    if k < |records| - 1 {
      var init := records[..|records| - 1];
      ResultsLastWins(init, ignored, filter, k);
    }
  }

  /** Every stored verdict comes from a record with that path and carries its local version. */
  lemma {:induction false} ResultsFromRecords(records: seq<ModResult>, ignored: set<string>, filter: Filter, p: string)
    requires p in Results(records, ignored, filter)
    ensures exists k :: (0 <= k < |records| && records[k].path == p
      && Results(records, ignored, filter)[p] == ResultFor(records[k], ignored, filter)
      && Results(records, ignored, filter)[p].localVersion == records[k].localVersion)
    decreases |records|
  {
    var last := |records| - 1;
    if records[last].path != p {
      var init := records[..last];
      ResultsFromRecords(init, ignored, filter, p);
      var k :| 0 <= k < |init| && init[k].path == p && Results(init, ignored, filter)[p] == ResultFor(init[k], ignored, filter);
      assert records[k] == init[k];
    } else {
      assert records[last].path == p;
    }
  }

  /** An ignored path gets ErrModuleIgnored and no version, whatever the filter. */
  lemma IgnoredResult(records: seq<ModResult>, ignored: set<string>, filter: Filter, p: string)
    requires p in ignored && p in Paths(records)
    ensures p in Results(records, ignored, filter)
    ensures Results(records, ignored, filter)[p].error == Some(ErrModuleIgnored)
    ensures Results(records, ignored, filter)[p].latestVersion == None
  {
    ResultsKeys(records, ignored, filter);
    ResultsFromRecords(records, ignored, filter, p);
  }

  /** A path that is not ignored gets the filter's version and the filter's
      error, each as the filter returned it, for its last record. */
  lemma NotIgnoredResult(records: seq<ModResult>, ignored: set<string>, filter: Filter, k: int)
    requires 0 <= k < |records| && records[k].path !in ignored
    requires forall j :: k < j < |records| ==> records[j].path != records[k].path
    ensures records[k].path in Results(records, ignored, filter)
    ensures var c := Results(records, ignored, filter)[records[k].path];
      var f := filter(records[k].localVersion, records[k].availableVersions);
      c.localVersion == records[k].localVersion && c.latestVersion == f.version && c.error == f.err
  {
    ResultsLastWins(records, ignored, filter, k);
  }

  /** The filter is applied to exactly the records whose path is not ignored, in order. */
  lemma {:induction false} FilteredExactly(records: seq<ModResult>, ignored: set<string>)
    ensures forall r :: r in Filtered(records, ignored) <==> r in records && r.path !in ignored
    decreases |records|
  {
    if records != [] {
      var init := records[..|records| - 1];
      FilteredExactly(init, ignored);
      assert records == init + [records[|records| - 1]];
    }
  }

  /** Ignored entries do not depend on the filter: two filters give equal verdicts for them. */
  lemma IgnoredIndependentOfFilter(records: seq<ModResult>, ignored: set<string>, f: Filter, g: Filter, p: string)
    requires p in ignored && p in Paths(records)
    ensures p in Results(records, ignored, f) && p in Results(records, ignored, g)
    ensures Results(records, ignored, f)[p] == Results(records, ignored, g)[p]
  {
    ResultsKeys(records, ignored, f);
    ResultsKeys(records, ignored, g);
    ResultsFromRecords(records, ignored, f, p);
    ResultsFromRecords(records, ignored, g, p);
  }

  /** With the default strategy a path that is not ignored has exactly one of two
      outcomes: the greatest available version and no error, or no version and
      ErrNoVersionAvailable when nothing is available. */
  lemma LatestVersionOutcome(records: seq<ModResult>, ignored: set<string>, k: int)
    requires 0 <= k < |records| && records[k].path !in ignored
    requires forall j :: k < j < |records| ==> records[j].path != records[k].path
    ensures records[k].path in Results(records, ignored, LatestVersion)
    ensures var c := Results(records, ignored, LatestVersion)[records[k].path];
      var avail := records[k].availableVersions;
      c.localVersion == records[k].localVersion
      && (avail != [] ==> c.error == None && c.latestVersion.Some? && IsGreatest(c.latestVersion.value, avail))
      && (avail == [] ==> c.error == Some(ErrNoVersionAvailable) && c.latestVersion == None)
  {
    ResultsLastWins(records, ignored, LatestVersion, k);
  }

  // ---------------------------------------------------------------------------
  // Worked scenarios

  function V(major: nat, minor: nat, patch: nat): Version {
    Version(major, minor, patch, [])
  }

  /** Two dependencies with nothing ignored: `a` moves to 1.2.0 and `b` stays at 2.1.0. */
  lemma ScenarioNothingIgnored()
    ensures var records := [ModResult("example.com/a", V(1, 0, 0), [V(1, 0, 0), V(1, 1, 0), V(1, 2, 0)]),
                            ModResult("example.com/b", V(2, 1, 0), [V(2, 1, 0)])];
      Results(records, IgnoreSet([]), LatestVersion)
        == map["example.com/a" := CheckResult(V(1, 0, 0), Some(V(1, 2, 0)), None),
               "example.com/b" := CheckResult(V(2, 1, 0), Some(V(2, 1, 0)), None)]
  {
    var records := [ModResult("example.com/a", V(1, 0, 0), [V(1, 0, 0), V(1, 1, 0), V(1, 2, 0)]),
                    ModResult("example.com/b", V(2, 1, 0), [V(2, 1, 0)])];
    assert IgnoreSet([]) == {};
    assert records[..1][..0] == [];
    assert "example.com/a" != "example.com/b";
  }

  /** The same two dependencies with `a` ignored. */
  lemma ScenarioFirstIgnored()
    ensures var records := [ModResult("example.com/a", V(1, 0, 0), [V(1, 0, 0), V(1, 1, 0), V(1, 2, 0)]),
                            ModResult("example.com/b", V(2, 1, 0), [V(2, 1, 0)])];
      Results(records, IgnoreSet(["example.com/a"]), LatestVersion)
        == map["example.com/a" := CheckResult(V(1, 0, 0), None, Some(ErrModuleIgnored)),
               "example.com/b" := CheckResult(V(2, 1, 0), Some(V(2, 1, 0)), None)]
  {
    var records := [ModResult("example.com/a", V(1, 0, 0), [V(1, 0, 0), V(1, 1, 0), V(1, 2, 0)]),
                    ModResult("example.com/b", V(2, 1, 0), [V(2, 1, 0)])];
    assert IgnoreSet(["example.com/a"]) == {"example.com/a"};
    assert records[..1][..0] == [];
    assert "example.com/a" != "example.com/b";
  }
}
