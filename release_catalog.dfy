/**
 * The catalog of releases: every release in order of name, each with its
 * versions in version order, every version shown with its commit, whether
 * it is deployed, and the names of its jobs.
 */
module ReleaseCatalog {
  import opened Results
  import opened Sorting
  import opened VersionGrammar
  import opened VersionComparator
  import opened Models

  /** One listed release version. */
  datatype VersionEntry = VersionEntry(
    version: string,
    commitHash: string,
    uncommittedChanges: bool,
    currentlyDeployed: bool,
    jobNames: seq<string>)

  /** One listed release. */
  datatype ReleaseEntry = ReleaseEntry(name: string, releaseVersions: seq<VersionEntry>)

  /** The names of the templates, in template order. */
  function JobNames(templates: seq<Template>): (names: seq<string>)
    ensures |names| == |templates|
    ensures forall i :: 0 <= i < |templates| ==> names[i] == templates[i].name
    decreases |templates|
  {
    if templates == [] then [] else [templates[0].name] + JobNames(templates[1..])
  }

  /** The listing of one stored version; whether it is deployed is read off its deployments. */
  function ToEntry(v: ReleaseVersion): (e: VersionEntry)
    ensures e.version == v.version && e.commitHash == v.commitHash
    ensures e.uncommittedChanges == v.uncommittedChanges
    ensures e.currentlyDeployed <==> exists d :: d in v.deployments
    ensures |e.jobNames| == |v.templates|
    ensures forall i :: 0 <= i < |v.templates| ==> e.jobNames[i] == v.templates[i].name
  {
    VersionEntry(v.version, v.commitHash, v.uncommittedChanges, v.deployments != {}, JobNames(v.templates))
  }

  /** Every stored version string is a well-formed version, as the upload workflow guarantees. */
  predicate WellFormed(versions: seq<ReleaseVersion>) {
    forall v :: v in versions ==> Parse(v.version).Some?
  }

  // ---- Versions of one release

  function ByVersion(a: ReleaseVersion, b: ReleaseVersion): bool {
    VersionLe(a.version, b.version)
  }

  lemma ByVersionOrders(xs: seq<ReleaseVersion>)
    ensures TotalOn(ByVersion, xs) && TransitiveOn(ByVersion, xs)
  {
    forall a, b | a in xs && b in xs ensures ByVersion(a, b) || ByVersion(b, a) {
      VersionLeTotal(a.version, b.version);
    }
    forall a, b, c | a in xs && b in xs && c in xs && ByVersion(a, b) && ByVersion(b, c)
      ensures ByVersion(a, c)
    {
      VersionLeTransitive(a.version, b.version, c.version);
    }
  }

  /** A version is kept when there is no prefix or its string starts with the prefix, character for character. */
  predicate Matches(prefix: Option<string>, v: ReleaseVersion) {
    prefix.None? || prefix.value <= v.version
  }

  /**
   * A version matches a prefix exactly when its string begins with the
   * prefix, character for character; in particular it matches its own text.
   */
  lemma MatchesLiterally(p: string, v: ReleaseVersion)
    ensures Matches(Some(p), v) <==> |p| <= |v.version| && v.version[..|p|] == p
    ensures Matches(Some(v.version), v)
  {
  }

  /** The versions that match `prefix`, in their given order. */
  function Select(versions: seq<ReleaseVersion>, prefix: Option<string>): (r: seq<ReleaseVersion>)
    ensures |r| <= |versions|
    ensures forall i :: 0 <= i < |r| ==> Matches(prefix, r[i])
    decreases |versions|
  {
    if versions == [] then []
    else
      var rest := Select(versions[1..], prefix);
      if Matches(prefix, versions[0]) then [versions[0]] + rest else rest
  }

  /** Each version occurs in the selection as often as it is stored if it matches, and not at all otherwise. */
  lemma {:induction false} SelectCounts(versions: seq<ReleaseVersion>, prefix: Option<string>)
    ensures forall v :: multiset(Select(versions, prefix))[v] == if Matches(prefix, v) then multiset(versions)[v] else 0
    decreases |versions|
  {
    if versions != [] {
      SelectCounts(versions[1..], prefix);
      assert versions == [versions[0]] + versions[1..];
    }
  }

  lemma SelectMembers(versions: seq<ReleaseVersion>, prefix: Option<string>)
    ensures forall v :: v in Select(versions, prefix) <==> v in versions && Matches(prefix, v)
  {
    var r := Select(versions, prefix);
    SelectCounts(versions, prefix);
    forall v ensures v in r <==> v in versions && Matches(prefix, v) {
      assert v in r <==> multiset(r)[v] > 0;
      assert v in versions <==> multiset(versions)[v] > 0;
    }
  }

  /** Filtering distributes over concatenation. */
  lemma {:induction false} SelectAppend(xs: seq<ReleaseVersion>, ys: seq<ReleaseVersion>, prefix: Option<string>)
    ensures Select(xs + ys, prefix) == Select(xs, prefix) + Select(ys, prefix)
    decreases |xs|
  {
    if xs != [] {
      assert (xs + ys)[1..] == xs[1..] + ys;
      assert (xs + ys)[0] == xs[0];
      SelectAppend(xs[1..], ys, prefix);
      if Matches(prefix, xs[0]) {
        calc {
          Select(xs + ys, prefix);
          [xs[0]] + Select(xs[1..] + ys, prefix);
          [xs[0]] + (Select(xs[1..], prefix) + Select(ys, prefix));
          ([xs[0]] + Select(xs[1..], prefix)) + Select(ys, prefix);
        }
      }
    } else {
      assert xs + ys == ys;
    }
  }

  /** A filter every version passes keeps them all. */
  lemma {:induction false} SelectKeepsMatching(versions: seq<ReleaseVersion>, prefix: Option<string>)
    requires forall i :: 0 <= i < |versions| ==> Matches(prefix, versions[i])
    ensures Select(versions, prefix) == versions
    decreases |versions|
  {
    if versions != [] {
      SelectKeepsMatching(versions[1..], prefix);
      assert versions == [versions[0]] + versions[1..];
    }
  }

  /** A filter no version passes keeps none. */
  lemma {:induction false} SelectDropsUnmatched(versions: seq<ReleaseVersion>, prefix: Option<string>)
    requires forall i :: 0 <= i < |versions| ==> !Matches(prefix, versions[i])
    ensures Select(versions, prefix) == []
    decreases |versions|
  {
    if versions != [] {
      SelectDropsUnmatched(versions[1..], prefix);
    }
  }

  /** Selecting keeps a sorted sequence sorted. */
  lemma {:induction false} SelectSorted(versions: seq<ReleaseVersion>, prefix: Option<string>)
    requires SortedBy(ByVersion, versions)
    ensures SortedBy(ByVersion, Select(versions, prefix))
    decreases |versions|
  {
    if versions != [] {
      var rest := Select(versions[1..], prefix);
      assert SortedBy(ByVersion, versions[1..]) by {
        forall i, j | 0 <= i < j < |versions[1..]|
          ensures ByVersion(versions[1..][i], versions[1..][j])
        {
          assert versions[1..][i] == versions[i + 1] && versions[1..][j] == versions[j + 1];
        }
      }
      SelectSorted(versions[1..], prefix);
      if Matches(prefix, versions[0]) {
        SelectMembers(versions[1..], prefix);
        HeadStaysFirst(ByVersion, versions, rest);
      }
    }
  }

  /** The stored versions matching `prefix`, in ascending version order. */
  function SortedVersionRecords(versions: seq<ReleaseVersion>, prefix: Option<string>): (r: seq<ReleaseVersion>)
    ensures SortedBy(ByVersion, r)
    ensures forall v :: multiset(r)[v] == if Matches(prefix, v) then multiset(versions)[v] else 0
  {
    ByVersionOrders(versions);
    var sorted := SortBy(ByVersion, versions);
    SelectSorted(sorted, prefix);
    SelectCounts(sorted, prefix);
    Select(sorted, prefix)
  }

  function Entries(records: seq<ReleaseVersion>): (r: seq<VersionEntry>)
    ensures |r| == |records|
    ensures forall i :: 0 <= i < |records| ==> r[i] == ToEntry(records[i])
    decreases |records|
  {
    if records == [] then [] else [ToEntry(records[0])] + Entries(records[1..])
  }

  /** The entries of a list of records are the projection of each record. */
  lemma EntriesAreProjection(records: seq<ReleaseVersion>)
    ensures Entries(records) == Map(ToEntry, records)
  {
  }

  /**
   * sorted_release_versions: the listing of the versions whose string
   * starts with `prefix` (all of them when there is none), in ascending
   * version order. A prefix that matches nothing gives an empty listing.
   */
  function SortedReleaseVersions(versions: seq<ReleaseVersion>, prefix: Option<string>): (r: seq<VersionEntry>)
    requires WellFormed(versions)
    ensures |r| == |Select(versions, prefix)|
    ensures forall i, j :: 0 <= i < j < |r| ==> VersionLe(r[i].version, r[j].version)
    ensures forall e :: e in r ==> exists v :: v in versions && Matches(prefix, v) && e == ToEntry(v)
    ensures forall v :: v in versions && Matches(prefix, v) ==> ToEntry(v) in r
  {
    var records := SortedVersionRecords(versions, prefix);
    ListingFacts(versions, prefix, records);
    Entries(records)
  }

  /**
   * The listing holds each entry as often as the matching stored versions
   * project to it, so identical stored records are all listed.
   */
  lemma ListingCounts(versions: seq<ReleaseVersion>, prefix: Option<string>)
    requires WellFormed(versions)
    ensures multiset(SortedReleaseVersions(versions, prefix)) == multiset(Entries(Select(versions, prefix)))
  {
    var records := SortedVersionRecords(versions, prefix);
    SelectCounts(versions, prefix);
    assert multiset(records) == multiset(Select(versions, prefix));
    MapPermuted(ToEntry, records, Select(versions, prefix));
    EntriesAreProjection(records);
    EntriesAreProjection(Select(versions, prefix));
  }

  lemma ListingFacts(versions: seq<ReleaseVersion>, prefix: Option<string>, records: seq<ReleaseVersion>)
    requires records == SortedVersionRecords(versions, prefix)
    ensures |records| == |Select(versions, prefix)|
    ensures forall e :: e in Entries(records) ==> exists v :: v in versions && Matches(prefix, v) && e == ToEntry(v)
    ensures forall v :: v in versions && Matches(prefix, v) ==> ToEntry(v) in Entries(records)
  {
    SelectCounts(versions, prefix);
    assert multiset(records) == multiset(Select(versions, prefix));
    SameMembers(records, Select(versions, prefix));
    SelectMembers(versions, prefix);
    EntriesOf(records);
  }

  /** The entries of `records` are exactly the listings of its members. */
  lemma EntriesOf(records: seq<ReleaseVersion>)
    ensures forall e :: e in Entries(records) ==> exists v :: v in records && e == ToEntry(v)
    ensures forall v :: v in records ==> ToEntry(v) in Entries(records)
  {
    var entries := Entries(records);
    forall e | e in entries ensures exists v :: v in records && e == ToEntry(v) {
      var i :| 0 <= i < |entries| && entries[i] == e;
      assert records[i] in records;
    }
    forall v | v in records ensures ToEntry(v) in entries {
      var i :| 0 <= i < |records| && records[i] == v;
      assert entries[i] == ToEntry(v);
    }
  }

  // ---- All releases

  function ByName(a: Release, b: Release): bool {
    OrdinalLe(a.name, b.name)
  }

  lemma ByNameOrders(xs: seq<Release>)
    ensures TotalOn(ByName, xs) && TransitiveOn(ByName, xs)
  {
    forall a, b | a in xs && b in xs ensures ByName(a, b) || ByName(b, a) {
      OrdinalLeTotal(a.name, b.name);
    }
    forall a, b, c | a in xs && b in xs && c in xs && ByName(a, b) && ByName(b, c)
      ensures ByName(a, c)
    {
      OrdinalLeTransitive(a.name, b.name, c.name);
    }
  }

  /** The listing of one release: its name and all its versions in version order. */
  function Summary(release: Release): (e: ReleaseEntry)
    requires WellFormed(release.versions)
    ensures e.name == release.name
    ensures multiset(e.releaseVersions) == multiset(Entries(release.versions))
  {
    ListingCounts(release.versions, None);
    SelectKeepsMatching(release.versions, None);
    ReleaseEntry(release.name, SortedReleaseVersions(release.versions, None))
  }

  function Summaries(releases: seq<Release>): (r: seq<ReleaseEntry>)
    requires forall rel :: rel in releases ==> WellFormed(rel.versions)
    ensures |r| == |releases|
    ensures forall i :: 0 <= i < |releases| ==> r[i] == Summary(releases[i])
  {
    seq(|releases|, i requires 0 <= i < |releases| => Summary(releases[i]))
  }

  /**
   * all_releases: every release, in ascending ordinal order of name, each
   * listed with all its versions in version order.
   */
  function AllReleases(releases: seq<Release>): (r: seq<ReleaseEntry>)
    requires forall rel :: rel in releases ==> WellFormed(rel.versions)
    ensures |r| == |releases|
    ensures forall i, j :: 0 <= i < j < |r| ==> OrdinalLe(r[i].name, r[j].name)
  {
    ByNameOrders(releases);
    var sorted := SortBy(ByName, releases);
    SameMembers(releases, sorted);
    Summaries(sorted)
  }

  /** all_releases lists every release, and only releases, each by its summary. */
  lemma AllReleasesMembers(releases: seq<Release>)
    requires forall rel :: rel in releases ==> WellFormed(rel.versions)
    ensures forall e :: e in AllReleases(releases) ==>
      exists rel :: rel in releases && WellFormed(rel.versions) && e == Summary(rel)
    ensures forall rel :: rel in releases ==> Summary(rel) in AllReleases(releases)
  {
    ByNameOrders(releases);
    var sorted := SortBy(ByName, releases);
    SameMembers(releases, sorted);
    SummariesOf(sorted);
  }

  /** A release's summary lists its versions in ascending version order. */
  lemma SummarySorted(release: Release)
    requires WellFormed(release.versions)
    ensures var vs := Summary(release).releaseVersions;
      forall i, j :: 0 <= i < j < |vs| ==> VersionLe(vs[i].version, vs[j].version)
  {
  }

  /** all_releases lists the versions of every release in ascending version order. */
  lemma AllReleasesVersionsSorted(releases: seq<Release>)
    requires forall rel :: rel in releases ==> WellFormed(rel.versions)
    ensures forall e :: e in AllReleases(releases) ==>
      forall i, j :: 0 <= i < j < |e.releaseVersions| ==> VersionLe(e.releaseVersions[i].version, e.releaseVersions[j].version)
  {
    AllReleasesMembers(releases);
    forall e | e in AllReleases(releases)
      ensures forall i, j :: 0 <= i < j < |e.releaseVersions| ==> VersionLe(e.releaseVersions[i].version, e.releaseVersions[j].version)
    {
      var rel :| rel in releases && WellFormed(rel.versions) && e == Summary(rel);
      SummarySorted(rel);
    }
  }

  /** The summaries of `releases` are exactly the summaries of its members. */
  lemma SummariesOf(releases: seq<Release>)
    requires forall rel :: rel in releases ==> WellFormed(rel.versions)
    ensures forall e :: e in Summaries(releases) ==> exists rel :: rel in releases && WellFormed(rel.versions) && e == Summary(rel)
    ensures forall rel :: rel in releases ==> Summary(rel) in Summaries(releases)
  {
    var r := Summaries(releases);
    forall e | e in r ensures exists rel :: rel in releases && WellFormed(rel.versions) && e == Summary(rel) {
      var i :| 0 <= i < |r| && r[i] == e;
      assert releases[i] in releases;
    }
    forall rel | rel in releases ensures Summary(rel) in r {
      var i :| 0 <= i < |releases| && releases[i] == rel;
      assert r[i] == Summary(rel);
    }
  }

  lemma SameMembers<T>(xs: seq<T>, ys: seq<T>)
    requires multiset(xs) == multiset(ys)
    ensures |xs| == |ys|
    ensures forall a :: a in xs <==> a in ys
  {
    assert |xs| == |multiset(xs)|;
    forall a ensures a in xs <==> a in ys {
      assert a in xs <==> a in multiset(xs);
      assert a in ys <==> a in multiset(ys);
    }
  }
}
