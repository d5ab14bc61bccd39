/**
 * The director's documented release-manager behaviour on the concrete
 * releases its unit tests set up, derived from the general contracts.
 */
module ReleaseManagerExamples {
  import opened Results
  import opened Sorting
  import opened VersionGrammar
  import opened VersionNormalizer
  import opened VersionComparator
  import opened Models
  import opened ReleaseVersionResolver
  import opened ReleaseCatalog
  import opened ReleaseManager

  function Record(version: string): ReleaseVersion {
    ReleaseVersion(version, "", false, [], {})
  }

  // ---- find_version

  /** The release of the find_version tests: a final version and one dev build in each notation. */
  function FindFixture(): Release {
    Release("fake-release-name", [Record("9"), Record("9.1-dev"), Record("9+dev.2")])
  }

  /** `text` is how `sp` is written, so it parses as `sp`. */
  lemma Spells(text: string, sp: Spelling)
    requires sp.Valid() && Render(sp) == text
    ensures Parse(text) == Some(sp)
  {
    ParseRender(sp);
  }

  lemma FixtureParses()
    ensures Parse("9") == Some(Final(["9"]))
    ensures Parse("9.1-dev") == Some(OldDev(["9"], "1"))
    ensures Parse("9+dev.2") == Some(NewDev(["9"], "2"))
  {
    Spells("9", Final(["9"]));
    Spells("9.1-dev", OldDev(["9"], "1"));
    Spells("9+dev.2", NewDev(["9"], "2"));
  }

  /** Versions that spell a final version and two different dev builds are not aliases of each other. */
  lemma DistinctSpellings(a: string, b: string, c: string)
    requires Parse(a) == Some(Final(["9"]))
    requires Parse(b) == Some(OldDev(["9"], "1"))
    requires Parse(c) == Some(NewDev(["9"], "2"))
    ensures DistinctAliases([Record(a), Record(b), Record(c)])
  {
    assert !Aliases(a, b) && !Aliases(b, a);
    assert !Aliases(a, c) && !Aliases(c, a);
    assert !Aliases(b, c) && !Aliases(c, b);
    DistinctThree([Record(a), Record(b), Record(c)]);
  }

  /** Three stored versions no two of which alias each other. */
  lemma DistinctThree(vs: seq<ReleaseVersion>)
    requires |vs| == 3
    requires !Aliases(vs[0].version, vs[1].version) && !Aliases(vs[1].version, vs[0].version)
    requires !Aliases(vs[0].version, vs[2].version) && !Aliases(vs[2].version, vs[0].version)
    requires !Aliases(vs[1].version, vs[2].version) && !Aliases(vs[2].version, vs[1].version)
    ensures DistinctAliases(vs)
  {
    forall i, j | 0 <= i < |vs| && 0 <= j < |vs| && Aliases(vs[i].version, vs[j].version)
      ensures i == j
    {
      assert i == 0 || i == 1 || i == 2;
      assert j == 0 || j == 1 || j == 2;
    }
  }

  lemma ParsesNineOne()
    ensures Parse("9.1") == Some(Final(["9", "1"]))
  {
    Spells("9.1", Final(["9", "1"]));
  }

  lemma ParsesOldDevTwo()
    ensures Parse("9.2-dev") == Some(OldDev(["9"], "2"))
  {
    Spells("9.2-dev", OldDev(["9"], "2"));
  }

  lemma ParsesDottedDev()
    ensures Parse("9.1.3-dev") == Some(OldDev(["9", "1"], "3"))
  {
    Spells("9.1.3-dev", OldDev(["9", "1"], "3"));
  }

  lemma ParsesNewDevOne()
    ensures Parse("9+dev.1") == Some(NewDev(["9"], "1"))
  {
    Spells("9+dev.1", NewDev(["9"], "1"));
  }

  lemma FixtureDistinct()
    ensures DistinctAliases(FindFixture().versions)
  {
    FixtureParses();
    DistinctSpellings("9", "9.1-dev", "9+dev.2");
  }

  /** A stored string is returned as it is, in each of the three notations. */
  lemma FindExactVersions()
    ensures FindVersion(FindFixture(), "9") == Success(Record("9"))
    ensures FindVersion(FindFixture(), "9.1-dev") == Success(Record("9.1-dev"))
    ensures FindVersion(FindFixture(), "9+dev.2") == Success(Record("9+dev.2"))
  {
    var vs := FindFixture().versions;
    assert Record("9") in vs && Record("9.1-dev") in vs && Record("9+dev.2") in vs;
  }

  /** Two texts that spell the same dev build in either notation are aliases. */
  lemma AliasFromSpellings(s: string, t: string, sp: Spelling, tp: Spelling)
    requires Parse(s) == Some(sp) && Parse(t) == Some(tp) && SameDevBuild(sp, tp)
    ensures Aliases(s, t)
  {
  }

  /** A new-dev request finds the version stored in the old notation. */
  lemma FindNewDevAsOldDev()
    ensures FindVersion(FindFixture(), "9+dev.1") == Success(Record("9.1-dev"))
  {
    FixtureDistinct();
    FixtureParses();
    ParsesNewDevOne();
    AliasFromSpellings("9+dev.1", "9.1-dev", NewDev(["9"], "1"), OldDev(["9"], "1"));
    assert Record("9.1-dev") in FindFixture().versions;
    FindVersionNotationInvariant(FindFixture(), Record("9.1-dev"), "9+dev.1");
  }

  /** An old-dev request finds the version stored in the new notation. */
  lemma FindOldDevAsNewDev()
    ensures FindVersion(FindFixture(), "9.2-dev") == Success(Record("9+dev.2"))
  {
    FixtureDistinct();
    FixtureParses();
    ParsesOldDevTwo();
    AliasFromSpellings("9.2-dev", "9+dev.2", OldDev(["9"], "2"), NewDev(["9"], "2"));
    assert Record("9+dev.2") in FindFixture().versions;
    FindVersionNotationInvariant(FindFixture(), Record("9+dev.2"), "9.2-dev");
  }

  /** "1+2+3" has two '+' and is rejected as invalid. */
  lemma FindInvalidVersion()
    ensures FindVersion(FindFixture(), "1+2+3") == Failure(ReleaseVersionInvalid("1+2+3"))
  {
    assert multiset("1+2+3")['+'] == 2;
    ManyPlusesInvalid("1+2+3");
  }

  /** A version of another release part than "9" has no alias among the fixture's versions. */
  lemma MissingFromFixture(name: string, a: string, b: string, c: string, s: string, sp: Spelling)
    requires Parse(a) == Some(Final(["9"]))
    requires Parse(b) == Some(OldDev(["9"], "1"))
    requires Parse(c) == Some(NewDev(["9"], "2"))
    requires Parse(s) == Some(sp) && sp.release != ["9"]
    ensures FindVersion(Release(name, [Record(a), Record(b), Record(c)]), s)
      == Failure(ReleaseVersionNotFound(name, s))
  {
    NoAliasRecorded(a, b, c, s, sp);
  }

  /** A version of another release aliases none of the fixture's versions. */
  lemma NoAliasRecorded(a: string, b: string, c: string, s: string, sp: Spelling)
    requires Parse(a) == Some(Final(["9"]))
    requires Parse(b) == Some(OldDev(["9"], "1"))
    requires Parse(c) == Some(NewDev(["9"], "2"))
    requires Parse(s) == Some(sp) && sp.release != ["9"]
    ensures forall v :: v in [Record(a), Record(b), Record(c)] ==> !Aliases(s, v.version)
  {
    OtherReleaseNoAlias(s, a);
    OtherReleaseNoAlias(s, b);
    OtherReleaseNoAlias(s, c);
    forall v | v in [Record(a), Record(b), Record(c)]
      ensures !Aliases(s, v.version)
    {
      assert v == Record(a) || v == Record(b) || v == Record(c);
    }
  }

  /** A final version with no stored alias is not found. */
  lemma FindMissingFinal()
    ensures FindVersion(FindFixture(), "9.1") == Failure(ReleaseVersionNotFound("fake-release-name", "9.1"))
  {
    FixtureParses();
    ParsesNineOne();
    MissingFromFixture("fake-release-name", "9", "9.1-dev", "9+dev.2", "9.1", Final(["9", "1"]));
  }

  /** A dev build with no stored alias in either notation is not found. */
  lemma FindMissingDev()
    ensures FindVersion(FindFixture(), "9.1.3-dev") == Failure(ReleaseVersionNotFound("fake-release-name", "9.1.3-dev"))
  {
    FixtureParses();
    ParsesDottedDev();
    MissingFromFixture("fake-release-name", "9", "9.1-dev", "9+dev.2", "9.1.3-dev", OldDev(["9", "1"], "3"));
  }

  // ---- Normalisation

  /** The two notations of dev build 1 of release 9 normalise to each other. */
  lemma NormalizeNineOne()
    ensures Normalize("9.1-dev") == Some("9+dev.1")
    ensures Normalize("9+dev.1") == Some("9.1-dev")
  {
    FixtureParses();
    ParsesNewDevOne();
  }

  // ---- sorted_release_versions

  /** A listing is determined by the sorted order of the versions it selects. */
  lemma ListedAs(versions: seq<ReleaseVersion>, prefix: Option<string>, expected: seq<ReleaseVersion>)
    requires WellFormed(versions)
    requires forall i, j :: 0 <= i < |expected| && 0 <= j < |expected| ==>
      (ByVersion(expected[i], expected[j]) <==> i <= j)
    requires multiset(expected) == multiset(Select(versions, prefix))
    ensures SortedReleaseVersions(versions, prefix) == Entries(expected)
  {
    assert AntisymmetricOn(ByVersion, expected) by {
      forall a, b | a in expected && b in expected && ByVersion(a, b) && ByVersion(b, a)
        ensures a == b
      {
        var i :| 0 <= i < |expected| && expected[i] == a;
        var j :| 0 <= j < |expected| && expected[j] == b;
      }
    }
    var r := SortedVersionRecords(versions, prefix);
    SelectCounts(versions, prefix);
    assert multiset(r) == multiset(Select(versions, prefix));
    SortedUnique(ByVersion, expected, r);
  }

  lemma {:induction false} SelectAll(versions: seq<ReleaseVersion>)
    ensures Select(versions, None) == versions
    decreases |versions|
  {
    if versions != [] {
      SelectAll(versions[1..]);
      assert versions == [versions[0]] + versions[1..];
    }
  }

  /** The versions of the sorted_release_versions tests. */
  function DottedFixture(): seq<ReleaseVersion> {
    [Record("1"), Record("2.1"), Record("2.2"), Record("2.3")]
  }

  lemma ParsesOne()
    ensures Parse("1") == Some(Final(["1"]))
  {
    Spells("1", Final(["1"]));
  }

  /** A final version is compared by the values of its segments. */
  lemma FinalKey(s: string, segments: seq<string>)
    requires Parse(s) == Some(Final(segments))
    ensures VersionKey(s) == Key(SegmentValues(segments), None)
  {
  }

  /** The key of each dotted fixture version: its segments' values, with no dev build. */
  lemma DottedKey(i: nat)
    requires i < 4
    ensures Parse(DottedFixture()[i].version).Some?
    ensures VersionKey(DottedFixture()[i].version) == DottedKeyList()[i]
  {
    DigitValues();
    if i == 0 {
      ParsesOne();
      FinalKeyOne("1", "1", 1);
    } else if i == 1 {
      Spells("2.1", Final(["2", "1"]));
      FinalKeyTwo("2.1", "2", "1", 2, 1);
    } else if i == 2 {
      Spells("2.2", Final(["2", "2"]));
      FinalKeyTwo("2.2", "2", "2", 2, 2);
    } else {
      Spells("2.3", Final(["2", "3"]));
      FinalKeyTwo("2.3", "2", "3", 2, 3);
    }
  }

  lemma DigitValues()
    ensures AllDigits("1") && NumeralValue("1") == 1
    ensures AllDigits("2") && NumeralValue("2") == 2
    ensures AllDigits("3") && NumeralValue("3") == 3
  {
  }

  /** A one-segment final version is compared by that segment's value. */
  lemma FinalKeyOne(s: string, a: string, m: nat)
    requires Parse(s) == Some(Final([a]))
    requires AllDigits(a) && NumeralValue(a) == m
    ensures VersionKey(s) == Key([m], None)
  {
    FinalKey(s, [a]);
    assert SegmentValues([a]) == [m];
  }

  /** A two-segment final version is compared by its segments' values. */
  lemma FinalKeyTwo(s: string, a: string, b: string, m: nat, n: nat)
    requires Parse(s) == Some(Final([a, b]))
    requires AllDigits(a) && NumeralValue(a) == m && AllDigits(b) && NumeralValue(b) == n
    ensures VersionKey(s) == Key([m, n], None)
  {
    FinalKey(s, [a, b]);
    assert SegmentValues([a, b]) == [m, n];
  }

  /** The keys of 1, 2.1, 2.2 and 2.3 come strictly in that order. */
  lemma DottedKeysAscending()
    ensures forall i, j :: 0 <= i < 4 && 0 <= j < 4 ==>
      (KeyLe(DottedKeyList()[i], DottedKeyList()[j]) <==> i <= j)
  {
  }

  function DottedKeyList(): seq<Key> {
    [Key([1], None), Key([2, 1], None), Key([2, 2], None), Key([2, 3], None)]
  }

  lemma DottedWellFormed()
    ensures WellFormed(DottedFixture())
  {
    forall v | v in DottedFixture()
      ensures Parse(v.version).Some?
    {
      var i :| 0 <= i < 4 && DottedFixture()[i] == v;
      DottedKey(i);
    }
  }

  lemma DottedOrdered()
    ensures forall i, j :: 0 <= i < 4 && 0 <= j < 4 ==>
      (ByVersion(DottedFixture()[i], DottedFixture()[j]) <==> i <= j)
  {
    DottedKeysAscending();
    forall i, j | 0 <= i < 4 && 0 <= j < 4
      ensures ByVersion(DottedFixture()[i], DottedFixture()[j]) <==> i <= j
    {
      DottedKey(i);
      DottedKey(j);
    }
  }

  lemma DottedFacts()
    ensures WellFormed(DottedFixture())
    ensures forall i, j :: 0 <= i < 4 && 0 <= j < 4 ==>
      (ByVersion(DottedFixture()[i], DottedFixture()[j]) <==> i <= j)
  {
    DottedWellFormed();
    DottedOrdered();
  }

  /** Without a prefix every version is listed, dotted versions ordered by their segments. */
  lemma ListsDottedVersions()
    ensures WellFormed(DottedFixture()) &&
      var r := SortedReleaseVersions(DottedFixture(), None);
      |r| == 4 && r[0].version == "1" && r[1].version == "2.1" && r[2].version == "2.2" && r[3].version == "2.3"
  {
    DottedFacts();
    ListsInGivenOrder(DottedFixture());
    DottedStrings();
  }

  lemma DottedStrings()
    ensures |DottedFixture()| == 4
    ensures DottedFixture()[0].version == "1" && DottedFixture()[1].version == "2.1"
    ensures DottedFixture()[2].version == "2.2" && DottedFixture()[3].version == "2.3"
  {
  }

  /** Versions already in strictly ascending order are listed in that order. */
  lemma ListsInGivenOrder(vs: seq<ReleaseVersion>)
    requires WellFormed(vs)
    requires forall i, j :: 0 <= i < |vs| && 0 <= j < |vs| ==> (ByVersion(vs[i], vs[j]) <==> i <= j)
    ensures |SortedReleaseVersions(vs, None)| == |vs|
    ensures forall i :: 0 <= i < |vs| ==> SortedReleaseVersions(vs, None)[i].version == vs[i].version
  {
    SelectAll(vs);
    ListedAs(vs, None, vs);
    EntryVersions(vs);
  }

  /** The listed versions are the versions of the records, in order. */
  lemma EntryVersions(records: seq<ReleaseVersion>)
    ensures forall i :: 0 <= i < |records| ==> Entries(records)[i].version == records[i].version
  {
  }

  /** A slice of a strictly ascending sequence is strictly ascending. */
  lemma OrderedSlice(vs: seq<ReleaseVersion>, lo: nat, hi: nat)
    requires lo <= hi <= |vs|
    requires forall i, j :: 0 <= i < |vs| && 0 <= j < |vs| ==> (ByVersion(vs[i], vs[j]) <==> i <= j)
    ensures forall i, j :: 0 <= i < hi - lo && 0 <= j < hi - lo ==>
      (ByVersion(vs[lo..hi][i], vs[lo..hi][j]) <==> i <= j)
  {
    forall i, j | 0 <= i < hi - lo && 0 <= j < hi - lo
      ensures ByVersion(vs[lo..hi][i], vs[lo..hi][j]) <==> i <= j
    {
      assert vs[lo..hi][i] == vs[lo + i] && vs[lo..hi][j] == vs[lo + j];
    }
  }

  lemma SelectsPrefixTwo()
    ensures Select(DottedFixture(), Some("2")) == DottedFixture()[1..]
  {
    var vs := DottedFixture();
    assert "1"[0] == '1';
    assert "2" <= "2.1" && "2" <= "2.2" && "2" <= "2.3";
    assert vs == vs[..1] + vs[1..];
    SelectAppend(vs[..1], vs[1..], Some("2"));
    SelectDropsUnmatched(vs[..1], Some("2"));
    SelectKeepsMatching(vs[1..], Some("2"));
  }

  lemma SelectsPrefixTwoTwo()
    ensures Select(DottedFixture(), Some("2.2")) == DottedFixture()[2..3]
  {
    var vs := DottedFixture();
    assert "2.1"[2] == '1' && "2.3"[2] == '3' && "2.2"[2] == '2';
    assert vs == vs[..2] + (vs[2..3] + vs[3..]);
    SelectAppend(vs[..2], vs[2..3] + vs[3..], Some("2.2"));
    SelectAppend(vs[2..3], vs[3..], Some("2.2"));
    SelectDropsUnmatched(vs[..2], Some("2.2"));
    SelectKeepsMatching(vs[2..3], Some("2.2"));
    SelectDropsUnmatched(vs[3..], Some("2.2"));
  }

  lemma SelectsPrefixThree()
    ensures Select(DottedFixture(), Some("3")) == []
  {
    assert "1"[0] == '1' && "2.1"[0] == '2' && "2.2"[0] == '2' && "2.3"[0] == '2';
    SelectDropsUnmatched(DottedFixture(), Some("3"));
  }

  /** A prefix that selects a slice of ascending versions lists that slice, in order. */
  lemma ListsSlice(vs: seq<ReleaseVersion>, prefix: Option<string>, lo: nat, hi: nat)
    requires WellFormed(vs) && lo <= hi <= |vs|
    requires forall i, j :: 0 <= i < |vs| && 0 <= j < |vs| ==> (ByVersion(vs[i], vs[j]) <==> i <= j)
    requires Select(vs, prefix) == vs[lo..hi]
    ensures |SortedReleaseVersions(vs, prefix)| == hi - lo
    ensures forall i :: 0 <= i < hi - lo ==> SortedReleaseVersions(vs, prefix)[i].version == vs[lo + i].version
  {
    SliceListed(vs, prefix, lo, hi);
    SliceEntryVersions(vs, lo, hi);
  }

  /** The listing of an ordered fixture whose selection is a slice is that slice's entries. */
  lemma SliceListed(vs: seq<ReleaseVersion>, prefix: Option<string>, lo: nat, hi: nat)
    requires WellFormed(vs) && lo <= hi <= |vs|
    requires forall i, j :: 0 <= i < |vs| && 0 <= j < |vs| ==> (ByVersion(vs[i], vs[j]) <==> i <= j)
    requires Select(vs, prefix) == vs[lo..hi]
    ensures SortedReleaseVersions(vs, prefix) == Entries(vs[lo..hi])
  {
    OrderedSlice(vs, lo, hi);
    ListedAs(vs, prefix, vs[lo..hi]);
  }

  /** The entries of a slice carry the version strings of the records at the slice's positions. */
  lemma SliceEntryVersions(vs: seq<ReleaseVersion>, lo: nat, hi: nat)
    requires lo <= hi <= |vs|
    ensures |Entries(vs[lo..hi])| == hi - lo
    ensures forall i :: 0 <= i < hi - lo ==> Entries(vs[lo..hi])[i].version == vs[lo + i].version
  {
    EntryVersions(vs[lo..hi]);
  }

  /** A prefix that selects a slice of the test versions lists that slice, in order. */
  lemma ListsDottedSlice(prefix: Option<string>, lo: nat, hi: nat)
    requires lo <= hi <= 4
    requires Select(DottedFixture(), prefix) == DottedFixture()[lo..hi]
    ensures WellFormed(DottedFixture())
    ensures |SortedReleaseVersions(DottedFixture(), prefix)| == hi - lo
    ensures forall i :: 0 <= i < hi - lo ==>
      SortedReleaseVersions(DottedFixture(), prefix)[i].version == DottedFixture()[lo + i].version
  {
    DottedFacts();
    ListsSlice(DottedFixture(), prefix, lo, hi);
  }

  /** Prefix "2" keeps exactly 2.1, 2.2 and 2.3, still in order. */
  lemma ListsPrefixTwo()
    ensures WellFormed(DottedFixture()) &&
      var r := SortedReleaseVersions(DottedFixture(), Some("2"));
      |r| == 3 && r[0].version == "2.1" && r[1].version == "2.2" && r[2].version == "2.3"
  {
    SelectsPrefixTwo();
    ListsDottedSlice(Some("2"), 1, 4);
    DottedStrings();
  }

  /** Prefix "2.2" keeps only 2.2. */
  lemma ListsPrefixTwoTwo()
    ensures WellFormed(DottedFixture()) &&
      var r := SortedReleaseVersions(DottedFixture(), Some("2.2"));
      |r| == 1 && r[0].version == "2.2"
  {
    SelectsPrefixTwoTwo();
    ListsDottedSlice(Some("2.2"), 2, 3);
    DottedStrings();
  }

  /** A prefix that matches nothing lists nothing. */
  lemma ListsUnmatchedPrefix()
    ensures WellFormed(DottedFixture()) && SortedReleaseVersions(DottedFixture(), Some("3")) == []
  {
    DottedFacts();
    SelectsPrefixThree();
  }

  /** The prefix is compared character by character: "1" also keeps "10". */
  lemma PrefixIsLiteral()
    ensures WellFormed([Record("1"), Record("10")]) &&
      var r := SortedReleaseVersions([Record("1"), Record("10")], Some("1"));
      |r| == 2 && r[0].version == "1" && r[1].version == "10"
  {
    var vs := [Record("1"), Record("10")];
    assert "1" <= "1" && "1" <= "10";
    assert Select(vs, Some("1")) == vs[0..2];
    OneBeforeTen(vs);
    ListsSlice(vs, Some("1"), 0, 2);
  }

  /** The records `1` and `10` are well formed and in strictly ascending version order. */
  lemma OneBeforeTen(vs: seq<ReleaseVersion>)
    requires vs == [Record("1"), Record("10")]
    ensures WellFormed(vs)
    ensures forall i, j :: 0 <= i < |vs| && 0 <= j < |vs| ==> (ByVersion(vs[i], vs[j]) <==> i <= j)
  {
    NumbersOrdered();
    VersionLeTotal("1", "1");
    VersionLeTotal("10", "10");
    forall i, j | 0 <= i < |vs| && 0 <= j < |vs|
      ensures ByVersion(vs[i], vs[j]) <==> i <= j
    {
      assert i == 0 || i == 1;
      assert j == 0 || j == 1;
    }
  }

  // ---- all_releases

  /** A release listing is determined by the name order of the releases it lists. */
  lemma ReleasesListedAs(releases: seq<Release>, expected: seq<Release>)
    requires forall rel :: rel in releases ==> WellFormed(rel.versions)
    requires forall i, j :: 0 <= i < |expected| && 0 <= j < |expected| ==>
      (ByName(expected[i], expected[j]) <==> i <= j)
    requires multiset(expected) == multiset(releases)
    ensures forall rel :: rel in expected ==> WellFormed(rel.versions)
    ensures AllReleases(releases) == Summaries(expected)
  {
    SameMembers(expected, releases);
    assert AntisymmetricOn(ByName, expected) by {
      forall a, b | a in expected && b in expected && ByName(a, b) && ByName(b, a)
        ensures a == b
      {
        var i :| 0 <= i < |expected| && expected[i] == a;
        var j :| 0 <= j < |expected| && expected[j] == b;
      }
    }
    ByNameOrders(releases);
    var sorted := SortBy(ByName, releases);
    SameMembers(releases, sorted);
    assert AllReleases(releases) == Summaries(sorted);
    SortedUnique(ByName, expected, sorted);
  }

  /** A release with a single version lists exactly that version. */
  lemma ListsOnlyVersion(v: ReleaseVersion)
    requires Parse(v.version).Some?
    ensures WellFormed([v]) && SortedReleaseVersions([v], None) == [ToEntry(v)]
  {
    VersionLeTotal(v.version, v.version);
    SelectAll([v]);
    ListedAs([v], None, [v]);
  }

  /** Names that share a prefix compare as what follows it. */
  lemma {:induction false} OrdinalLeCommonPrefix(p: string, a: string, b: string)
    ensures OrdinalLe(p + a, p + b) <==> OrdinalLe(a, b)
    decreases |p|
  {
    if p == [] {
      assert p + a == a && p + b == b;
    } else {
      assert (p + a)[1..] == p[1..] + a && (p + b)[1..] == p[1..] + b;
      assert Codes(p + a)[1..] == Codes(p[1..] + a);
      assert Codes(p + b)[1..] == Codes(p[1..] + b);
      OrdinalLeCommonPrefix(p[1..], a, b);
    }
  }

  lemma ReleaseNamesOrdered()
    ensures OrdinalLe("release-a", "release-b") && !OrdinalLe("release-b", "release-a")
  {
    assert "release-a" == "release-" + "a" && "release-b" == "release-" + "b";
    OrdinalLeCommonPrefix("release-", "a", "b");
    OrdinalLeCommonPrefix("release-", "b", "a");
    assert Codes("a") == [97] && Codes("b") == [98];
  }

  /** Two releases whose names ascend are listed in that order, each by its summary. */
  lemma ListsTwoInOrder(first: Release, second: Release)
    requires WellFormed(first.versions) && WellFormed(second.versions)
    requires OrdinalLe(first.name, second.name) && !OrdinalLe(second.name, first.name)
    ensures AllReleases([first, second]) == [Summary(first), Summary(second)]
  {
    var releases := [first, second];
    TwoByName(releases, first, second);
    ReleasesListedAs(releases, releases);
    SummariesOfTwo(releases, first, second);
  }

  /** Two releases whose names strictly ascend are in name order, position by position. */
  lemma TwoByName(releases: seq<Release>, first: Release, second: Release)
    requires releases == [first, second]
    requires OrdinalLe(first.name, second.name) && !OrdinalLe(second.name, first.name)
    ensures forall i, j :: 0 <= i < |releases| && 0 <= j < |releases| ==>
      (ByName(releases[i], releases[j]) <==> i <= j)
  {
  }

  lemma SummaryAt(releases: seq<Release>, i: int, rel: Release)
    requires forall r :: r in releases ==> WellFormed(r.versions)
    requires 0 <= i < |releases| && releases[i] == rel
    ensures WellFormed(rel.versions) && |Summaries(releases)| == |releases| && Summaries(releases)[i] == Summary(rel)
  {
  }

  lemma SummariesOfTwo(releases: seq<Release>, first: Release, second: Release)
    requires releases == [first, second]
    requires WellFormed(first.versions) && WellFormed(second.versions)
    ensures Summaries(releases) == [Summary(first), Summary(second)]
  {
    SummaryAt(releases, 0, first);
    SummaryAt(releases, 1, second);
    PairIs(Summaries(releases), Summary(first), Summary(second));
  }

  /** The summary of a release with one version lists that version alone. */
  lemma SummaryOfOne(name: string, v: ReleaseVersion)
    requires Parse(v.version).Some?
    ensures WellFormed([v]) && Summary(Release(name, [v])) == ReleaseEntry(name, [ToEntry(v)])
  {
    ListsOnlyVersion(v);
  }

  /** Two single-version releases whose names ascend list their one version each, in that order. */
  lemma ListsTwoSingles(nameA: string, a: ReleaseVersion, nameB: string, b: ReleaseVersion)
    requires Parse(a.version).Some? && Parse(b.version).Some?
    requires OrdinalLe(nameA, nameB) && !OrdinalLe(nameB, nameA)
    ensures WellFormed([a]) && WellFormed([b])
    ensures AllReleases([Release(nameA, [a]), Release(nameB, [b])]) ==
      [ReleaseEntry(nameA, [ToEntry(a)]), ReleaseEntry(nameB, [ToEntry(b)])]
  {
    SummaryOfOne(nameA, a);
    SummaryOfOne(nameB, b);
    ListsTwoInOrder(Release(nameA, [a]), Release(nameB, [b]));
  }

  /** release-a sorts before release-b, whatever their versions. */
  lemma ListsReleaseAThenB(a: ReleaseVersion, b: ReleaseVersion)
    requires Parse(a.version).Some? && Parse(b.version).Some?
    ensures WellFormed([a]) && WellFormed([b])
    ensures AllReleases([Release("release-a", [a]), Release("release-b", [b])]) ==
      [ReleaseEntry("release-a", [ToEntry(a)]), ReleaseEntry("release-b", [ToEntry(b)])]
  {
    ReleaseNamesOrdered();
    ListsTwoSingles("release-a", a, "release-b", b);
  }

  /** The listing of a version with one job template. */
  lemma EntryWithOneJob(version: string, hash: string, dirty: bool, job: string, deployments: set<string>)
    ensures ToEntry(ReleaseVersion(version, hash, dirty, [Template(job)], deployments)) ==
      VersionEntry(version, hash, dirty, deployments != {}, [job])
  {
  }

  /**
   * Two releases, release-a with a deployed version and release-b with one
   * that is not deployed, each version with one job.
   */
  lemma ListsDeployedAndUndeployed(
    versionA: string, hashA: string, dirtyA: bool, jobA: string, deployment: string,
    versionB: string, hashB: string, dirtyB: bool, jobB: string)
    requires Parse(versionA).Some? && Parse(versionB).Some?
    ensures WellFormed([ReleaseVersion(versionA, hashA, dirtyA, [Template(jobA)], {deployment})])
    ensures WellFormed([ReleaseVersion(versionB, hashB, dirtyB, [Template(jobB)], {})])
    ensures AllReleases([
        Release("release-a", [ReleaseVersion(versionA, hashA, dirtyA, [Template(jobA)], {deployment})]),
        Release("release-b", [ReleaseVersion(versionB, hashB, dirtyB, [Template(jobB)], {})])]) == [
        ReleaseEntry("release-a", [VersionEntry(versionA, hashA, dirtyA, true, [jobA])]),
        ReleaseEntry("release-b", [VersionEntry(versionB, hashB, dirtyB, false, [jobB])])]
  {
    EntryWithOneJob(versionA, hashA, dirtyA, jobA, {deployment});
    EntryWithOneJob(versionB, hashB, dirtyB, jobB, {});
    assert deployment in {deployment};
    ListsReleaseAThenB(
      ReleaseVersion(versionA, hashA, dirtyA, [Template(jobA)], {deployment}),
      ReleaseVersion(versionB, hashB, dirtyB, [Template(jobB)], {}));
  }

  /**
   * Every release is listed with every version: its commit data as stored,
   * deployed exactly when a deployment uses it, and its job names. The
   * commit data is whatever the records hold.
   */
  lemma ListsEveryRelease(hashA: string, dirtyA: bool, hashB: string, dirtyB: bool, deployment: string)
    ensures WellFormed([ReleaseVersion("1", hashA, dirtyA, [Template("job-1")], {deployment})])
    ensures WellFormed([ReleaseVersion("2", hashB, dirtyB, [Template("job-2")], {})])
    ensures AllReleases([
        Release("release-a", [ReleaseVersion("1", hashA, dirtyA, [Template("job-1")], {deployment})]),
        Release("release-b", [ReleaseVersion("2", hashB, dirtyB, [Template("job-2")], {})])]) == [
        ReleaseEntry("release-a", [VersionEntry("1", hashA, dirtyA, true, ["job-1"])]),
        ReleaseEntry("release-b", [VersionEntry("2", hashB, dirtyB, false, ["job-2"])])]
  {
    ParsesOne();
    Spells("2", Final(["2"]));
    ListsDeployedAndUndeployed("1", hashA, dirtyA, "job-1", deployment, "2", hashB, dirtyB, "job-2");
  }

  /** A release named `name` with one version, as in the name-ordering test. */
  function Named(name: string): Release {
    Release(name, [Record("1")])
  }

  lemma ShortNamesOrdered()
    ensures OrdinalLe("1c", "a") && !OrdinalLe("a", "1c")
    ensures OrdinalLe("a", "b") && !OrdinalLe("b", "a")
    ensures OrdinalLe("1c", "b") && !OrdinalLe("b", "1c")
  {
    assert Codes("1c") == [49, 99];
    assert Codes("a") == [97];
    assert Codes("b") == [98];
  }

  /** Releases named a, b, c with one parsable version each are well formed in either arrangement. */
  lemma NamedWellFormed(a: string, b: string, c: string)
    requires WellFormed([Record("1")])
    ensures forall rel :: rel in [Named(c), Named(a), Named(b)] ==> WellFormed(rel.versions)
    ensures forall rel :: rel in [Named(a), Named(b), Named(c)] ==> WellFormed(rel.versions)
  {
    forall rel | rel in [Named(c), Named(a), Named(b)]
      ensures rel.versions == [Record("1")]
    {
      assert rel == Named(c) || rel == Named(a) || rel == Named(b);
    }
  }

  /** Three releases in strictly ascending name order. */
  lemma NamedAscending(a: string, b: string, c: string, e: seq<Release>)
    requires e == [Named(a), Named(b), Named(c)]
    requires OrdinalLe(a, b) && !OrdinalLe(b, a)
    requires OrdinalLe(b, c) && !OrdinalLe(c, b)
    requires OrdinalLe(a, c) && !OrdinalLe(c, a)
    ensures forall i, j :: 0 <= i < |e| && 0 <= j < |e| ==> (ByName(e[i], e[j]) <==> i <= j)
  {
    OrdinalLeTotal(a, a);
    OrdinalLeTotal(b, b);
    OrdinalLeTotal(c, c);
    Ascending3(ByName, e);
  }

  /** Releases made in the order c, a, b, whose names ascend as a, b, c, are listed as a, b, c. */
  lemma ListsThreeNamed(a: string, b: string, c: string)
    requires WellFormed([Record("1")])
    requires OrdinalLe(a, b) && !OrdinalLe(b, a)
    requires OrdinalLe(b, c) && !OrdinalLe(c, b)
    requires OrdinalLe(a, c) && !OrdinalLe(c, a)
    ensures forall rel :: rel in [Named(c), Named(a), Named(b)] ==> WellFormed(rel.versions)
    ensures forall rel :: rel in [Named(a), Named(b), Named(c)] ==> WellFormed(rel.versions)
    ensures AllReleases([Named(c), Named(a), Named(b)]) == Summaries([Named(a), Named(b), Named(c)])
  {
    var created, expected := [Named(c), Named(a), Named(b)], [Named(a), Named(b), Named(c)];
    NamedWellFormed(a, b, c);
    NamedAscending(a, b, c, expected);
    Rotated3(Named(c), Named(a), Named(b));
    ReleasesListedAs(created, expected);
  }

  /** The names of that listing, in order. */
  lemma ThreeNamesListed(a: string, b: string, c: string)
    requires WellFormed([Record("1")])
    requires OrdinalLe(a, b) && !OrdinalLe(b, a)
    requires OrdinalLe(b, c) && !OrdinalLe(c, b)
    requires OrdinalLe(a, c) && !OrdinalLe(c, a)
    ensures (forall rel :: rel in [Named(c), Named(a), Named(b)] ==> WellFormed(rel.versions)) &&
      var r := AllReleases([Named(c), Named(a), Named(b)]);
      |r| == 3 && r[0].name == a && r[1].name == b && r[2].name == c
  {
    ListsThreeNamed(a, b, c);
    NamesOfSummaries([Named(a), Named(b), Named(c)], a, b, c);
  }

  /** The summaries of three releases carry their names, in order. */
  lemma NamesOfSummaries(releases: seq<Release>, a: string, b: string, c: string)
    requires releases == [Named(a), Named(b), Named(c)]
    requires forall rel :: rel in releases ==> WellFormed(rel.versions)
    ensures var r := Summaries(releases); |r| == 3 && r[0].name == a && r[1].name == b && r[2].name == c
  {
    SummaryAt(releases, 0, Named(a));
    SummaryAt(releases, 1, Named(b));
    SummaryAt(releases, 2, Named(c));
  }

  /** Releases are listed in ascending ordinal order of name: "1c", then "a", then "b". */
  lemma OrdersReleasesByName()
    ensures (forall rel :: rel in [Named("b"), Named("1c"), Named("a")] ==> WellFormed(rel.versions)) &&
      var r := AllReleases([Named("b"), Named("1c"), Named("a")]);
      |r| == 3 && r[0].name == "1c" && r[1].name == "a" && r[2].name == "b"
  {
    ParsesOne();
    ShortNamesOrdered();
    ThreeNamesListed("1c", "a", "b");
  }

  lemma NumberedKeys()
    ensures VersionKey("1") == Key([1], None)
    ensures VersionKey("3") == Key([3], None)
    ensures VersionKey("10") == Key([10], None)
  {
    ParsesOne();
    Spells("3", Final(["3"]));
    Spells("10", Final(["10"]));
    FinalKey("1", ["1"]);
    FinalKey("3", ["3"]);
    FinalKey("10", ["10"]);
    assert NumeralValue("10") == 10 by {
      assert "10"[..1] == "1";
    }
  }

  /** A single release is listed by its summary. */
  lemma ListsOnlyRelease(rel: Release)
    requires WellFormed(rel.versions)
    ensures AllReleases([rel]) == [Summary(rel)]
  {
    OrdinalLeTotal(rel.name, rel.name);
    ReleasesListedAs([rel], [rel]);
  }

  /** A single release lists its versions in the sorted order of `expected`. */
  lemma ListsSingleRelease(name: string, vs: seq<ReleaseVersion>, expected: seq<ReleaseVersion>)
    requires WellFormed(vs)
    requires forall i, j :: 0 <= i < |expected| && 0 <= j < |expected| ==>
      (ByVersion(expected[i], expected[j]) <==> i <= j)
    requires multiset(expected) == multiset(vs)
    ensures AllReleases([Release(name, vs)]) == [ReleaseEntry(name, Entries(expected))]
  {
    ListsOnlyRelease(Release(name, vs));
    SelectAll(vs);
    ListedAs(vs, None, expected);
  }

  /** Records whose version strings all parse are well formed, here in the order they were created. */
  lemma RecordsWellFormed(x: string, y: string, z: string)
    requires Parse(x).Some? && Parse(y).Some? && Parse(z).Some?
    ensures WellFormed([Record(y), Record(z), Record(x)])
  {
    forall v | v in [Record(y), Record(z), Record(x)]
      ensures Parse(v.version).Some?
    {
      assert v == Record(y) || v == Record(z) || v == Record(x);
    }
  }

  /** Three records in strictly ascending version order. */
  lemma RecordsAscending(x: string, y: string, z: string, e: seq<ReleaseVersion>)
    requires e == [Record(x), Record(y), Record(z)]
    requires VersionLe(x, y) && !VersionLe(y, x)
    requires VersionLe(y, z) && !VersionLe(z, y)
    requires VersionLe(x, z) && !VersionLe(z, x)
    ensures forall i, j :: 0 <= i < |e| && 0 <= j < |e| ==> (ByVersion(e[i], e[j]) <==> i <= j)
  {
    VersionLeTotal(x, x);
    VersionLeTotal(y, y);
    VersionLeTotal(z, z);
    Ascending3(ByVersion, e);
  }

  /** Versions of a single release, created out of order, are listed in ascending version order. */
  lemma ListsThreeAscending(name: string, x: string, y: string, z: string)
    requires Parse(x).Some? && Parse(y).Some? && Parse(z).Some?
    requires VersionLe(x, y) && !VersionLe(y, x)
    requires VersionLe(y, z) && !VersionLe(z, y)
    requires VersionLe(x, z) && !VersionLe(z, x)
    ensures WellFormed([Record(y), Record(z), Record(x)])
    ensures AllReleases([Release(name, [Record(y), Record(z), Record(x)])]) ==
      [ReleaseEntry(name, Entries([Record(x), Record(y), Record(z)]))]
  {
    var created, expected := [Record(y), Record(z), Record(x)], [Record(x), Record(y), Record(z)];
    RecordsWellFormed(x, y, z);
    RecordsAscending(x, y, z, expected);
    Rotated3(Record(x), Record(y), Record(z));
    ListsSingleRelease(name, created, expected);
  }

  lemma NumbersOrdered()
    ensures Parse("1").Some? && Parse("3").Some? && Parse("10").Some?
    ensures VersionLe("1", "3") && !VersionLe("3", "1")
    ensures VersionLe("3", "10") && !VersionLe("10", "3")
    ensures VersionLe("1", "10") && !VersionLe("10", "1")
  {
    ParsesOne();
    Spells("3", Final(["3"]));
    Spells("10", Final(["10"]));
    NumberedKeys();
  }

  /**
   * Versions are listed in ascending numeric order: 1, 3, 10. The test
   * creates them from the integers 3, 10 and 1; the version column holds
   * their decimal strings.
   */
  lemma OrdersVersionsNumerically()
    ensures (forall rel :: rel in [Release("a", [Record("3"), Record("10"), Record("1")])] ==> WellFormed(rel.versions)) &&
      var r := AllReleases([Release("a", [Record("3"), Record("10"), Record("1")])]);
      |r| == 1 && |r[0].releaseVersions| == 3 &&
      r[0].releaseVersions[0].version == "1" &&
      r[0].releaseVersions[1].version == "3" &&
      r[0].releaseVersions[2].version == "10"
  {
    NumbersOrdered();
    ListsThreeAscending("a", "1", "3", "10");
    EntryVersions([Record("1"), Record("3"), Record("10")]);
  }

  // ---- Upload and deletion requests

  /** A remote upload enqueues an update job for the URL, with the caller's flags. */
  lemma UploadsFromUrl(rebase: bool, skipIfExists: bool)
    ensures CreateReleaseFromUrl("username-1", "http://fake-domain.com/release.tgz", rebase, skipIfExists) ==
      EnqueueRequest("username-1", UpdateReleaseJob, "create release",
        RemoteRelease("http://fake-domain.com/release.tgz", true, rebase, skipIfExists))
  {
  }

  /** An existing release file is enqueued for upload. */
  lemma UploadsExistingFile(fileExists: string -> bool, rebase: bool)
    requires fileExists("/path/to/release.tgz")
    ensures CreateReleaseFromFilePath(fileExists, "username-1", "/path/to/release.tgz", rebase) ==
      Success(EnqueueRequest("username-1", UpdateReleaseJob, "create release",
        LocalRelease("/path/to/release.tgz", rebase)))
  {
  }

  /** A missing release file is an error that says so, and nothing is enqueued. */
  lemma MissingFileFails(fileExists: string -> bool, rebase: bool)
    requires !fileExists("/path/to/release.tgz")
    ensures var r := CreateReleaseFromFilePath(fileExists, "username-1", "/path/to/release.tgz", rebase);
      r.Failure? && FileNotFound <= r.error.message
  {
  }

  /** Only the presence of the named file decides the outcome of a file upload. */
  lemma FileUploadReadsOnlyItsFile(exists1: string -> bool, exists2: string -> bool, user: string, path: string, rebase: bool)
    requires exists1(path) == exists2(path)
    ensures CreateReleaseFromFilePath(exists1, user, path, rebase) == CreateReleaseFromFilePath(exists2, user, path, rebase)
  {
  }

  /** Deleting a release enqueues a deletion job described by the release's name. */
  lemma DeletesByName()
    ensures DeleteRelease("username-1", Release("FAKE RELEASE", []), map["foo" := "bar"]) ==
      EnqueueRequest("username-1", DeleteReleaseJob, "delete release: FAKE RELEASE",
        ReleaseDeletion("FAKE RELEASE", map["foo" := "bar"]))
  {
  }
}
