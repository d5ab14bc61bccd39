/**
 * Resolution of a requested version string to one stored version of a
 * release: the stored string itself first, then the same dev build written
 * in the other notation; otherwise the request is reported as malformed or
 * as not found.
 */
module ReleaseVersionResolver {
  import opened Results
  import opened VersionGrammar
  import opened VersionNormalizer
  import opened Models

  datatype FindError =
    | ReleaseVersionInvalid(version: string)
    | ReleaseVersionNotFound(release: string, version: string)

  /** The first stored version whose string is exactly `s`. */
  function Lookup(versions: seq<ReleaseVersion>, s: string): (r: Option<ReleaseVersion>)
    ensures r.Some? ==> r.value in versions && r.value.version == s
    ensures r.None? <==> forall v :: v in versions ==> v.version != s
    decreases |versions|
  {
    if versions == [] then None
    else if versions[0].version == s then Some(versions[0])
    else
      assert forall v :: v in versions ==> v == versions[0] || v in versions[1..];
      Lookup(versions[1..], s)
  }

  /** Some stored version has exactly the string `s`. */
  predicate Stored(versions: seq<ReleaseVersion>, s: string) {
    exists v :: v in versions && v.version == s
  }

  /** The error a failed lookup of `requested` reports: malformed, or well formed but absent. */
  function ExpectedError(release: Release, requested: string): FindError {
    if Parse(requested).None? then ReleaseVersionInvalid(requested)
    else ReleaseVersionNotFound(release.name, requested)
  }

  /**
   * find_version: the stored version named by `requested`. An exact match
   * wins; otherwise the other dev notation of `requested` is looked up. A
   * request that is neither stored nor a version is invalid; a version
   * with no stored alias is not found.
   */
  function FindVersion(release: Release, requested: string): (r: Result<ReleaseVersion, FindError>)
    ensures r.Success? ==> r.value in release.versions && Aliases(requested, r.value.version)
    ensures r.Success? <==> exists v :: v in release.versions && Aliases(requested, v.version)
    ensures Stored(release.versions, requested) ==> r.Success? && r.value.version == requested
    ensures r.Failure? ==> r.error == ExpectedError(release, requested)
  {
    match Lookup(release.versions, requested)
    case Some(v) => Success(v)
    case None =>
      if Parse(requested).None? then Failure(ReleaseVersionInvalid(requested))
      else
        var alternate := Normalize(requested);
        var found := if alternate.Some? then Lookup(release.versions, alternate.value) else None;
        AliasesFound(release.versions, requested);
        match found
        case Some(v) => Success(v)
        case None => Failure(ReleaseVersionNotFound(release.name, requested))
  }

  /** The same resolution with the request validated before the exact-match lookup. */
  function FindVersionValidatingFirst(release: Release, requested: string): (r: Result<ReleaseVersion, FindError>)
    ensures r.Success? ==> r.value in release.versions && Aliases(requested, r.value.version)
    ensures r.Success? <==> Parse(requested).Some? && exists v :: v in release.versions && Aliases(requested, v.version)
    ensures Parse(requested).Some? && Stored(release.versions, requested) ==> r.Success? && r.value.version == requested
    ensures r.Failure? ==> r.error == ExpectedError(release, requested)
  {
    AliasesFound(release.versions, requested);
    if Parse(requested).None? then Failure(ReleaseVersionInvalid(requested))
    else match Lookup(release.versions, requested)
      case Some(v) => Success(v)
      case None =>
        var alternate := Normalize(requested);
        var found := if alternate.Some? then Lookup(release.versions, alternate.value) else None;
        match found
        case Some(v) => AliasesIffNormalized(requested, v.version); Success(v)
        case None => Failure(ReleaseVersionNotFound(release.name, requested))
  }

  /**
   * When every stored version string is well formed, validating the request
   * first or looking for it first resolves every request the same way.
   */
  lemma ResolutionOrderIrrelevant(release: Release, requested: string)
    requires forall v :: v in release.versions ==> Parse(v.version).Some?
    ensures FindVersion(release, requested) == FindVersionValidatingFirst(release, requested)
  {
    if Parse(requested).None? {
      assert forall v :: v in release.versions ==> v.version != requested;
    }
  }

  /** A stored alias of `s` is `s` itself or its other notation. */
  lemma AliasesFound(versions: seq<ReleaseVersion>, s: string)
    ensures (exists v :: v in versions && Aliases(s, v.version)) <==>
      Stored(versions, s) || (Normalize(s).Some? && Stored(versions, Normalize(s).value))
  {
    forall v | v in versions
      ensures Aliases(s, v.version) <==> v.version == s || Normalize(s) == Some(v.version)
    {
      AliasesIffNormalized(s, v.version);
    }
  }

  /** No two stored versions of a release name the same version, in either notation. */
  predicate DistinctAliases(versions: seq<ReleaseVersion>) {
    forall i, j :: 0 <= i < |versions| && 0 <= j < |versions| && Aliases(versions[i].version, versions[j].version) ==> i == j
  }

  /**
   * Resolution does not depend on the notation of the request: every
   * alias of a stored version resolves to that version.
   */
  lemma FindVersionNotationInvariant(release: Release, v: ReleaseVersion, requested: string)
    requires DistinctAliases(release.versions)
    requires v in release.versions && Aliases(requested, v.version)
    ensures FindVersion(release, requested) == Success(v)
  {
    var w := FindVersion(release, requested).value;
    var i :| 0 <= i < |release.versions| && release.versions[i] == v;
    var j :| 0 <= j < |release.versions| && release.versions[j] == w;
    AliasesSymmetric(requested, v.version);
    AliasesTransitive(v.version, requested, w.version);
  }

  /**
   * Whether a dev build is found does not depend on its notation, even when
   * stored versions alias each other.
   */
  lemma FindVersionSucceedsInEitherNotation(release: Release, s: string)
    requires Normalize(s).Some?
    ensures FindVersion(release, s).Success? == FindVersion(release, Normalize(s).value).Success?
  {
    var t := Normalize(s).value;
    NormalizeInvolution(s);
    forall v | v in release.versions
      ensures Aliases(s, v.version) <==> Aliases(t, v.version)
    {
      AliasesIffNormalized(s, v.version);
      AliasesIffNormalized(t, v.version);
    }
  }
}
