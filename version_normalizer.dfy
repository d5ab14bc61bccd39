/**
 * Conversion between the two dev-build notations: "9.1-dev" and "9+dev.1"
 * name the same dev build, and each is the other's normalised form. A final
 * version has no other notation.
 */
module VersionNormalizer {
  import opened Results
  import opened VersionGrammar

  /** The same dev build written in the other notation. */
  function Counterpart(sp: Spelling): (c: Spelling)
    requires !sp.Final?
    ensures !c.Final? && c.OldDev? != sp.OldDev?
    ensures c.release == sp.release && c.build == sp.build
  {
    match sp
    case OldDev(r, b) => NewDev(r, b)
    case NewDev(r, b) => OldDev(r, b)
  }

  /** Build `sp` and build `tp` are both dev builds of the same release with the same number. */
  predicate SameDevBuild(sp: Spelling, tp: Spelling) {
    !sp.Final? && !tp.Final? && sp.release == tp.release && sp.build == tp.build
  }

  /**
   * The text of `s` in the other dev notation; None when `s` is a final
   * version or not a version at all.
   */
  function Normalize(s: string): (r: Option<string>)
    ensures r.Some? <==> Parse(s).Some? && !Parse(s).value.Final?
    ensures r.Some? ==> r.value != s
    ensures r.Some? ==> Parse(r.value).Some? && SameDevBuild(Parse(s).value, Parse(r.value).value)
    ensures r.Some? ==> Parse(r.value).value.OldDev? != Parse(s).value.OldDev?
  {
    match Parse(s)
    case None => None
    case Some(sp) =>
      if sp.Final? then None
      else
        var c := Counterpart(sp);
        ParseRender(c);
        Some(Render(c))
  }

  /** Normalising twice gives back the original text. */
  lemma NormalizeInvolution(s: string)
    requires Normalize(s).Some?
    ensures Normalize(Normalize(s).value) == Some(s)
  {
    var sp := Parse(s).value;
    ParseRender(Counterpart(sp));
    assert Counterpart(Counterpart(sp)) == sp;
  }

  /** Two texts name the same version: they are equal, or both dev builds of one build number. */
  predicate Aliases(s: string, t: string): (r: bool)
    ensures r && s != t ==> Parse(s).Some? && Parse(t).Some?
    ensures r && s != t ==> !Parse(s).value.Final? && Parse(s).value.release == Parse(t).value.release
  {
    s == t || (Parse(s).Some? && Parse(t).Some? && SameDevBuild(Parse(s).value, Parse(t).value))
  }

  /** A text's only aliases are itself and its normalised form. */
  lemma AliasesIffNormalized(s: string, t: string)
    ensures Aliases(s, t) <==> s == t || Normalize(s) == Some(t)
  {
    if Aliases(s, t) && s != t {
      var sp, tp := Parse(s).value, Parse(t).value;
      assert tp == Counterpart(sp);
    }
  }

  /** Versions with different release segments never name the same version. */
  lemma OtherReleaseNoAlias(s: string, t: string)
    requires Parse(s).Some? && Parse(t).Some?
    requires Parse(s).value.release != Parse(t).value.release
    ensures !Aliases(s, t)
  {
  }

  lemma AliasesSymmetric(s: string, t: string)
    ensures Aliases(s, t) <==> Aliases(t, s)
  {
  }

  lemma AliasesTransitive(s: string, t: string, u: string)
    requires Aliases(s, t) && Aliases(t, u)
    ensures Aliases(s, u)
  {
  }
}
