/**
 * Orderings used by the catalog: release versions compare numerically,
 * segment by segment ("3" before "10"); release names compare by character
 * code ("1c" before "a" before "b").
 */
module VersionComparator {
  import opened Results
  import opened VersionGrammar
  import opened VersionNormalizer

  /** Lexicographic order on sequences of numbers; a proper prefix comes first. */
  predicate LexLe(a: seq<nat>, b: seq<nat>)
    decreases |a|
  {
    if a == [] then true
    else if b == [] then false
    else if a[0] != b[0] then a[0] < b[0]
    else LexLe(a[1..], b[1..])
  }

  /** A prefix sorts no later than the sequence it begins. */
  lemma {:induction false} LexLePrefix(a: seq<nat>, b: seq<nat>)
    requires a <= b
    ensures LexLe(a, b)
    decreases |a|
  {
    if a != [] {
      assert a[1..] <= b[1..];
      LexLePrefix(a[1..], b[1..]);
    }
  }

  lemma {:induction false} LexLeTotal(a: seq<nat>, b: seq<nat>)
    ensures LexLe(a, b) || LexLe(b, a)
    decreases |a|
  {
    if a != [] && b != [] && a[0] == b[0] {
      LexLeTotal(a[1..], b[1..]);
    }
  }

  lemma {:induction false} LexLeTransitive(a: seq<nat>, b: seq<nat>, c: seq<nat>)
    requires LexLe(a, b) && LexLe(b, c)
    ensures LexLe(a, c)
    decreases |a|
  {
    if a != [] && b != [] && c != [] && a[0] == b[0] == c[0] {
      LexLeTransitive(a[1..], b[1..], c[1..]);
    }
  }

  lemma {:induction false} LexLeAntisymmetric(a: seq<nat>, b: seq<nat>)
    requires LexLe(a, b) && LexLe(b, a)
    ensures a == b
    decreases |a|
  {
    if a != [] {
      LexLeAntisymmetric(a[1..], b[1..]);
      assert a == [a[0]] + a[1..] && b == [b[0]] + b[1..];
    }
  }

  // ---- Versions

  /** What a version is compared by: its segment values, and its dev-build number if any. */
  datatype Key = Key(release: seq<nat>, build: Option<nat>)

  function SegmentValues(segments: seq<string>): (values: seq<nat>)
    requires forall i :: 0 <= i < |segments| ==> AllDigits(segments[i])
    ensures |values| == |segments|
    ensures forall i :: 0 <= i < |segments| ==> values[i] == NumeralValue(segments[i])
    decreases |segments|
  {
    if segments == [] then [] else [NumeralValue(segments[0])] + SegmentValues(segments[1..])
  }

  function KeyOf(sp: Spelling): Key
    requires sp.Valid()
  {
    Key(SegmentValues(sp.release), if sp.Final? then None else Some(NumeralValue(sp.build)))
  }

  /**
   * The key of a stored version string. Stored versions are well formed;
   * a malformed one would get the empty key.
   */
  function VersionKey(s: string): (k: Key)
    ensures Parse(s).Some? ==> |k.release| == |Parse(s).value.release|
    ensures Parse(s).Some? ==> (k.build.None? <==> Parse(s).value.Final?)
    ensures Parse(s).Some? ==> forall i :: 0 <= i < |k.release| ==> k.release[i] == NumeralValue(Parse(s).value.release[i])
    ensures Parse(s).Some? && !Parse(s).value.Final? ==> k.build == Some(NumeralValue(Parse(s).value.build))
  {
    match Parse(s)
    case Some(sp) => KeyOf(sp)
    case None => Key([], None)
  }

  /** Both notations of a dev build have one key, so they sort at the same place. */
  lemma NotationKeepsKey(s: string)
    requires Normalize(s).Some?
    ensures VersionKey(Normalize(s).value) == VersionKey(s)
  {
  }

  /** Keys by release segments first; for equal segments the final version, then dev builds by number. */
  predicate KeyLe(a: Key, b: Key): (r: bool)
    ensures a == b ==> r
  {
    if a.release != b.release then LexLe(a.release, b.release)
    else match (a.build, b.build)
      case (None, _) => true
      case (Some(_), None) => false
      case (Some(x), Some(y)) => x <= y
  }

  /** `s` sorts no later than `t` among a release's versions. */
  predicate VersionLe(s: string, t: string): (r: bool)
    ensures VersionKey(s) == VersionKey(t) ==> r
  {
    KeyLe(VersionKey(s), VersionKey(t))
  }

  lemma VersionLeTotal(s: string, t: string)
    ensures VersionLe(s, t) || VersionLe(t, s)
  {
    LexLeTotal(VersionKey(s).release, VersionKey(t).release);
  }

  lemma VersionLeTransitive(s: string, t: string, u: string)
    requires VersionLe(s, t) && VersionLe(t, u)
    ensures VersionLe(s, u)
  {
    var a, b, c := VersionKey(s), VersionKey(t), VersionKey(u);
    if a.release != b.release && b.release != c.release {
      LexLeTransitive(a.release, b.release, c.release);
      if a.release == c.release {
        LexLeAntisymmetric(a.release, b.release);
      }
    }
  }

  /** Versions that sort each before the other have the same segment values and dev-build number. */
  lemma VersionLeAntisymmetric(s: string, t: string)
    requires VersionLe(s, t) && VersionLe(t, s)
    ensures VersionKey(s) == VersionKey(t)
  {
    var a, b := VersionKey(s), VersionKey(t);
    if a.release != b.release {
      LexLeAntisymmetric(a.release, b.release);
    }
  }

  /** Segments compare as numbers: "3" sorts before "10", although "10" is first by character code. */
  lemma NumericNotLexical()
    ensures VersionLe("3", "10") && !VersionLe("10", "3")
    ensures OrdinalLe("10", "3") && !OrdinalLe("3", "10")
  {
    ParseRender(Final(["3"]));
    ParseRender(Final(["10"]));
    assert NumeralValue("10") == 10 by {
      assert "10"[..1] == "1";
    }
    assert Codes("10") == [49, 48];
    assert Codes("3") == [51];
  }

  // ---- Versions given as integers

  /** A version given as the integer `n` is stored as a final version whose key is `n`. */
  lemma IntegerVersionKey(n: nat)
    ensures Parse(DecimalString(n)) == Some(Final([DecimalString(n)]))
    ensures VersionKey(DecimalString(n)) == Key([n], None)
  {
    var d := DecimalString(n);
    assert IsRelease([d]);
    ParseRender(Final([d]));
    assert SegmentValues([d]) == [n];
  }

  /** Versions given as integers sort as those integers. */
  lemma IntegerVersionsOrdered(m: nat, n: nat)
    ensures VersionLe(DecimalString(m), DecimalString(n)) <==> m <= n
  {
    IntegerVersionKey(m);
    IntegerVersionKey(n);
    assert LexLe([m], [n]) <==> m <= n by {
      if m == n {
        assert [m][1..] == [];
      }
    }
  }

  // ---- Release names

  /** The character codes of a name. */
  function Codes(s: string): (codes: seq<nat>)
    ensures |codes| == |s|
    ensures forall i :: 0 <= i < |s| ==> codes[i] == s[i] as nat
    decreases |s|
  {
    if s == [] then [] else [s[0] as nat] + Codes(s[1..])
  }

  /** The codes of a prefix of a name are a prefix of its codes, which sorts first. */
  lemma CodesOfPrefix(a: string, b: string)
    ensures a <= b ==> LexLe(Codes(a), Codes(b))
  {
    if a <= b {
      assert Codes(a) <= Codes(b);
      LexLePrefix(Codes(a), Codes(b));
    }
  }

  /** Ordinal comparison of names: lexicographic on character codes. */
  predicate OrdinalLe(a: string, b: string): (r: bool)
    ensures a <= b ==> r
  {
    CodesOfPrefix(a, b);
    LexLe(Codes(a), Codes(b))
  }

  lemma OrdinalLeTotal(a: string, b: string)
    ensures OrdinalLe(a, b) || OrdinalLe(b, a)
  {
    LexLeTotal(Codes(a), Codes(b));
  }

  lemma OrdinalLeTransitive(a: string, b: string, c: string)
    requires OrdinalLe(a, b) && OrdinalLe(b, c)
    ensures OrdinalLe(a, c)
  {
    LexLeTransitive(Codes(a), Codes(b), Codes(c));
  }

  lemma OrdinalLeAntisymmetric(a: string, b: string)
    requires OrdinalLe(a, b) && OrdinalLe(b, a)
    ensures a == b
  {
    LexLeAntisymmetric(Codes(a), Codes(b));
    assert forall i :: 0 <= i < |a| ==> a[i] as nat == Codes(a)[i];
  }
}
