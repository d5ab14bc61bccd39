/**
 * The release version grammar. A version is a release part, numeric segments
 * joined by dots ("9", "2.1"), optionally followed by a dev-build number in
 * one of two notations: the old "<release>.<build>-dev" ("9.1-dev") or the
 * new "<release>+dev.<build>" ("9+dev.1"). Segments are kept as the digit
 * strings that were written, so that a parsed version renders back to
 * exactly the text it was parsed from.
 */
module VersionGrammar {
  import opened Results

  predicate IsDigit(c: char) {
    '0' <= c <= '9'
  }

  predicate AllDigits(d: string) {
    forall i :: 0 <= i < |d| ==> IsDigit(d[i])
  }

  /** A numeral: a non-empty run of decimal digits. */
  predicate IsNumeral(d: string) {
    |d| > 0 && AllDigits(d)
  }

  /** A release part: one or more numerals. */
  predicate IsRelease(segments: seq<string>) {
    |segments| > 0 && forall i :: 0 <= i < |segments| ==> IsNumeral(segments[i])
  }

  /** A version string as written: a final version or a dev build in either notation. */
  datatype Spelling =
    | Final(release: seq<string>)
    | OldDev(release: seq<string>, build: string)
    | NewDev(release: seq<string>, build: string)
  {
    predicate Valid() {
      IsRelease(release) && (Final? || IsNumeral(build))
    }
  }

  // ---- Numerals and their values

  /** The decimal value of a run of digits (0 for the empty run). */
  function NumeralValue(d: string): nat
    requires AllDigits(d)
    decreases |d|
  {
    if d == [] then 0 else NumeralValue(d[..|d| - 1]) * 10 + (d[|d| - 1] as int - '0' as int)
  }

  /**
   * The decimal text of `n`, as the store renders a version that was given
   * as an integer (version 1 is stored as "1").
   */
  function DecimalString(n: nat): (d: string)
    ensures IsNumeral(d) && NumeralValue(d) == n
    ensures d[0] != '0' || d == "0"
    decreases n
  {
    var last := [('0' as int + n % 10) as char];
    if n < 10 then last
    else
      var front := DecimalString(n / 10);
      assert (front + last)[..|front + last| - 1] == front;
      front + last
  }

  // ---- Rendering

  function JoinDots(segments: seq<string>): string
    requires |segments| > 0
    decreases |segments|
  {
    if |segments| == 1 then segments[0] else segments[0] + "." + JoinDots(segments[1..])
  }

  /** The text of a version in its own notation. */
  function Render(sp: Spelling): (s: string)
    requires sp.Valid()
    ensures '+' in s <==> sp.NewDev?
  {
    JoinedRelease(sp.release);
    assert '+' !in JoinDots(sp.release);
    assert !sp.Final? ==> '+' !in sp.build;
    assert sp.NewDev? ==> (JoinDots(sp.release) + "+dev." + sp.build)[|JoinDots(sp.release)|] == '+';
    match sp
    case Final(r) => JoinDots(r)
    case OldDev(r, b) => JoinDots(r) + "." + b + "-dev"
    case NewDev(r, b) => JoinDots(r) + "+dev." + b
  }

  // ---- Parsing

  /** `s` cut at every dot; the text between two dots may be empty. */
  function SplitDots(s: string): (segments: seq<string>)
    ensures |segments| > 0
    ensures forall i :: 0 <= i < |segments| ==> '.' !in segments[i]
    decreases |s|
  {
    if s == [] then [""]
    else
      var rest := SplitDots(s[1..]);
      if s[0] == '.' then [""] + rest
      else
        assert forall i :: 1 <= i < |rest| ==> '.' !in ([[s[0]] + rest[0]] + rest[1..])[i];
        [[s[0]] + rest[0]] + rest[1..]
  }

  /** The position of the first `c` in `s`, or |s| when there is none. */
  function FirstIndex(s: string, c: char): (i: nat)
    ensures i <= |s|
    ensures i < |s| ==> s[i] == c
    ensures forall j :: 0 <= j < i ==> s[j] != c
    decreases |s|
  {
    if s == [] then 0 else if s[0] == c then 0 else 1 + FirstIndex(s[1..], c)
  }

  predicate HasOldDevSuffix(s: string) {
    |s| >= 4 && s[|s| - 4..] == "-dev"
  }

  /** The release part `s` spells, if every dot-separated piece of it is a numeral. */
  function ParseRelease(s: string): (r: Option<seq<string>>)
    ensures r.Some? ==> IsRelease(r.value) && JoinDots(r.value) == s
  {
    var segments := SplitDots(s);
    JoinSplit(s);
    if IsRelease(segments) then Some(segments) else None
  }

  /** "<release>.<build>-dev", given the text before "-dev". */
  function ParseOldDev(body: string): (r: Option<Spelling>)
    ensures r.Some? ==> r.value.OldDev? && r.value.Valid() && Render(r.value) == body + "-dev"
  {
    var segments := SplitDots(body);
    JoinSplit(body);
    if |segments| >= 2 && IsRelease(segments) then
      var n := |segments|;
      assert segments[..n - 1] + [segments[n - 1]] == segments;
      JoinAppend(segments[..n - 1], segments[n - 1]);
      Some(OldDev(segments[..n - 1], segments[n - 1]))
    else None
  }

  /** "<release>+dev.<build>", cut at the first '+'. */
  function ParseNewDev(s: string): (r: Option<Spelling>)
    ensures r.Some? ==> r.value.NewDev? && r.value.Valid() && Render(r.value) == s
  {
    var i := FirstIndex(s, '+');
    if i < |s| then
      var head, tail := s[..i], s[i + 1..];
      var release := ParseRelease(head);
      if release.Some? && |tail| >= 4 && tail[..4] == "dev." && IsNumeral(tail[4..]) then
        assert s == head + "+dev." + tail[4..];
        Some(NewDev(release.value, tail[4..]))
      else None
    else None
  }

  /**
   * The version `s` spells, or None when `s` follows none of the three
   * notations. Whatever is parsed renders back to `s`.
   */
  function Parse(s: string): (r: Option<Spelling>)
    ensures r.Some? ==> r.value.Valid() && Render(r.value) == s
  {
    if HasOldDevSuffix(s) then
      assert s[..|s| - 4] + "-dev" == s;
      ParseOldDev(s[..|s| - 4])
    else if '+' in s then ParseNewDev(s)
    else
      match ParseRelease(s)
      case Some(release) => Some(Final(release))
      case None => None
  }

  // ---- Splitting and joining

  lemma {:induction false} JoinSplit(s: string)
    ensures JoinDots(SplitDots(s)) == s
    decreases |s|
  {
    if s != [] {
      var rest := SplitDots(s[1..]);
      JoinSplit(s[1..]);
      if s[0] == '.' {
        assert ([""] + rest)[1..] == rest;
      } else {
        var segs := [[s[0]] + rest[0]] + rest[1..];
        if |rest| > 1 {
          assert segs[1..] == rest[1..];
        }
        assert s == [s[0]] + s[1..];
      }
    }
  }

  /** Splitting `a + rest` where `a` has no dot glues `a` onto the first piece of `rest`. */
  lemma {:induction false} SplitUndotted(a: string, rest: string)
    requires '.' !in a
    ensures SplitDots(a + rest) == [a + SplitDots(rest)[0]] + SplitDots(rest)[1..]
    decreases |a|
  {
    if a == [] {
      var r := SplitDots(rest);
      assert a + rest == rest && a + r[0] == r[0];
      assert r == [r[0]] + r[1..];
    } else {
      var r := SplitDots(rest);
      assert (a + rest)[0] == a[0] && a[0] != '.';
      assert (a + rest)[1..] == a[1..] + rest;
      SplitUndotted(a[1..], rest);
      var r' := SplitDots(a[1..] + rest);
      assert r'[0] == a[1..] + r[0] && r'[1..] == r[1..];
      assert SplitDots(a + rest) == [[a[0]] + r'[0]] + r'[1..];
      assert [a[0]] + (a[1..] + r[0]) == a + r[0];
    }
  }

  lemma {:induction false} SplitJoin(segments: seq<string>)
    requires |segments| > 0
    requires forall i :: 0 <= i < |segments| ==> '.' !in segments[i]
    ensures SplitDots(JoinDots(segments)) == segments
    decreases |segments|
  {
    if |segments| == 1 {
      SplitUndotted(segments[0], "");
      assert segments[0] + "" == segments[0];
    } else {
      var tail := JoinDots(segments[1..]);
      SplitJoin(segments[1..]);
      assert segments[0] + "." + tail == segments[0] + ("." + tail);
      SplitUndotted(segments[0], "." + tail);
      assert ("." + tail)[0] == '.' && ("." + tail)[1..] == tail;
      assert SplitDots("." + tail) == [""] + segments[1..];
      assert segments[0] + "" == segments[0];
      assert segments == [segments[0]] + segments[1..];
    }
  }

  lemma {:induction false} JoinAppend(segments: seq<string>, b: string)
    requires |segments| > 0
    ensures JoinDots(segments + [b]) == JoinDots(segments) + "." + b
    decreases |segments|
  {
    if |segments| > 1 {
      assert (segments + [b])[1..] == segments[1..] + [b];
      JoinAppend(segments[1..], b);
    }
  }

  /** The text of a release part holds only digits and dots and ends in a digit. */
  lemma {:induction false} JoinedRelease(segments: seq<string>)
    requires IsRelease(segments)
    ensures |JoinDots(segments)| > 0
    ensures IsDigit(JoinDots(segments)[|JoinDots(segments)| - 1])
    ensures forall k :: 0 <= k < |JoinDots(segments)| ==>
      IsDigit(JoinDots(segments)[k]) || JoinDots(segments)[k] == '.'
    decreases |segments|
  {
    if |segments| > 1 {
      JoinedRelease(segments[1..]);
      var h, t := segments[0], JoinDots(segments[1..]);
      assert JoinDots(segments) == h + "." + t;
      forall k | 0 <= k < |h + "." + t|
        ensures IsDigit((h + "." + t)[k]) || (h + "." + t)[k] == '.'
      {
        if k > |h| {
          assert (h + "." + t)[k] == t[k - |h| - 1];
        }
      }
    }
  }

  // ---- The grammar

  lemma ParseRenderFinal(r: seq<string>)
    requires IsRelease(r)
    ensures Parse(Render(Final(r))) == Some(Final(r))
  {
    var s := JoinDots(r);
    JoinedRelease(r);
    SplitJoin(r);
    if |s| >= 4 {
      assert s[|s| - 4..][3] == s[|s| - 1];
    }
    assert !HasOldDevSuffix(s);
    assert '+' !in s;
  }

  lemma ParseRenderOldDev(r: seq<string>, b: string)
    requires OldDev(r, b).Valid()
    ensures Parse(Render(OldDev(r, b))) == Some(OldDev(r, b))
  {
    var s := Render(OldDev(r, b));
    assert s[|s| - 4..] == "-dev";
    JoinAppend(r, b);
    assert s[..|s| - 4] == JoinDots(r + [b]);
    SplitJoin(r + [b]);
    var segs := r + [b];
    assert segs[..|segs| - 1] == r;
  }

  /** The text of a new-style dev build splits at its only '+' into the release and "dev.<build>". */
  lemma NewDevTextSplits(r: seq<string>, b: string)
    requires NewDev(r, b).Valid()
    ensures var s, j := Render(NewDev(r, b)), JoinDots(r);
      !HasOldDevSuffix(s) && FirstIndex(s, '+') == |j| < |s| && s[..|j|] == j && s[|j| + 1..] == "dev." + b
  {
    JoinedRelease(r);
    var j := JoinDots(r);
    assert forall k :: 0 <= k < |j| ==> j[k] != '+';
    SplitsAtPlus(j, b);
  }

  /** A text "<head>+dev.<b>" whose head has no '+' and whose `b` does not end in 'v'. */
  lemma SplitsAtPlus(head: string, b: string)
    requires forall k :: 0 <= k < |head| ==> head[k] != '+'
    requires |b| > 0 && b[|b| - 1] != 'v'
    ensures var s := head + "+dev." + b;
      !HasOldDevSuffix(s) && FirstIndex(s, '+') == |head| < |s| && s[..|head|] == head && s[|head| + 1..] == "dev." + b
  {
    var s := head + "+dev." + b;
    assert s[|s| - 1] == b[|b| - 1];
    if |s| >= 4 {
      assert s[|s| - 4..][3] == s[|s| - 1];
    }
    assert forall k :: 0 <= k < |head| ==> s[k] == head[k];
    assert s[|head|] == '+';
    assert s[..|head|] == head;
    assert s[|head| + 1..] == "dev." + b;
  }

  lemma ParseRenderNewDev(r: seq<string>, b: string)
    requires NewDev(r, b).Valid()
    ensures Parse(Render(NewDev(r, b))) == Some(NewDev(r, b))
  {
    var j := JoinDots(r);
    var s := Render(NewDev(r, b));
    NewDevTextSplits(r, b);
    SplitJoin(r);
    assert '+' in s by {
      assert s[|j|] == '+';
    }
    assert ParseRelease(j) == Some(r);
  }

  /** Every valid version parses back from its own text. */
  lemma ParseRender(sp: Spelling)
    requires sp.Valid()
    ensures Parse(Render(sp)) == Some(sp)
  {
    match sp {
      case Final(r) => ParseRenderFinal(r);
      case OldDev(r, b) => ParseRenderOldDev(r, b);
      case NewDev(r, b) => ParseRenderNewDev(r, b);
    }
  }

  /** Parse is exactly the inverse of Render on valid versions. */
  lemma ParseIffRender(s: string, sp: Spelling)
    ensures Parse(s) == Some(sp) <==> sp.Valid() && Render(sp) == s
  {
    if sp.Valid() && Render(sp) == s {
      ParseRender(sp);
    }
  }

  /** A valid version's text has at most one '+'. */
  lemma RenderHasOnePlusAtMost(sp: Spelling)
    requires sp.Valid()
    ensures multiset(Render(sp))['+'] <= 1
  {
    var j := JoinDots(sp.release);
    JoinedRelease(sp.release);
    assert '+' !in j;
    assert multiset(j)['+'] == 0;
    if !sp.Final? {
      assert forall k :: 0 <= k < |sp.build| ==> sp.build[k] != '+';
      assert multiset(sp.build)['+'] == 0;
    }
  }

  /** A string with more than one '+' is not a version. */
  lemma {:induction false} ManyPlusesInvalid(s: string)
    requires multiset(s)['+'] > 1
    ensures Parse(s) == None
  {
    if Parse(s).Some? {
      RenderHasOnePlusAtMost(Parse(s).value);
    }
  }
}
