/**
 * Ordering of sequences by a caller-supplied "less or equal" relation: the
 * catalog sorts releases by name and release versions by version with it.
 */
module Sorting {

  /** `le` relates every two elements of `xs` one way or the other. */
  ghost predicate TotalOn<T>(le: (T, T) -> bool, xs: seq<T>) {
    forall a, b :: a in xs && b in xs ==> le(a, b) || le(b, a)
  }

  /** `le` is transitive on the elements of `xs`. */
  ghost predicate TransitiveOn<T>(le: (T, T) -> bool, xs: seq<T>) {
    forall a, b, c :: a in xs && b in xs && c in xs && le(a, b) && le(b, c) ==> le(a, c)
  }

  /** Two elements of `xs` that `le` puts each before the other are equal. */
  ghost predicate AntisymmetricOn<T>(le: (T, T) -> bool, xs: seq<T>) {
    forall a, b :: a in xs && b in xs && le(a, b) && le(b, a) ==> a == b
  }

  /** Every element of `xs` is `le` every element after it. */
  ghost predicate SortedBy<T>(le: (T, T) -> bool, xs: seq<T>) {
    forall i, j :: 0 <= i < j < |xs| ==> le(xs[i], xs[j])
  }

  /** Puts `x` into the sorted `xs` in front of the first element it is `le`. */
  function Insert<T>(le: (T, T) -> bool, x: T, xs: seq<T>): (r: seq<T>)
    requires SortedBy(le, xs)
    requires TotalOn(le, [x] + xs) && TransitiveOn(le, [x] + xs)
    ensures multiset(r) == multiset(xs) + multiset{x}
    ensures SortedBy(le, r)
    decreases |xs|
  {
    if xs == [] then [x]
    else if le(x, xs[0]) then
      PrependSorted(le, x, xs);
      [x] + xs
    else
      assert xs == [xs[0]] + xs[1..];
      assert forall a :: a in [x] + xs[1..] ==> a in [x] + xs;
      var rest := Insert(le, x, xs[1..]);
      HeadBeforeAll(le, xs[0], x, xs[1..], rest);
      [xs[0]] + rest
  }

  /** An element `le` the head of a sorted sequence can go in front of it. */
  lemma PrependSorted<T>(le: (T, T) -> bool, x: T, xs: seq<T>)
    requires xs != [] && SortedBy(le, xs) && le(x, xs[0])
    requires TransitiveOn(le, [x] + xs)
    ensures SortedBy(le, [x] + xs)
  {
    var ys := [x] + xs;
    forall i, j | 0 <= i < j < |ys|
      ensures le(ys[i], ys[j])
    {
      assert ys[j] == xs[j - 1];
      if i == 0 {
        if j > 1 {
          assert le(xs[0], xs[j - 1]);
          assert x in ys && xs[0] in ys && xs[j - 1] in ys;
        }
      } else {
        assert ys[i] == xs[i - 1];
      }
    }
  }

  /** A head that is `le` everything of a sorted tail leaves the whole sorted. */
  lemma HeadBeforeAll<T>(le: (T, T) -> bool, h: T, x: T, tail: seq<T>, rest: seq<T>)
    requires SortedBy(le, [h] + tail) && SortedBy(le, rest)
    requires le(h, x)
    requires multiset(rest) == multiset(tail) + multiset{x}
    ensures SortedBy(le, [h] + rest)
  {
    forall j | 0 < j < |[h] + rest|
      ensures le(h, ([h] + rest)[j])
    {
      var y := rest[j - 1];
      assert ([h] + rest)[j] == y;
      assert y in multiset(rest);
      if y != x {
        assert y in multiset(tail);
        var k :| 0 <= k < |tail| && tail[k] == y;
        assert ([h] + tail)[0] == h && ([h] + tail)[k + 1] == y;
      }
    }
  }

  /** `xs` ordered by `le`: a sorted permutation of `xs`. */
  function SortBy<T>(le: (T, T) -> bool, xs: seq<T>): (r: seq<T>)
    requires TotalOn(le, xs) && TransitiveOn(le, xs)
    ensures multiset(r) == multiset(xs)
    ensures SortedBy(le, r)
    decreases |xs|
  {
    if xs == [] then []
    else
      TailOrdered(le, xs);
      assert xs == [xs[0]] + xs[1..];
      var sorted := SortBy(le, xs[1..]);
      PermutedOrdered(le, xs, [xs[0]] + sorted);
      Insert(le, xs[0], sorted)
  }

  lemma TailOrdered<T>(le: (T, T) -> bool, xs: seq<T>)
    requires xs != [] && TotalOn(le, xs) && TransitiveOn(le, xs)
    ensures TotalOn(le, xs[1..]) && TransitiveOn(le, xs[1..])
  {
    assert forall a :: a in xs[1..] ==> a in xs;
  }

  /** The head of a sorted sequence stays in front of any sorted selection of its tail. */
  lemma HeadStaysFirst<T>(le: (T, T) -> bool, xs: seq<T>, rest: seq<T>)
    requires xs != [] && SortedBy(le, xs) && SortedBy(le, rest)
    requires forall v :: v in rest ==> v in xs[1..]
    ensures SortedBy(le, [xs[0]] + rest)
  {
    var ys := [xs[0]] + rest;
    forall i, j | 0 <= i < j < |ys|
      ensures le(ys[i], ys[j])
    {
      assert ys[j] == rest[j - 1] && rest[j - 1] in rest;
      if i == 0 {
        var k :| 0 <= k < |xs[1..]| && xs[1..][k] == rest[j - 1];
        assert xs[k + 1] == rest[j - 1];
      } else {
        assert ys[i] == rest[i - 1];
      }
    }
  }

  /** Totality and transitivity carry over to a permutation. */
  lemma PermutedOrdered<T>(le: (T, T) -> bool, xs: seq<T>, ys: seq<T>)
    requires TotalOn(le, xs) && TransitiveOn(le, xs)
    requires multiset(ys) == multiset(xs)
    ensures TotalOn(le, ys) && TransitiveOn(le, ys)
  {
    forall a | a in ys ensures a in xs {
      assert a in multiset(ys);
    }
  }

  /** The head of a sorted sequence is `le` every other element of it. */
  lemma HeadIsLeast<T>(le: (T, T) -> bool, ys: seq<T>, y: T)
    requires SortedBy(le, ys) && y in ys && ys[0] != y
    ensures le(ys[0], y)
  {
    var k :| 0 <= k < |ys| && ys[k] == y;
  }

  /** Removing equal heads from two permutations of each other leaves permutations. */
  lemma TailsPermuted<T>(ys: seq<T>, zs: seq<T>)
    requires ys != [] && zs != [] && ys[0] == zs[0]
    requires multiset(ys) == multiset(zs)
    ensures multiset(ys[1..]) == multiset(zs[1..])
  {
    assert ys == [ys[0]] + ys[1..];
    assert zs == [zs[0]] + zs[1..];
    calc {
      multiset(ys[1..]);
      multiset(ys) - multiset{ys[0]};
      multiset(zs) - multiset{zs[0]};
      multiset(zs[1..]);
    }
  }

  /** Two sorted permutations of each other are the same sequence when `le` is antisymmetric. */
  lemma {:induction false} SortedUnique<T>(le: (T, T) -> bool, ys: seq<T>, zs: seq<T>)
    requires SortedBy(le, ys) && SortedBy(le, zs)
    requires multiset(ys) == multiset(zs)
    requires AntisymmetricOn(le, ys)
    ensures ys == zs
    decreases |ys|
  {
    if ys == [] {
      assert |multiset(zs)| == 0;
    } else {
      assert |zs| == |multiset(zs)| == |multiset(ys)| == |ys|;
      assert ys[0] in multiset(zs) && zs[0] in multiset(ys);
      if ys[0] != zs[0] {
        HeadIsLeast(le, ys, zs[0]);
        HeadIsLeast(le, zs, ys[0]);
        assert false;
      }
      TailsPermuted(ys, zs);
      assert forall a :: a in ys[1..] ==> a in ys;
      SortedUnique(le, ys[1..], zs[1..]);
    }
  }

  // ---- Orders on three elements

  /** Three elements in strictly ascending order: each sorts no later than exactly itself and the later ones. */
  lemma Ascending3<T>(le: (T, T) -> bool, xs: seq<T>)
    requires |xs| == 3
    requires le(xs[0], xs[0]) && le(xs[1], xs[1]) && le(xs[2], xs[2])
    requires le(xs[0], xs[1]) && !le(xs[1], xs[0])
    requires le(xs[1], xs[2]) && !le(xs[2], xs[1])
    requires le(xs[0], xs[2]) && !le(xs[2], xs[0])
    ensures forall i, j :: 0 <= i < 3 && 0 <= j < 3 ==> (le(xs[i], xs[j]) <==> i <= j)
  {
    forall i, j | 0 <= i < 3 && 0 <= j < 3
      ensures le(xs[i], xs[j]) <==> i <= j
    {
      assert i == 0 || i == 1 || i == 2;
      assert j == 0 || j == 1 || j == 2;
    }
  }

  /** Moving the last element to the front keeps the same elements. */
  lemma RotateOne<T>(xs: seq<T>, a: T)
    ensures multiset(xs + [a]) == multiset([a] + xs)
  {
  }

  /** Moving the first of three elements to the back keeps the same elements. */
  lemma Rotated3<T>(a: T, b: T, c: T)
    ensures multiset([b, c, a]) == multiset([a, b, c])
  {
    assert [b, c, a] == [b, c] + [a];
    assert [a, b, c] == [a] + [b, c];
    RotateOne([b, c], a);
  }

  /** A two-element sequence is the pair of its elements. */
  lemma PairIs<T>(r: seq<T>, x: T, y: T)
    requires |r| == 2 && r[0] == x && r[1] == y
    ensures r == [x, y]
  {
  }

  // ---- Projections

  /** `f` applied to each element, in order. */
  function Map<T, U>(f: T -> U, xs: seq<T>): (r: seq<U>)
    ensures |r| == |xs|
    ensures forall i :: 0 <= i < |xs| ==> r[i] == f(xs[i])
  {
    seq(|xs|, i requires 0 <= i < |xs| => f(xs[i]))
  }

  /** Moving one element to the front keeps the same elements. */
  lemma MoveToFront<T>(ys: seq<T>, k: int)
    requires 0 <= k < |ys|
    ensures multiset([ys[k]] + (ys[..k] + ys[k + 1..])) == multiset(ys)
  {
    assert ys == ys[..k] + [ys[k]] + ys[k + 1..];
  }

  /** Projection distributes over concatenation. */
  lemma MapConcat<T, U>(f: T -> U, a: seq<T>, b: seq<T>)
    ensures Map(f, a + b) == Map(f, a) + Map(f, b)
  {
  }

  /** Projecting two permutations of each other gives permutations of each other. */
  lemma {:induction false} MapPermuted<T, U>(f: T -> U, xs: seq<T>, ys: seq<T>)
    requires multiset(xs) == multiset(ys)
    ensures multiset(Map(f, xs)) == multiset(Map(f, ys))
    decreases |xs|
  {
    if xs == [] {
      assert |ys| == |multiset(ys)| == 0;
    } else {
      var x := xs[0];
      assert x in multiset(ys);
      var k :| 0 <= k < |ys| && ys[k] == x;
      var front, back := ys[..k], ys[k + 1..];
      assert ys == front + [x] + back;
      MoveToFront(ys, k);
      assert ([x] + (front + back))[1..] == front + back;
      TailsPermuted(xs, [x] + (front + back));
      MapPermuted(f, xs[1..], front + back);
      MapConcat(f, front + [x], back);
      MapConcat(f, front, [x]);
      MapConcat(f, front, back);
      assert xs == [x] + xs[1..];
      MapConcat(f, [x], xs[1..]);
      var mf, mb, mt := Map(f, front), Map(f, back), Map(f, xs[1..]);
      assert Map(f, [x]) == [f(x)];
      assert Map(f, xs) == [f(x)] + mt;
      assert multiset(mt) == multiset(mf + mb);
      assert multiset(Map(f, ys)) == multiset(mf) + multiset{f(x)} + multiset(mb);
      assert multiset(Map(f, xs)) == multiset{f(x)} + multiset(mf + mb);
    }
  }
}
